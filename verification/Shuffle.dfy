/** The seeded shuffle that fixes the order in which nodes are visited. */
module Shuffle {
  import opened Division

  const WORD: nat := 0x1_0000_0000_0000_0000
  const MULTIPLIER: nat := 6364136223846793005

  /** One step of the linear congruential generator, on 64-bit words. */
  function NextState(state: nat): (next: nat) {
    (state * MULTIPLIER + 1) % WORD
  }

  /** Shifting a word right by 33 bits drops its low digits. */
  function Pick(state: nat, i: nat): (j: nat)
    ensures j <= i
  {
    (state / 0x2_0000_0000) % (i + 1)
  }

  /** The pick is decided by the bits of the state above the lowest 33. */
  lemma PickIsHighBits(state: nat, i: nat, high: nat, low: nat)
    requires state == high * 0x2_0000_0000 + low && low < 0x2_0000_0000
    ensures Pick(state, i) == high % (i + 1)
  {
    DivisionUnique(state, 0x2_0000_0000, high, low);
  }

  function Swapped(s: seq<nat>, i: nat, j: nat): seq<nat>
    requires i < |s| && j < |s|
  {
    s[i := s[j]][j := s[i]]
  }

  /** The swaps at positions `i` down to 1, from generator state `state`. */
  function Swaps(s: seq<nat>, i: nat, state: nat): (r: seq<nat>)
    requires i == 0 || i < |s|
    decreases i
  {
    if i == 0 then s
    else Swaps(Swapped(s, i, Pick(NextState(state), i)), i - 1, NextState(state))
  }

  function Shuffled(s: seq<nat>, seed: nat): (r: seq<nat>) {
    if |s| <= 1 then s else Swaps(s, |s| - 1, (seed + 1) % WORD)
  }

  method ShuffleWithSeed(a: array<nat>, seed: nat)
    modifies a
    ensures a[..] == Shuffled(old(a[..]), seed)
  {
    var n := a.Length;
    if n <= 1 {
      return;
    }
    var state: nat := (seed + 1) % WORD;
    var i := n - 1;
    while i > 0
      invariant 0 <= i < n
      invariant Swaps(a[..], i, state) == Swaps(old(a[..]), n - 1, (seed + 1) % WORD)
    {
      state := NextState(state);
      var j := Pick(state, i);
      ghost var was := a[..];
      a[i], a[j] := a[j], a[i];
      assert a[..] == Swapped(was, i, j);
      i := i - 1;
    }
  }

  lemma SwapPermutes(s: seq<nat>, i: nat, j: nat)
    requires i < |s| && j < |s|
    ensures |Swapped(s, i, j)| == |s| && multiset(Swapped(s, i, j)) == multiset(s)
  {
  }

  lemma {:induction false} SwapsPermute(s: seq<nat>, i: nat, state: nat)
    requires i == 0 || i < |s|
    ensures |Swaps(s, i, state)| == |s| && multiset(Swaps(s, i, state)) == multiset(s)
    decreases i
  {
    if i > 0 {
      var j := Pick(NextState(state), i);
      SwapPermutes(s, i, j);
      SwapsPermute(Swapped(s, i, j), i - 1, NextState(state));
    }
  }

  /** For every seed the visiting order is a permutation. */
  lemma ShuffledPermutes(s: seq<nat>, seed: nat)
    ensures |Shuffled(s, seed)| == |s| && multiset(Shuffled(s, seed)) == multiset(s)
  {
    if |s| > 1 {
      SwapsPermute(s, |s| - 1, (seed + 1) % WORD);
    }
  }

  /** The node numbers in order. */
  function Identity(n: nat): (ids: seq<nat>)
    ensures |ids| == n && forall i: nat :: i < n ==> ids[i] == i
  {
    seq(n, (i: nat) => i)
  }

  lemma SameElements(s: seq<nat>, t: seq<nat>, x: nat)
    requires multiset(s) == multiset(t)
    ensures x in s <==> x in t
  {
    assert x in multiset(s) <==> x in multiset(t);
  }

  /** Shuffling the node numbers visits exactly the nodes. */
  lemma EveryNodeVisited(n: nat, seed: nat, x: nat)
    ensures x in Shuffled(Identity(n), seed) <==> x < n
  {
    var ids := Identity(n);
    ShuffledPermutes(ids, seed);
    SameElements(Shuffled(ids, seed), ids, x);
    if x < n {
      assert ids[x] == x;
    }
  }
}
