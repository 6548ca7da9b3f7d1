/** Co-occurrence counting in a concurrent open-addressing table.

    One thread per commit position. Each probe is an atomic compare-and-swap, each count an
    atomic add, and any thread may take the next step at any time. */
module GpuCochange {
  import opened Wrappers
  import opened Graphs
  import opened Masks
  import opened PairCounts

  const U32: nat := 0x1_0000_0000
  const U64: nat := 0x1_0000_0000_0000_0000
  const EMPTY: nat := 0xffff_ffff_ffff_ffff

  /** Commits as rows: `nodes[off[c]..off[c + 1]]` are the distinct nodes of commit `c`, ascending. */
  datatype Commits = Commits(off: seq<nat>, nodes: seq<nat>) {
    ghost predicate Valid() {
      && |off| >= 1 && off[0] == 0 && off[|off| - 1] == |nodes|
      && (forall c, d :: 0 <= c <= d < |off| ==> off[c] <= off[d])
      && (forall k :: 0 <= k < |nodes| ==> nodes[k] < U32)
      && forall c: nat {:trigger AscendsIn(c)} :: c < |off| - 1 ==> AscendsIn(c)
    }

    ghost predicate AscendsIn(c: nat)
      requires c < |off| - 1
    {
      forall i, j :: off[c] <= i < j < off[c + 1] && 0 <= i && j < |nodes| ==> nodes[i] < nodes[j]
    }
  }

  function Key(p: Pair): nat {
    p.0 * U32 + p.1
  }

  function Decode(key: nat): Pair {
    (key / U32, key % U32)
  }

  lemma KeyDecodes(p: Pair)
    requires p.0 < p.1 < U32
    ensures Key(p) < EMPTY && Decode(Key(p)) == p
  {
    assert p.0 * U32 <= (U32 - 2) * U32;
  }

  /** The pairs position `k` forms with the positions `lo..hi`. */
  ghost function Part(nodes: seq<nat>, k: nat, lo: nat, hi: nat): multiset<Pair>
    requires k < |nodes| && lo <= hi <= |nodes|
  {
    if lo == hi then multiset{} else Part(nodes, k, lo, hi - 1) + multiset{(nodes[k], nodes[hi - 1])}
  }

  lemma {:induction false} PartFront(nodes: seq<nat>, k: nat, lo: nat, hi: nat)
    requires k < |nodes| && lo < hi <= |nodes|
    ensures Part(nodes, k, lo, hi) == multiset{(nodes[k], nodes[lo])} + Part(nodes, k, lo + 1, hi)
  {
    if lo + 1 < hi {
      PartFront(nodes, k, lo, hi - 1);
      Associate(multiset{(nodes[k], nodes[lo])}, Part(nodes, k, lo + 1, hi - 1), multiset{(nodes[k], nodes[hi - 1])});
    }
  }

  lemma Associate<T>(a: multiset<T>, b: multiset<T>, c: multiset<T>)
    ensures (a + b) + c == a + (b + c)
  {
  }

  lemma {:induction false} PartMember(nodes: seq<nat>, k: nat, lo: nat, hi: nat, p: Pair)
    requires k < |nodes| && lo <= hi <= |nodes|
    ensures p in Part(nodes, k, lo, hi) <==> exists j :: lo <= j < hi && p == (nodes[k], nodes[j])
    ensures |Part(nodes, k, lo, hi)| == hi - lo
  {
    if lo < hi {
      PartMember(nodes, k, lo, hi - 1, p);
    }
  }

  /** The end of the commit that holds position `k`. */
  ghost function CommitEnd(off: seq<nat>, k: nat, c: nat): nat
    decreases |off| - c
  {
    if c + 1 >= |off| then k
    else if off[c] <= k < off[c + 1] then off[c + 1]
    else CommitEnd(off, k, c + 1)
  }

  ghost function End(g: Commits, k: nat): nat {
    CommitEnd(g.off, k, 0)
  }

  lemma {:induction false} EndFrom(g: Commits, k: nat, c: nat, d: nat)
    requires g.Valid() && d <= c < |g.off| - 1 && g.off[c] <= k < g.off[c + 1]
    ensures CommitEnd(g.off, k, d) == g.off[c + 1]
    decreases c - d
  {
    if d < c {
      assert g.off[d + 1] <= g.off[c];
      EndFrom(g, k, c, d + 1);
    }
  }

  lemma EndIs(g: Commits, k: nat, c: nat)
    requires g.Valid() && c < |g.off| - 1 && g.off[c] <= k < g.off[c + 1]
    ensures End(g, k) == g.off[c + 1] && k < End(g, k) <= |g.nodes|
  {
    EndFrom(g, k, c, 0);
  }

  lemma CommitOf(g: Commits, k: nat) returns (c: nat)
    requires g.Valid() && k < |g.nodes|
    ensures c < |g.off| - 1 && g.off[c] <= k < g.off[c + 1]
    ensures End(g, k) == g.off[c + 1] && k < End(g, k) <= |g.nodes|
  {
    c := 0;
    while g.off[c + 1] <= k
      invariant c < |g.off| - 1 && g.off[c] <= k
      decreases |g.off| - c
    {
      c := c + 1;
    }
    EndIs(g, k, c);
  }

  lemma EndBounds(g: Commits, k: nat)
    requires g.Valid() && k < |g.nodes|
    ensures k < End(g, k) <= |g.nodes|
    ensures forall j :: k < j < End(g, k) ==> g.nodes[k] < g.nodes[j] < U32
  {
    var c := CommitOf(g, k);
    assert g.AscendsIn(c);
  }

  /** The pairs position `k` forms in its commit. */
  ghost function PairsAt(g: Commits, k: nat): multiset<Pair>
    requires g.Valid() && k < |g.nodes|
  {
    EndBounds(g, k);
    Part(g.nodes, k, k + 1, End(g, k))
  }

  ghost function PairsBelow(g: Commits, k: nat): multiset<Pair>
    requires g.Valid() && k <= |g.nodes|
  {
    if k == 0 then multiset{} else PairsBelow(g, k - 1) + PairsAt(g, k - 1)
  }

  /** Every pair of every commit: what both the table and the nested loops count. */
  ghost function AllPairs(g: Commits): multiset<Pair>
    requires g.Valid()
  {
    PairsBelow(g, |g.nodes|)
  }

  lemma {:induction false} PairsOrdered(g: Commits, k: nat, p: Pair)
    requires g.Valid() && k <= |g.nodes| && p in PairsBelow(g, k)
    ensures p.0 < p.1 < U32
  {
    if p in PairsAt(g, k - 1) {
      PositionOrdered(g, k - 1, p);
    } else {
      PairsOrdered(g, k - 1, p);
    }
  }

  lemma PositionOrdered(g: Commits, k: nat, p: Pair)
    requires g.Valid() && k < |g.nodes| && p in PairsAt(g, k)
    ensures p.0 < p.1 < U32
  {
    EndBounds(g, k);
    PartMember(g.nodes, k, k + 1, End(g, k), p);
  }

  // ---------------------------------------------------------------- the nested loops

  ghost predicate CountsOf(m: map<Pair, nat>, pairs: multiset<Pair>) {
    && (forall p :: p in m <==> p in pairs)
    && (forall p :: p in m ==> m[p] == pairs[p])
  }

  lemma BumpCounts(m: map<Pair, nat>, p: Pair, pairs: multiset<Pair>)
    requires CountsOf(m, pairs)
    ensures CountsOf(Bump(m, p), pairs + multiset{p})
  {
  }

  lemma PairsNext(g: Commits, c: nat, i: nat)
    requires g.Valid() && c < |g.off| - 1 && g.off[c] <= i < g.off[c + 1] && i < |g.nodes|
    ensures g.off[c + 1] <= |g.nodes|
    ensures PairsBelow(g, i + 1) == PairsBelow(g, i) + Part(g.nodes, i, i + 1, g.off[c + 1])
  {
    EndIs(g, i, c);
  }

  lemma BumpPart(m: map<Pair, nat>, seen: multiset<Pair>, nodes: seq<nat>, i: nat, j: nat)
    requires i < j < |nodes| && CountsOf(m, seen + Part(nodes, i, i + 1, j))
    ensures CountsOf(Bump(m, (nodes[i], nodes[j])), seen + Part(nodes, i, i + 1, j + 1))
  {
    var p := (nodes[i], nodes[j]);
    BumpCounts(m, p, seen + Part(nodes, i, i + 1, j));
    assert seen + Part(nodes, i, i + 1, j) + multiset{p} == seen + (Part(nodes, i, i + 1, j) + multiset{p});
  }

  /** The inner loop: the pairs of position `i` with the positions up to `hi`. */
  method CountPosition(nodes: seq<nat>, i: nat, hi: nat, m0: map<Pair, nat>, ghost seen: multiset<Pair>)
    returns (m: map<Pair, nat>)
    requires i < hi <= |nodes| && CountsOf(m0, seen)
    ensures CountsOf(m, seen + Part(nodes, i, i + 1, hi))
  {
    assert seen + multiset{} == seen;
    m := m0;
    var j := i + 1;
    while j < hi
      invariant i < j <= hi
      invariant CountsOf(m, seen + Part(nodes, i, i + 1, j))
    {
      BumpPart(m, seen, nodes, i, j);
      m := Bump(m, (nodes[i], nodes[j]));
      j := j + 1;
    }
  }

  lemma CountsNext(g: Commits, c: nat, i: nat, m: map<Pair, nat>)
    requires g.Valid() && c < |g.off| - 1 && g.off[c] <= i < g.off[c + 1] <= |g.nodes|
    requires CountsOf(m, PairsBelow(g, i) + Part(g.nodes, i, i + 1, g.off[c + 1]))
    ensures CountsOf(m, PairsBelow(g, i + 1))
  {
    PairsNext(g, c, i);
  }

  /** The map that counts the pairs of the positions before `k`. */
  ghost function CountsBelow(g: Commits, k: nat): iset<map<Pair, nat>>
    requires g.Valid() && k <= |g.nodes|
  {
    iset m: map<Pair, nat> | CountsOf(m, PairsBelow(g, k))
  }

  method CountAt(g: Commits, c: nat, i: nat, m0: map<Pair, nat>) returns (m: map<Pair, nat>)
    requires g.Valid() && c < |g.off| - 1 && g.off[c] <= i < g.off[c + 1] <= |g.nodes|
    requires m0 in CountsBelow(g, i)
    ensures m in CountsBelow(g, i + 1)
  {
    m := CountPosition(g.nodes, i, g.off[c + 1], m0, PairsBelow(g, i));
    CountsNext(g, c, i, m);
  }

  method CountCommit(g: Commits, c: nat, m0: map<Pair, nat>) returns (m: map<Pair, nat>)
    requires g.Valid() && c < |g.off| - 1 && g.off[c] <= g.off[c + 1] <= |g.nodes|
    requires m0 in CountsBelow(g, g.off[c])
    ensures m in CountsBelow(g, g.off[c + 1])
  {
    m := m0;
    var first, end := g.off[c], g.off[c + 1];
    for i := first to end
      invariant m in CountsBelow(g, i)
    {
      m := CountAt(g, c, i, m);
    }
  }

  /** The CPU reference: every pair of every commit, counted in a map. */
  method CpuCounts(g: Commits) returns (m: map<Pair, nat>)
    requires g.Valid()
    ensures CountsOf(m, AllPairs(g))
  {
    m := map[];
    for c := 0 to |g.off| - 1
      invariant g.off[c] <= |g.nodes| && m in CountsBelow(g, g.off[c])
    {
      assert g.off[c + 1] <= g.off[|g.off| - 1];
      m := CountCommit(g, c, m);
    }
  }

  // ---------------------------------------------------------------- the table

  /** A thread between partners, probing for the pair with partner `j` after `d` occupied slots,
      or about to add to the slot found. */
  datatype Thread = Idle(j: nat) | Probing(j: nat, d: nat) | Adding(j: nat, d: nat)

  /** What a launch does not change. The hash is arbitrary; the capacity exceeds the number of pairs. */
  datatype Launch = Launch(g: Commits, mix: nat -> nat, cap: nat) {
    ghost predicate Valid() {
      g.Valid() && |AllPairs(g)| < cap
    }

    /** The slot probed after `d` misses. */
    function Slot(p: Pair, d: nat): (s: nat)
      requires cap > 0
      ensures s < cap
    {
      (mix(Key(p)) + d) % cap
    }

    function PairOf(k: nat, j: nat): Pair
      requires k < |g.nodes| && j < |g.nodes|
    {
      (g.nodes[k], g.nodes[j])
    }
  }

  lemma SlotsCover(l: Launch, p: Pair, s: nat) returns (d: nat)
    requires s < l.cap
    ensures d < l.cap && l.Slot(p, d) == s
  {
    var h := l.mix(Key(p));
    var r := h % l.cap;
    d := if s >= r then s - r else s + l.cap - r;
    assert h == (h / l.cap) * l.cap + r;
    if s >= r {
      assert h + d == (h / l.cap) * l.cap + s;
      RemainderOf(h / l.cap, l.cap, s);
    } else {
      assert h + d == (h / l.cap + 1) * l.cap + s;
      RemainderOf(h / l.cap + 1, l.cap, s);
    }
  }

  lemma MulAtLeast(t: int, c: int)
    requires c > 0 && t >= 1
    ensures t * c >= c
  {
    assert t * c - c == (t - 1) * c;
  }

  lemma MulSmall(t: int, c: int)
    requires c > 0 && -c < t * c < c
    ensures t == 0
  {
    assert (-t) * c == -(t * c);
    if t >= 1 {
      MulAtLeast(t, c);
    }
    if t <= -1 {
      MulAtLeast(-t, c);
    }
  }

  lemma QuotientAndRemainder(x: nat, c: nat)
    requires c > 0
    ensures x == (x / c) * c + x % c && x % c < c
  {
  }

  lemma RemainderOf(q: nat, c: nat, s: nat)
    requires s < c
    ensures (q * c + s) % c == s
  {
    var x := q * c + s;
    QuotientAndRemainder(x, c);
    assert (q - x / c) * c == q * c - (x / c) * c;
    MulSmall(q - x / c, c);
  }

  ghost predicate Holds(l: Launch, keys: seq<nat>, s: nat, p: Pair)
    requires l.Valid()
  {
    s < |keys| && keys[s] == Key(p) && p in AllPairs(l.g)
  }

  /** Occupied slots hold different keys of real pairs, each with no gap on its probe path. */
  ghost predicate Table(l: Launch, keys: seq<nat>)
    requires l.Valid()
  {
    && |keys| == l.cap
    && (forall s: nat :: s < l.cap && keys[s] != EMPTY ==> Holds(l, keys, s, Decode(keys[s])))
    && (forall s: nat, t: nat :: s < l.cap && t < l.cap && keys[s] == keys[t] != EMPTY ==> s == t)
    && (forall s: nat :: s < l.cap && keys[s] != EMPTY ==> NoGap(l, keys, s))
  }

  ghost predicate NoGap(l: Launch, keys: seq<nat>, s: nat)
    requires l.Valid() && |keys| == l.cap && s < l.cap
  {
    exists d: nat :: l.Slot(Decode(keys[s]), d) == s && Occupied(l, keys, Decode(keys[s]), d)
  }

  /** The first `d` slots on the probe path of `p` are taken. */
  ghost predicate Occupied(l: Launch, keys: seq<nat>, p: Pair, d: nat)
    requires l.Valid() && |keys| == l.cap
  {
    forall e: nat :: e < d ==> keys[l.Slot(p, e)] != EMPTY
  }

  /** The first `d` slots on the probe path of `p` are taken, none by `p`. */
  ghost predicate Missed(l: Launch, keys: seq<nat>, p: Pair, d: nat)
    requires l.Valid() && |keys| == l.cap
  {
    forall e: nat :: e < d ==> keys[l.Slot(p, e)] != EMPTY && keys[l.Slot(p, e)] != Key(p)
  }

  ghost predicate ThreadOk(l: Launch, keys: seq<nat>, k: nat, t: Thread)
    requires l.Valid() && |keys| == l.cap && k < |l.g.nodes|
  {
    EndBounds(l.g, k);
    && k < t.j <= End(l.g, k)
    && match t
       case Idle(_) => true
       case Probing(j, d) => j < End(l.g, k) && d < l.cap && Missed(l, keys, l.PairOf(k, j), d)
       case Adding(j, d) => j < End(l.g, k) && d < l.cap && keys[l.Slot(l.PairOf(k, j), d)] == Key(l.PairOf(k, j))
  }

  lemma PairsBelowNext(h: Commits, k: nat)
    requires h.Valid() && k < |h.nodes|
    ensures PairsBelow(h, k + 1) == PairsBelow(h, k) + PairsAt(h, k)
  {
  }

  /** How often a pair is formed below a position, as a function of it. */
  ghost function Counts(h: Commits, p: Pair): nat -> nat {
    (k: nat) => if h.Valid() && k <= |h.nodes| then PairsBelow(h, k)[p] else 0
  }

  lemma CountsAt(h: Commits, p: Pair, k: nat)
    requires h.Valid() && k <= |h.nodes|
    ensures Counts(h, p)(k) == PairsBelow(h, k)[p]
  {
  }

  lemma CountStep(h: Commits, p: Pair, k: nat, next: nat)
    requires h.Valid() && k < |h.nodes| && next == k + 1
    ensures Counts(h, p)(next) == Counts(h, p)(k) + PairsAt(h, k)[p]
  {
    PairsBelowNext(h, k);
    CountsAt(h, p, k);
    CountsAt(h, p, next);
  }

  ghost predicate UpAt(f: nat -> nat, i: nat) {
    f(i + 1) >= f(i)
  }

  lemma {:induction false} StaysUp(f: nat -> nat, k: nat, n: nat)
    requires k <= n && f(k) > 0 && forall i: nat :: i < n ==> UpAt(f, i)
    ensures f(n) > 0
    decreases n
  {
    if k < n {
      StaysUp(f, k, n - 1);
      assert UpAt(f, n - 1);
    }
  }

  lemma CountsUpTo(g: Commits, p: Pair, n: nat)
    requires g.Valid() && n <= |g.nodes|
    ensures forall i: nat :: i < n ==> UpAt(Counts(g, p), i)
  {
    forall i: nat | i < n
      ensures UpAt(Counts(g, p), i)
    {
      CountUp(g, p, i);
    }
  }

  lemma CountUp(g: Commits, p: Pair, i: nat)
    requires g.Valid() && i < |g.nodes|
    ensures UpAt(Counts(g, p), i)
  {
    CountStep(g, p, i, i + 1);
  }

  lemma PairsCounted(g: Commits, n: nat, k: nat, p: Pair)
    requires g.Valid() && k < n <= |g.nodes|
    ensures p in PairsAt(g, k) ==> p in PairsBelow(g, n)
  {
    if p in PairsAt(g, k) {
      CountStep(g, p, k, k + 1);
      CountsUpTo(g, p, n);
      StaysUp(Counts(g, p), k + 1, n);
      CountsAt(g, p, n);
    }
  }

  lemma PairReal(l: Launch, k: nat, j: nat)
    requires l.Valid() && k < |l.g.nodes| && k < j < End(l.g, k)
    ensures j < |l.g.nodes| && l.PairOf(k, j) in AllPairs(l.g)
    ensures Key(l.PairOf(k, j)) < EMPTY && Decode(Key(l.PairOf(k, j))) == l.PairOf(k, j)
  {
    EndBounds(l.g, k);
    PairCounted(l.g, k, j);
    KeyDecodes(l.PairOf(k, j));
  }

  lemma PairCounted(g: Commits, k: nat, j: nat)
    requires g.Valid() && k < j < End(g, k) <= |g.nodes|
    ensures (g.nodes[k], g.nodes[j]) in AllPairs(g)
    ensures g.nodes[k] < g.nodes[j] < U32
  {
    var p := (g.nodes[k], g.nodes[j]);
    PartMember(g.nodes, k, k + 1, End(g, k), p);
    PairsCounted(g, |g.nodes|, k, p);
    PairsOrdered(g, |g.nodes|, p);
  }

  // ---------------------------------------------------------------- probes stop

  lemma {:induction false} DistinctInMultiset<T>(s: seq<T>, m: multiset<T>)
    requires Distinct(s) && forall x :: x in s ==> x in m
    ensures |s| <= |m|
  {
    if s != [] {
      var rest, x := s[..|s| - 1], s[|s| - 1];
      SplitLast(s);
      DistinctSnoc(rest, x);
      DistinctInMultiset(rest, m - multiset{x});
    }
  }

  /** A table never fills: it has more slots than there are pairs. */
  lemma TableHasRoom(l: Launch, keys: seq<nat>)
    requires l.Valid() && Table(l, keys)
    ensures exists s: nat :: s < l.cap && keys[s] == EMPTY
  {
    if forall s: nat :: s < l.cap ==> keys[s] != EMPTY {
      var held := seq(l.cap, s requires 0 <= s < l.cap => Decode(keys[s]));
      forall i, j | 0 <= i < j < l.cap
        ensures held[i] != held[j]
      {
        assert Holds(l, keys, i, held[i]) && Holds(l, keys, j, held[j]);
      }
      forall x | x in held
        ensures x in AllPairs(l.g)
      {
        var s: nat :| s < l.cap && held[s] == x;
        assert Holds(l, keys, s, x);
      }
      DistinctInMultiset(held, AllPairs(l.g));
    }
  }

  /** So a thread that missed `d + 1` slots has not gone all the way round. */
  lemma ProbeStops(l: Launch, keys: seq<nat>, p: Pair, d: nat)
    requires l.Valid() && Table(l, keys) && Missed(l, keys, p, d)
    ensures d < l.cap
  {
    TableHasRoom(l, keys);
    var s: nat :| s < l.cap && keys[s] == EMPTY;
    var e := SlotsCover(l, p, s);
  }

  // ---------------------------------------------------------------- claiming a slot

  /** A free slot at the end of a missed probe path proves the key is nowhere in the table. */
  lemma KeyAbsent(l: Launch, keys: seq<nat>, p: Pair, d: nat, s: nat)
    requires l.Valid() && Table(l, keys) && Missed(l, keys, p, d) && keys[l.Slot(p, d)] == EMPTY
    requires p in AllPairs(l.g)
    requires s < l.cap
    ensures keys[s] != Key(p)
  {
    PairsOrdered(l.g, |l.g.nodes|, p);
    KeyDecodes(p);
  }

  lemma ClaimKeepsTable(l: Launch, keys: seq<nat>, p: Pair, d: nat)
    requires l.Valid() && Table(l, keys) && Missed(l, keys, p, d) && keys[l.Slot(p, d)] == EMPTY
    requires p in AllPairs(l.g)
    ensures Table(l, keys[l.Slot(p, d) := Key(p)])
  {
    PairsOrdered(l.g, |l.g.nodes|, p);
    KeyDecodes(p);
    var slot := l.Slot(p, d);
    var keys' := keys[slot := Key(p)];
    forall s: nat | s < l.cap && keys'[s] != EMPTY
      ensures Holds(l, keys', s, Decode(keys'[s])) && NoGap(l, keys', s)
    {
      if s == slot {
        assert Occupied(l, keys', p, d);
      } else {
        assert Holds(l, keys, s, Decode(keys[s])) && NoGap(l, keys, s);
        var e: nat :| l.Slot(Decode(keys[s]), e) == s && Occupied(l, keys, Decode(keys[s]), e);
        assert Occupied(l, keys', Decode(keys[s]), e);
      }
    }
    forall s: nat, t: nat | s < l.cap && t < l.cap && keys'[s] == keys'[t] != EMPTY
      ensures s == t
    {
      KeyAbsent(l, keys, p, d, s);
      KeyAbsent(l, keys, p, d, t);
    }
  }

  lemma ClaimKeepsThread(l: Launch, keys: seq<nat>, slot: nat, key: nat, k: nat, t: Thread)
    requires l.Valid() && |keys| == l.cap && slot < l.cap && keys[slot] == EMPTY && key != EMPTY
    requires k < |l.g.nodes| && ThreadOk(l, keys, k, t)
    ensures ThreadOk(l, keys[slot := key], k, t)
  {
    EndBounds(l.g, k);
    if t.Adding? {
      PairReal(l, k, t.j);
    }
  }

  // ---------------------------------------------------------------- what is still to be counted

  /** The pairs a thread has not added yet. */
  ghost function Owed(g: Commits, k: nat, t: Thread): multiset<Pair>
    requires g.Valid() && k < |g.nodes| && k < t.j <= End(g, k)
  {
    EndBounds(g, k);
    Part(g.nodes, k, t.j, End(g, k))
  }

  ghost predicate InRange(g: Commits, threads: seq<Thread>)
    requires g.Valid()
  {
    |threads| == |g.nodes| && forall k: nat :: k < |threads| ==> k < threads[k].j <= End(g, k)
  }

  ghost function OwedBelow(g: Commits, threads: seq<Thread>, k: nat): multiset<Pair>
    requires g.Valid() && InRange(g, threads) && k <= |threads|
  {
    if k == 0 then multiset{} else OwedBelow(g, threads, k - 1) + Owed(g, k - 1, threads[k - 1])
  }

  lemma Exchange<T>(a: multiset<T>, b: multiset<T>, x: multiset<T>, y: multiset<T>, z: multiset<T>)
    ensures a + y + x == a + x + y
    ensures b + x == a + y ==> (b + z) + x == (a + z) + y
  {
    if b + x == a + y {
      assert (b + z) + x == (b + x) + z;
      assert (a + z) + y == (a + y) + z;
    }
  }

  lemma UpdateInRange(g: Commits, threads: seq<Thread>, i: nat, t: Thread)
    requires g.Valid() && InRange(g, threads) && i < |threads| && i < t.j <= End(g, i)
    ensures InRange(g, threads[i := t])
  {
  }

  lemma {:induction false} OwedSame(g: Commits, threads: seq<Thread>, other: seq<Thread>, k: nat)
    requires g.Valid() && InRange(g, threads) && InRange(g, other) && k <= |threads|
    requires forall i: nat :: i < k ==> threads[i] == other[i]
    ensures OwedBelow(g, other, k) == OwedBelow(g, threads, k)
  {
    if k > 0 {
      OwedSame(g, threads, other, k - 1);
    }
  }

  /** Moving one thread changes the sum by that thread's share. */
  lemma {:induction false} OwedUpdate(g: Commits, threads: seq<Thread>, i: nat, t: Thread, k: nat)
    requires g.Valid() && InRange(g, threads) && i < k <= |threads|
    requires i < t.j <= End(g, i) && InRange(g, threads[i := t])
    ensures OwedBelow(g, threads[i := t], k) + Owed(g, i, threads[i]) == OwedBelow(g, threads, k) + Owed(g, i, t)
    decreases k
  {
    if k == i + 1 {
      OwedSame(g, threads, threads[i := t], i);
      Exchange(OwedBelow(g, threads, i), OwedBelow(g, threads, i), Owed(g, i, threads[i]), Owed(g, i, t),
          Owed(g, i, t));
    } else {
      OwedUpdate(g, threads, i, t, k - 1);
      Exchange(OwedBelow(g, threads, k - 1), OwedBelow(g, threads[i := t], k - 1), Owed(g, i, threads[i]),
          Owed(g, i, t),
               Owed(g, k - 1, threads[k - 1]));
    }
  }

  lemma {:induction false} OwedAtStart(g: Commits, threads: seq<Thread>, k: nat)
    requires g.Valid() && InRange(g, threads) && k <= |threads|
    requires forall i: nat :: i < |threads| ==> threads[i] == Idle(i + 1)
    ensures OwedBelow(g, threads, k) == PairsBelow(g, k)
  {
    if k > 0 {
      OwedAtStart(g, threads, k - 1);
    }
  }

  lemma {:induction false} OwedDone(g: Commits, threads: seq<Thread>, k: nat)
    requires g.Valid() && InRange(g, threads) && k <= |threads|
    requires forall i: nat :: i < |threads| ==> threads[i].j == End(g, i)
    ensures OwedBelow(g, threads, k) == multiset{}
  {
    if k > 0 {
      OwedDone(g, threads, k - 1);
    }
  }

  // ---------------------------------------------------------------- counts

  /** Each slot's count and the pairs still owed make up the true count. */
  ghost predicate Counted(l: Launch, keys: seq<nat>, counts: seq<nat>, owed: multiset<Pair>)
    requires l.Valid()
  {
    && |keys| == l.cap == |counts|
    && owed <= AllPairs(l.g)
    && (forall s: nat :: s < l.cap ==> SlotCounted(l, keys, counts, owed, s))
    && AllStored(l, keys, owed)
  }

  ghost predicate SlotCounted(l: Launch, keys: seq<nat>, counts: seq<nat>, owed: multiset<Pair>, s: nat)
    requires l.Valid() && s < |keys| == |counts|
  {
    if keys[s] == EMPTY then counts[s] == 0
    else counts[s] + owed[Decode(keys[s])] == AllPairs(l.g)[Decode(keys[s])]
  }

  /** Every pair added so far is in the table. */
  ghost predicate AllStored(l: Launch, keys: seq<nat>, owed: multiset<Pair>)
    requires l.Valid()
  {
    forall p :: p in AllPairs(l.g) && owed[p] < AllPairs(l.g)[p] ==> Stored(keys, p)
  }

  ghost predicate Stored(keys: seq<nat>, p: Pair) {
    exists s: nat :: s < |keys| && keys[s] == Key(p)
  }

  lemma ClaimKeepsCounts(l: Launch, keys: seq<nat>, counts: seq<nat>, owed: multiset<Pair>, p: Pair, d: nat)
    requires l.Valid() && Table(l, keys) && Missed(l, keys, p, d) && keys[l.Slot(p, d)] == EMPTY
    requires p in AllPairs(l.g) && Counted(l, keys, counts, owed)
    ensures Counted(l, keys[l.Slot(p, d) := Key(p)], counts, owed)
  {
    PairsOrdered(l.g, |l.g.nodes|, p);
    KeyDecodes(p);
    var slot := l.Slot(p, d);
    var keys' := keys[slot := Key(p)];
    assert !Stored(keys, p) by {
      forall s: nat | s < |keys|
        ensures keys[s] != Key(p)
      {
        KeyAbsent(l, keys, p, d, s);
      }
    }
    assert SlotCounted(l, keys, counts, owed, slot);
    forall s: nat | s < l.cap
      ensures SlotCounted(l, keys', counts, owed, s)
    {
      assert SlotCounted(l, keys, counts, owed, s);
    }
    forall q | q in AllPairs(l.g) && owed[q] < AllPairs(l.g)[q]
      ensures Stored(keys', q)
    {
      var s: nat :| s < |keys| && keys[s] == Key(q);
      PairsOrdered(l.g, |l.g.nodes|, q);
      KeyDecodes(q);
      assert keys'[s] == Key(q);
    }
  }

  lemma OtherSlots(l: Launch, keys: seq<nat>, p: Pair, slot: nat, s: nat)
    requires l.Valid() && Table(l, keys) && slot < l.cap && s < l.cap && s != slot
    requires keys[slot] == Key(p) && keys[s] != EMPTY && p in AllPairs(l.g)
    ensures Decode(keys[s]) != p
  {
    assert Holds(l, keys, s, Decode(keys[s]));
  }

  lemma AddCountsSlot(l: Launch, keys: seq<nat>, counts: seq<nat>, owed: multiset<Pair>, p: Pair, slot: nat, s: nat)
    requires l.Valid() && Table(l, keys) && |keys| == |counts| && p in AllPairs(l.g)
    requires slot < l.cap && keys[slot] == Key(p) && p in owed && s < l.cap
    requires SlotCounted(l, keys, counts, owed, s)
    ensures SlotCounted(l, keys, counts[slot := counts[slot] + 1], owed - multiset{p}, s)
  {
    PairsOrdered(l.g, |l.g.nodes|, p);
    KeyDecodes(p);
    if s != slot && keys[s] != EMPTY {
      OtherSlots(l, keys, p, slot, s);
    }
  }

  lemma AddKeepsStored(l: Launch, keys: seq<nat>, owed: multiset<Pair>, p: Pair, slot: nat)
    requires l.Valid() && |keys| == l.cap && AllStored(l, keys, owed)
    requires slot < l.cap && keys[slot] == Key(p)
    ensures AllStored(l, keys, owed - multiset{p})
  {
    assert Stored(keys, p);
    forall q | q in AllPairs(l.g) && (owed - multiset{p})[q] < AllPairs(l.g)[q]
      ensures Stored(keys, q)
    {
      assert q == p || (owed - multiset{p})[q] == owed[q];
    }
  }

  lemma AddKeepsCounts(l: Launch, keys: seq<nat>, counts: seq<nat>, owed: multiset<Pair>, p: Pair, slot: nat)
    requires l.Valid() && Table(l, keys) && Counted(l, keys, counts, owed)
    requires slot < l.cap && keys[slot] == Key(p) && p in owed
    ensures Counted(l, keys, counts[slot := counts[slot] + 1], owed - multiset{p})
  {
    assert p in AllPairs(l.g);
    var counts', owed' := counts[slot := counts[slot] + 1], owed - multiset{p};
    forall s: nat | s < l.cap
      ensures SlotCounted(l, keys, counts', owed', s)
    {
      AddCountsSlot(l, keys, counts, owed, p, slot, s);
    }
    AddKeepsStored(l, keys, owed, p, slot);
  }

  // ---------------------------------------------------------------- steps

  ghost predicate Running(l: Launch, keys: seq<nat>, counts: seq<nat>, threads: seq<Thread>)
    requires l.Valid()
  {
    && Table(l, keys) && InRange(l.g, threads)
    && AllOk(l, keys, threads)
    && Counted(l, keys, counts, OwedBelow(l.g, threads, |threads|))
  }

  ghost predicate AllOk(l: Launch, keys: seq<nat>, threads: seq<Thread>)
    requires l.Valid() && |keys| == l.cap
  {
    |threads| == |l.g.nodes| && forall k: nat :: k < |threads| ==> ThreadOk(l, keys, k, threads[k])
  }

  lemma AllOkUpdate(l: Launch, keys: seq<nat>, threads: seq<Thread>, k: nat, t: Thread)
    requires l.Valid() && |keys| == l.cap && AllOk(l, keys, threads) && k < |threads| && ThreadOk(l, keys, k, t)
    ensures AllOk(l, keys, threads[k := t])
  {
  }

  /** Steps a thread can take before it adds, as a measure. */
  ghost function Stage(cap: nat, t: Thread): nat {
    match t
    case Idle(_) => cap + 2
    case Probing(_, d) => if d <= cap then cap + 1 - d else 0
    case Adding(_, _) => 0
  }

  ghost function Stages(cap: nat, threads: seq<Thread>): nat {
    if threads == [] then 0 else Stages(cap, threads[..|threads| - 1]) + Stage(cap, threads[|threads| - 1])
  }

  lemma {:induction false} StagesUpdate(cap: nat, threads: seq<Thread>, i: nat, t: Thread)
    requires i < |threads|
    ensures Stages(cap, threads[i := t]) + Stage(cap, threads[i]) == Stages(cap, threads) + Stage(cap, t)
  {
    var n := |threads| - 1;
    if i == n {
      assert threads[i := t][..n] == threads[..n];
    } else {
      StagesUpdate(cap, threads[..n], i, t);
      assert threads[i := t][..n] == threads[..n][i := t];
    }
  }

  ghost predicate Progress(l: Launch, threads: seq<Thread>, threads': seq<Thread>)
    requires l.Valid() && InRange(l.g, threads) && InRange(l.g, threads')
  {
    var before, after := OwedBelow(l.g, threads, |threads|), OwedBelow(l.g, threads', |threads'|);
    |after| < |before| || (after == before && Stages(l.cap, threads') < Stages(l.cap, threads))
  }

  /** A thread that has not added keeps owing the same pairs. */
  lemma MoveThread(l: Launch, threads: seq<Thread>, k: nat, t: Thread)
    requires l.Valid() && InRange(l.g, threads) && k < |threads| && t.j == threads[k].j
    requires Stage(l.cap, t) < Stage(l.cap, threads[k])
    ensures InRange(l.g, threads[k := t])
    ensures OwedBelow(l.g, threads[k := t], |threads|) == OwedBelow(l.g, threads, |threads|)
    ensures Progress(l, threads, threads[k := t])
  {
    UpdateInRange(l.g, threads, k, t);
    OwedUpdate(l.g, threads, k, t, |threads|);
    StagesUpdate(l.cap, threads, k, t);
    var o := Owed(l.g, k, t);
    assert OwedBelow(l.g, threads[k := t], |threads|) + o - o == OwedBelow(l.g, threads, |threads|) + o - o;
    assert OwedBelow(l.g, threads[k := t], |threads|) + o - o == OwedBelow(l.g, threads[k := t], |threads|);
    assert OwedBelow(l.g, threads, |threads|) + o - o == OwedBelow(l.g, threads, |threads|);
  }

  /** The next partner: start probing at the hash slot. */
  lemma StartKeeps(l: Launch, keys: seq<nat>, counts: seq<nat>, threads: seq<Thread>, k: nat)
    requires l.Valid() && Running(l, keys, counts, threads) && k < |threads|
    requires threads[k].Idle? && threads[k].j < End(l.g, k)
    ensures InRange(l.g, threads[k := Probing(threads[k].j, 0)])
    ensures Running(l, keys, counts, threads[k := Probing(threads[k].j, 0)])
    ensures Progress(l, threads, threads[k := Probing(threads[k].j, 0)])
  {
    var t := Probing(threads[k].j, 0);
    MoveThread(l, threads, k, t);
    TableHasRoom(l, keys);
    AllOkUpdate(l, keys, threads, k, t);
  }

  /** The slot holds the key already: go on to add. */
  lemma FoundKeeps(l: Launch, keys: seq<nat>, counts: seq<nat>, threads: seq<Thread>, k: nat)
    requires l.Valid() && Running(l, keys, counts, threads) && k < |threads| && threads[k].Probing?
    requires var t := threads[k]; t.j < |l.g.nodes| && keys[l.Slot(l.PairOf(k, t.j), t.d)] == Key(l.PairOf(k, t.j))
    ensures InRange(l.g, threads[k := Adding(threads[k].j, threads[k].d)])
    ensures Running(l, keys, counts, threads[k := Adding(threads[k].j, threads[k].d)])
    ensures Progress(l, threads, threads[k := Adding(threads[k].j, threads[k].d)])
  {
    var t := Adding(threads[k].j, threads[k].d);
    assert ThreadOk(l, keys, k, threads[k]);
    MoveThread(l, threads, k, t);
    AllOkUpdate(l, keys, threads, k, t);
  }

  /** The slot holds another key: probe the next one. */
  lemma MissKeeps(l: Launch, keys: seq<nat>, counts: seq<nat>, threads: seq<Thread>, k: nat)
    requires l.Valid() && Running(l, keys, counts, threads) && k < |threads| && threads[k].Probing?
    requires threads[k].j < |l.g.nodes| && keys[l.Slot(l.PairOf(k, threads[k].j), threads[k].d)] != EMPTY
    requires keys[l.Slot(l.PairOf(k, threads[k].j), threads[k].d)] != Key(l.PairOf(k, threads[k].j))
    ensures InRange(l.g, threads[k := Probing(threads[k].j, threads[k].d + 1)])
    ensures Running(l, keys, counts, threads[k := Probing(threads[k].j, threads[k].d + 1)])
    ensures Progress(l, threads, threads[k := Probing(threads[k].j, threads[k].d + 1)])
  {
    var t := Probing(threads[k].j, threads[k].d + 1);
    assert ThreadOk(l, keys, k, threads[k]);
    var p := l.PairOf(k, t.j);
    assert Missed(l, keys, p, t.d);
    ProbeStops(l, keys, p, t.d);
    MoveThread(l, threads, k, t);
    AllOkUpdate(l, keys, threads, k, t);
  }

  /** The slot is free: the swap claims it. */
  lemma ClaimKeeps(l: Launch, keys: seq<nat>, counts: seq<nat>, threads: seq<Thread>, k: nat)
    requires l.Valid() && Running(l, keys, counts, threads) && k < |threads| && threads[k].Probing?
    requires var t := threads[k]; t.j < |l.g.nodes| && keys[l.Slot(l.PairOf(k, t.j), t.d)] == EMPTY
    ensures InRange(l.g, threads[k := Adding(threads[k].j, threads[k].d)])
    ensures Running(l, keys[l.Slot(l.PairOf(k, threads[k].j), threads[k].d) := Key(l.PairOf(k, threads[k].j))], counts,
                    threads[k := Adding(threads[k].j, threads[k].d)])
    ensures Progress(l, threads, threads[k := Adding(threads[k].j, threads[k].d)])
  {
    var t := Adding(threads[k].j, threads[k].d);
    assert ThreadOk(l, keys, k, threads[k]);
    var p := l.PairOf(k, t.j);
    PairReal(l, k, t.j);
    ClaimKeepsTable(l, keys, p, t.d);
    ClaimKeepsCounts(l, keys, counts, OwedBelow(l.g, threads, |threads|), p, t.d);
    MoveThread(l, threads, k, t);
    var keys' := keys[l.Slot(p, t.d) := Key(p)];
    forall i: nat | i < |threads|
      ensures ThreadOk(l, keys', i, threads[i])
    {
      ClaimKeepsThread(l, keys, l.Slot(p, t.d), Key(p), i, threads[i]);
    }
    AllOkUpdate(l, keys', threads, k, t);
  }

  /** An added pair is no longer owed. */
  lemma AddPays(l: Launch, threads: seq<Thread>, k: nat)
    requires l.Valid() && InRange(l.g, threads) && k < |threads| && threads[k].j < End(l.g, k) <= |l.g.nodes|
    ensures InRange(l.g, threads[k := Idle(threads[k].j + 1)])
    ensures var before, after := OwedBelow(l.g, threads, |threads|),
        OwedBelow(l.g, threads[k := Idle(threads[k].j + 1)], |threads|);
            var p := l.PairOf(k, threads[k].j);
            after == before - multiset{p} && p in before && |after| < |before|
  {
    var t := Idle(threads[k].j + 1);
    PartFront(l.g.nodes, k, threads[k].j, End(l.g, k));
    UpdateInRange(l.g, threads, k, t);
    OwedUpdate(l.g, threads, k, t, |threads|);
    RemoveOne(OwedBelow(l.g, threads[k := t], |threads|), OwedBelow(l.g, threads, |threads|), Owed(l.g, k, t),
              l.PairOf(k, threads[k].j));
  }

  /** The atomic add: one pair less is owed. */
  lemma AddKeeps(l: Launch, keys: seq<nat>, counts: seq<nat>, threads: seq<Thread>, k: nat, slot: nat,
      counts': seq<nat>, t: Thread)
    requires l.Valid() && Running(l, keys, counts, threads) && k < |threads| && threads[k].Adding?
    requires threads[k].j < |l.g.nodes| && slot == l.Slot(l.PairOf(k, threads[k].j), threads[k].d)
    requires counts' == counts[slot := counts[slot] + 1] && t == Idle(threads[k].j + 1)
    ensures InRange(l.g, threads[k := t]) && Running(l, keys, counts', threads[k := t])
  {
    assert ThreadOk(l, keys, k, threads[k]);
    EndBounds(l.g, k);
    AddPays(l, threads, k);
    AddKeepsCounts(l, keys, counts, OwedBelow(l.g, threads, |threads|), l.PairOf(k, threads[k].j), slot);
    AllOkUpdate(l, keys, threads, k, t);
  }

  lemma AddProgress(l: Launch, keys: seq<nat>, counts: seq<nat>, threads: seq<Thread>, k: nat)
    requires l.Valid() && Running(l, keys, counts, threads) && k < |threads| && threads[k].Adding?
    ensures InRange(l.g, threads[k := Idle(threads[k].j + 1)])
        && Progress(l, threads, threads[k := Idle(threads[k].j + 1)])
  {
    assert ThreadOk(l, keys, k, threads[k]);
    EndBounds(l.g, k);
    AddPays(l, threads, k);
  }

  lemma RemoveOne<T>(after: multiset<T>, before: multiset<T>, rest: multiset<T>, x: T)
    requires after + (multiset{x} + rest) == before + rest
    ensures after == before - multiset{x} && x in before && |after| < |before|
  {
    assert (after + multiset{x}) + rest == before + rest;
    assert (after + multiset{x}) + rest - rest == after + multiset{x};
    assert before + rest - rest == before;
    assert before == after + multiset{x};
  }

  // ---------------------------------------------------------------- the kernel and its host

  /** `owner[k]` is the commit of position `k`. */
  ghost predicate Owners(g: Commits, owner: seq<nat>)
    requires g.Valid()
  {
    && |owner| == |g.nodes|
    && forall k :: 0 <= k < |owner| ==> owner[k] < |g.off| - 1 && g.off[owner[k]] <= k < g.off[owner[k] + 1]
  }

  method OwnerArray(g: Commits) returns (owner: array<nat>)
    requires g.Valid()
    ensures fresh(owner) && Owners(g, owner[..])
  {
    owner := new nat[|g.nodes|](_ => 0);
    var c := 0;
    while c < |g.off| - 1
      invariant 0 <= c < |g.off|
      invariant forall k :: 0 <= k < g.off[c] && k < owner.Length ==>
                  owner[k] < |g.off| - 1 && g.off[owner[k]] <= k < g.off[owner[k] + 1]
    {
      assert g.off[c + 1] <= g.off[|g.off| - 1];
      var k := g.off[c];
      while k < g.off[c + 1]
        invariant g.off[c] <= k <= g.off[c + 1] <= owner.Length
        invariant forall i :: 0 <= i < k ==>
                    owner[i] < |g.off| - 1 && g.off[owner[i]] <= i < g.off[owner[i] + 1]
      {
        owner[k] := c;
        k := k + 1;
      }
      c := c + 1;
    }
  }

  /** The compare-and-swap of a probing thread. */
  method CasStep(l: Launch, keys: array<nat>, ghost counts: seq<nat>, threads: seq<Thread>, k: nat) returns (t': Thread)
    requires l.Valid() && Running(l, keys[..], counts, threads)
    requires k < |threads| && threads[k].Probing? && threads[k].j < |l.g.nodes|
    modifies keys
    ensures Running(l, keys[..], counts, threads[k := t']) && Progress(l, threads, threads[k := t'])
  {
    var t := threads[k];
    var p := l.PairOf(k, t.j);
    var slot := l.Slot(p, t.d);
    var cur := keys[slot];
    if cur == EMPTY {
      t' := ClaimStep(l, keys, counts, threads, k);
    } else {
      t' := if cur == Key(p) then Adding(t.j, t.d) else Probing(t.j, t.d + 1);
      TakenKeeps(l, keys[..], counts, threads, k, t');
    }
  }

  /** A swap that failed changes only the thread. */
  lemma TakenKeeps(l: Launch, keys: seq<nat>, counts: seq<nat>, threads: seq<Thread>, k: nat, t': Thread)
    requires l.Valid() && Running(l, keys, counts, threads) && k < |threads| && threads[k].Probing?
    requires threads[k].j < |l.g.nodes| && keys[l.Slot(l.PairOf(k, threads[k].j), threads[k].d)] != EMPTY
    requires t' == if keys[l.Slot(l.PairOf(k, threads[k].j), threads[k].d)] == Key(l.PairOf(k, threads[k].j))
                   then Adding(threads[k].j, threads[k].d) else Probing(threads[k].j, threads[k].d + 1)
    ensures InRange(l.g, threads[k := t']) && Running(l, keys, counts, threads[k := t'])
        && Progress(l, threads, threads[k := t'])
  {
    if t'.Adding? {
      FoundKeeps(l, keys, counts, threads, k);
    } else {
      MissKeeps(l, keys, counts, threads, k);
    }
  }

  method ClaimStep(l: Launch, keys: array<nat>, ghost counts: seq<nat>, threads: seq<Thread>, k: nat)
      returns (t': Thread)
    requires l.Valid() && Running(l, keys[..], counts, threads)
    requires k < |threads| && threads[k].Probing? && threads[k].j < |l.g.nodes|
    requires keys[l.Slot(l.PairOf(k, threads[k].j), threads[k].d)] == EMPTY
    modifies keys
    ensures Running(l, keys[..], counts, threads[k := t']) && Progress(l, threads, threads[k := t'])
  {
    ClaimKeeps(l, keys[..], counts, threads, k);
    var p := l.PairOf(k, threads[k].j);
    var slot := l.Slot(p, threads[k].d);
    ghost var ks := keys[..];
    keys[slot] := Key(p);
    assert keys[..] == ks[slot := Key(p)];
    t' := Adding(threads[k].j, threads[k].d);
  }

  method AddStep(l: Launch, ghost keys: seq<nat>, counts: array<nat>, threads: seq<Thread>, k: nat) returns (t': Thread)
    requires l.Valid() && Running(l, keys, counts[..], threads)
    requires k < |threads| && threads[k].Adding? && threads[k].j < |l.g.nodes|
    modifies counts
    ensures Running(l, keys, counts[..], threads[k := t']) && Progress(l, threads, threads[k := t'])
  {
    AddProgress(l, keys, counts[..], threads, k);
    var slot := l.Slot(l.PairOf(k, threads[k].j), threads[k].d);
    t' := Idle(threads[k].j + 1);
    ghost var cs := counts[..];
    AddKeeps(l, keys, cs, threads, k, slot, cs[slot := cs[slot] + 1], t');
    counts[slot] := counts[slot] + 1;
    assert counts[..] == cs[slot := cs[slot] + 1];
  }

  /** One step of thread `k`. */
  method Step(l: Launch, keys: array<nat>, counts: array<nat>, threads: seq<Thread>, k: nat) returns (t': Thread)
    requires l.Valid() && keys != counts && Running(l, keys[..], counts[..], threads)
    requires k < |threads| && !(threads[k].Idle? && threads[k].j == End(l.g, k))
    modifies keys, counts
    ensures Running(l, keys[..], counts[..], threads[k := t']) && Progress(l, threads, threads[k := t'])
  {
    assert ThreadOk(l, keys[..], k, threads[k]);
    EndBounds(l.g, k);
    if threads[k].Idle? {
      StartKeeps(l, keys[..], counts[..], threads, k);
      t' := Probing(threads[k].j, 0);
    } else if threads[k].Probing? {
      t' := CasStep(l, keys, counts[..], threads, k);
    } else {
      t' := AddStep(l, keys[..], counts, threads, k);
    }
  }

  /** The table after the launch: the occupied slots hold each pair once, with its count. */
  ghost predicate Filled(l: Launch, keys: seq<nat>, counts: seq<nat>)
    requires l.Valid()
  {
    && Table(l, keys) && |counts| == l.cap
    && (forall s: nat :: s < l.cap && keys[s] != EMPTY ==> counts[s] == AllPairs(l.g)[Decode(keys[s])])
    && (forall p :: p in AllPairs(l.g) ==> Stored(keys, p))
  }

  lemma FinishedFilled(l: Launch, keys: seq<nat>, counts: seq<nat>, threads: seq<Thread>)
    requires l.Valid() && Running(l, keys, counts, threads)
    requires forall k: nat :: k < |threads| ==> threads[k].j == End(l.g, k)
    ensures Filled(l, keys, counts)
  {
    OwedDone(l.g, threads, |threads|);
    forall s: nat | s < l.cap
      ensures keys[s] != EMPTY ==> counts[s] == AllPairs(l.g)[Decode(keys[s])]
    {
      assert SlotCounted(l, keys, counts, multiset{}, s);
    }
  }

  lemma StartRunning(l: Launch, keys: seq<nat>, counts: seq<nat>, threads: seq<Thread>)
    requires l.Valid() && |keys| == l.cap == |counts| && |threads| == |l.g.nodes|
    requires forall s :: 0 <= s < l.cap ==> keys[s] == EMPTY && counts[s] == 0
    requires forall k: nat :: k < |threads| ==> threads[k] == Idle(k + 1)
    ensures Running(l, keys, counts, threads)
  {
    forall k: nat | k < |threads|
      ensures k < threads[k].j <= End(l.g, k)
    {
      EndBounds(l.g, k);
    }
    OwedAtStart(l.g, threads, |threads|);
    forall k: nat | k < |threads|
      ensures ThreadOk(l, keys, k, threads[k])
    {
      EndBounds(l.g, k);
    }
  }

  /** A thread leaves only when its last pair has been added. */
  ghost predicate Exited(g: Commits, threads: seq<Thread>, live: set<nat>) {
    live <= Below(|threads|) && forall k: nat :: k < |threads| && k !in live ==>
        threads[k].Idle? && threads[k].j == End(g, k)
  }

  /** Let any live thread run: it leaves its loop or takes a step. */
  method Schedule(l: Launch, owner: array<nat>, keys: array<nat>, counts: array<nat>, threads0: seq<Thread>,
      live0: set<nat>)
    returns (threads: seq<Thread>, live: set<nat>)
    requires l.Valid() && keys != counts && owner != keys && owner != counts && Owners(l.g, owner[..])
    requires Running(l, keys[..], counts[..], threads0) && Exited(l.g, threads0, live0) && live0 != {}
    modifies keys, counts
    ensures Running(l, keys[..], counts[..], threads) && Exited(l.g, threads, live)
    ensures Progress(l, threads0, threads) || (threads == threads0 && live < live0)
  {
    var k :| k in live0;
    EndIs(l.g, k, owner[k]);
    threads, live := threads0, live0;
    if threads[k].Idle? && threads[k].j >= l.g.off[owner[k] + 1] {
      live := live - {k};
    } else {
      var t := Step(l, keys, counts, threads, k);
      threads := threads[k := t];
    }
  }

  /** The `cooccur` launch, under any interleaving. It always ends: every probe stops. */
  method Cooccur(l: Launch, owner: array<nat>, keys: array<nat>, counts: array<nat>)
    requires l.Valid() && keys != counts && keys.Length == l.cap == counts.Length
    requires owner != keys && owner != counts && Owners(l.g, owner[..])
    requires forall s :: 0 <= s < l.cap ==> keys[s] == EMPTY && counts[s] == 0
    modifies keys, counts
    ensures keys.Length == l.cap && Filled(l, keys[..], counts[..])
  {
    var threads := seq(|l.g.nodes|, k requires 0 <= k < |l.g.nodes| => Idle(k + 1));
    StartRunning(l, keys[..], counts[..], threads);
    var live := Below(|l.g.nodes|);
    while live != {}
      invariant Running(l, keys[..], counts[..], threads) && Exited(l.g, threads, live)
      decreases |OwedBelow(l.g, threads, |threads|)|, Stages(l.cap, threads), live
    {
      threads, live := Schedule(l, owner, keys, counts, threads, live);
    }
    FinishedFilled(l, keys[..], counts[..], threads);
  }

  // ---------------------------------------------------------------- sizing and decoding

  /** The sum of C(size, 2) over the first `c` commits. */
  ghost function PairTotal(off: seq<nat>, c: nat): nat
    requires c < |off| && forall i, j :: 0 <= i <= j < |off| ==> off[i] <= off[j]
  {
    if c == 0 then 0 else PairTotal(off, c - 1) + Choose2(off[c] - off[c - 1])
  }

  /** The number of pairs among `s` nodes: each node pairs with those before it. */
  ghost function Choose2(s: nat): nat {
    if s == 0 then 0 else Choose2(s - 1) + (s - 1)
  }

  /** The formula the host evaluates. */
  lemma {:induction false} Choose2Formula(s: nat)
    ensures Product(s) / 2 == Choose2(s)
  {
    if s > 0 {
      Choose2Formula(s - 1);
      assert Product(s) == Product(s - 1) + 2 * (s - 1);
    }
  }

  /** Position `k` adds a pair with each later position of commit `c`. */
  ghost predicate Rises(off: seq<nat>, sizes: seq<nat>, c: nat, k: nat) {
    c + 1 < |off| && k + 1 < |sizes| && sizes[k + 1] == sizes[k] + (off[c + 1] - (k + 1))
  }

  ghost predicate SizesRise(off: seq<nat>, sizes: seq<nat>) {
    forall c: nat, k: nat {:trigger Rises(off, sizes, c, k)} :: c + 1 < |off| && off[c] <= k < off[c + 1] ==>
        Rises(off, sizes, c, k)
  }

  /** The numbers of pairs of the positions before each position. */
  lemma SizesOf(g: Commits) returns (sizes: seq<nat>)
    requires g.Valid()
    ensures |sizes| == |g.nodes| + 1 && sizes[0] == 0 && sizes[|g.nodes|] == |AllPairs(g)|
    ensures SizesRise(g.off, sizes)
  {
    sizes := seq(|g.nodes| + 1, k requires 0 <= k <= |g.nodes| => |PairsBelow(g, k)|);
    assert PairsBelow(g, 0) == multiset{};
    forall c: nat, k: nat | c + 1 < |g.off| && g.off[c] <= k < g.off[c + 1]
      ensures Rises(g.off, sizes, c, k)
    {
      PositionSize(g, c, k);
    }
  }

  lemma PositionSize(g: Commits, c: nat, k: nat)
    requires g.Valid() && c + 1 < |g.off| && g.off[c] <= k < g.off[c + 1]
    ensures g.off[c + 1] <= |g.nodes|
    ensures |PairsBelow(g, k + 1)| == |PairsBelow(g, k)| + (g.off[c + 1] - (k + 1))
  {
    assert g.off[c + 1] <= g.off[|g.off| - 1];
    PairsNext(g, c, k);
    PartMember(g.nodes, k, k + 1, g.off[c + 1], (0, 0));
  }

  lemma Choose2Step(s: nat, r: nat)
    requires s == r + 1
    ensures Choose2(s) == Choose2(r) + r
  {
    assert s - 1 == r;
  }

  /** After `i` positions of a commit, the pairs among the rest are still to come. */
  lemma {:induction false} CommitRest(off: seq<nat>, sizes: seq<nat>, c: nat, i: nat)
    requires SizesRise(off, sizes) && c + 1 < |off| && off[c] + i <= off[c + 1] < |sizes|
    ensures sizes[off[c] + i] + Choose2(off[c + 1] - off[c] - i) == sizes[off[c]] + Choose2(off[c + 1] - off[c])
  {
    if i > 0 {
      var size := off[c + 1] - off[c];
      CommitRest(off, sizes, c, i - 1);
      assert Rises(off, sizes, c, off[c] + (i - 1));
      Choose2Step(size - (i - 1), size - i);
    }
  }

  /** The counts sum to C(size, 2) over the commits. */
  lemma {:induction false} PairsTotal(off: seq<nat>, sizes: seq<nat>, c: nat)
    requires SizesRise(off, sizes) && c < |off| && off[0] == 0 && |sizes| > 0 && sizes[0] == 0
    requires forall i, j :: 0 <= i <= j < |off| ==> off[i] <= off[j]
    requires off[|off| - 1] < |sizes|
    ensures off[c] < |sizes| && sizes[off[c]] == PairTotal(off, c)
  {
    if c > 0 {
      PairsTotal(off, sizes, c - 1);
      assert off[c] <= off[|off| - 1];
      CommitRest(off, sizes, c - 1, off[c] - off[c - 1]);
      assert Choose2(0) == 0;
    }
  }

  /** The number of counted pairs is the sum of C(size, 2) over all commits. */
  lemma AllPairsTotal(g: Commits)
    requires g.Valid()
    ensures |AllPairs(g)| == PairTotal(g.off, |g.off| - 1)
  {
    var sizes := SizesOf(g);
    PairsTotal(g.off, sizes, |g.off| - 1);
  }

  lemma {:induction false} PartOnce(g: Commits, c: nat, k: nat, hi: nat, p: Pair)
    requires g.Valid() && c < |g.off| - 1 && g.off[c] <= k < hi <= g.off[c + 1] <= |g.nodes|
    ensures Part(g.nodes, k, k + 1, hi)[p] <= 1
  {
    if hi > k + 1 {
      assert g.AscendsIn(c);
      PartOnce(g, c, k, hi - 1, p);
      PartMember(g.nodes, k, k + 1, hi - 1, p);
    }
  }

  ghost predicate SlowAt(f: nat -> nat, i: nat) {
    f(i + 1) <= f(i) + 1
  }

  lemma {:induction false} RisesSlowly(f: nat -> nat, k: nat)
    requires f(0) == 0 && forall i: nat :: i < k ==> SlowAt(f, i)
    ensures f(k) <= k
  {
    if k > 0 {
      RisesSlowly(f, k - 1);
      assert SlowAt(f, k - 1);
    }
  }

  /** No pair is counted more often than there are positions, so 32-bit counts do not wrap. */
  lemma CountsFit(g: Commits, k: nat, p: Pair)
    requires g.Valid() && k <= |g.nodes|
    ensures PairsBelow(g, k)[p] <= k
  {
    CountsSlow(g, p, k);
    RisesSlowly(Counts(g, p), k);
    CountsAt(g, p, k);
  }

  lemma CountsSlow(g: Commits, p: Pair, k: nat)
    requires g.Valid() && k <= |g.nodes|
    ensures Counts(g, p)(0) == 0 && forall i: nat :: i < k ==> SlowAt(Counts(g, p), i)
  {
    CountsAt(g, p, 0);
    forall i: nat | i < k
      ensures SlowAt(Counts(g, p), i)
    {
      CountSlow(g, p, i);
    }
  }

  lemma CountSlow(g: Commits, p: Pair, i: nat)
    requires g.Valid() && i < |g.nodes|
    ensures SlowAt(Counts(g, p), i)
  {
    PairsAtOnce(g, i, p);
    CountStep(g, p, i, i + 1);
  }

  lemma PairsAtOnce(g: Commits, k: nat, p: Pair)
    requires g.Valid() && k < |g.nodes|
    ensures PairsAt(g, k)[p] <= 1
  {
    var c := CommitOf(g, k);
    PartOnce(g, c, k, End(g, k), p);
  }

  /** No 64-bit step of the sum overflows. */
  ghost predicate SumsFit(off: seq<nat>, c: nat)
    requires c < |off| && forall i, j :: 0 <= i <= j < |off| ==> off[i] <= off[j]
  {
    c == 0 || (SumsFit(off, c - 1) && Product(off[c] - off[c - 1]) < U64 && PairTotal(off, c) < U64)
  }

  function Product(s: nat): nat {
    s * (if s == 0 then 0 else s - 1)
  }

  /** One checked multiplication and addition. */
  method AddPairs(sum: nat, s: nat) returns (next: Option<nat>)
    ensures next == if Product(s) < U64 && sum + Choose2(s) < U64 then Some(sum + Choose2(s)) else None
  {
    Choose2Formula(s);
    if Product(s) >= U64 || sum + Product(s) / 2 >= U64 {
      next := None;
    } else {
      next := Some(sum + Product(s) / 2);
    }
  }

  method AddCommit(g: Commits, c: nat, sum: nat) returns (next: Option<nat>)
    requires g.Valid() && c + 1 < |g.off| && sum == PairTotal(g.off, c) && SumsFit(g.off, c)
    ensures next.Some? <==> SumsFit(g.off, c + 1)
    ensures next.Some? ==> next.value == PairTotal(g.off, c + 1)
  {
    next := AddPairs(sum, g.off[c + 1] - g.off[c]);
  }

  /** The sum of C(size, 2), or nothing when a 64-bit step would overflow. */
  method CountPairs(g: Commits) returns (total: Option<nat>)
    requires g.Valid()
    ensures total.Some? <==> SumsFit(g.off, |g.off| - 1)
    ensures total.Some? ==> total.value == |AllPairs(g)|
  {
    var sum := 0;
    for c := 0 to |g.off| - 1
      invariant sum == PairTotal(g.off, c) && SumsFit(g.off, c)
    {
      var next := AddCommit(g, c, sum);
      if next.None? {
        SumsFail(g, c + 1, |g.off| - 1);
        return None;
      }
      sum := next.value;
    }
    AllPairsTotal(g);
    total := Some(sum);
  }

  lemma {:induction false} SumsFail(g: Commits, c: nat, d: nat)
    requires g.Valid() && c <= d < |g.off| && !SumsFit(g.off, c)
    ensures !SumsFit(g.off, d)
  {
    if c < d {
      SumsFail(g, c, d - 1);
    }
  }

  /** The table's size: the next power of two from twice the pairs, at least 1024. */
  function Capacity(total: nat): nat {
    var c := GrowTo(1, 2 * total);
    if c > 1024 then c else 1024
  }

  /** The capacity is the smallest power of two that is at least 1024 and twice the pairs. */
  lemma CapacityLeast(total: nat)
    ensures IsPower(Capacity(total)) && Capacity(total) >= 1024 && Capacity(total) >= 2 * total
    ensures forall q: nat :: IsPower(q) && q >= 1024 && q >= 2 * total ==> Capacity(total) <= q
  {
    assert Pow2(0) == 1 && Pow2(2) == 4 && Pow2(4) == 16 && Pow2(6) == 64 && Pow2(8) == 256 && Pow2(10) == 1024;
    GrowToLeast(1, 2 * total);
  }

  /** With that capacity the source's masks are the probed slots: the first is the hash masked, each
      further one its predecessor plus one, masked. */
  lemma MaskedSlot(l: Launch, p: Pair, d: nat)
    requires IsPower(l.cap) && l.cap > 0
    ensures And(l.mix(Key(p)), l.cap - 1) == l.Slot(p, 0)
    ensures And(l.Slot(p, d) + 1, l.cap - 1) == l.Slot(p, d + 1)
  {
    var k: nat :| l.cap == Pow2(k);
    MaskIsRemainder(l.mix(Key(p)), k);
    MaskIsRemainder(l.Slot(p, d) + 1, k);
    RemainderNext(l.mix(Key(p)) + d, l.cap);
  }

  /** The sizes the host refuses: an overflow, a table over budget, too many positions. */
  ghost predicate Refused(g: Commits, maxSlots: nat)
    requires g.Valid()
  {
    var total := |AllPairs(g)|;
    || !SumsFit(g.off, |g.off| - 1)
    || (total > 0 && (GrowTo(1, 2 * total) >= U64 || Capacity(total) > maxSlots || |g.nodes| >= U32))
  }

  /** The slots as triples, in slot order. */
  method DecodeTable(l: Launch, keys: array<nat>, counts: array<nat>) returns (out: seq<(Pair, nat)>)
    requires l.Valid() && keys.Length == l.cap == counts.Length && Filled(l, keys[..], counts[..])
    ensures Tallies(out, AllPairs(l.g))
  {
    out := [];
    ghost var slots: seq<nat> := [];
    for s := 0 to l.cap
      invariant Decoded(keys[..], counts[..], s, out, slots)
    {
      if keys[s] != EMPTY {
        out := out + [(Decode(keys[s]), counts[s])];
        slots := slots + [s];
      }
    }
    TableTallies(l, keys[..], counts[..], out, slots);
  }

  /** The occupied slots below `s`, and their entries. */
  ghost predicate Decoded(keys: seq<nat>, counts: seq<nat>, s: nat, out: seq<(Pair, nat)>, slots: seq<nat>) {
    && s <= |keys| == |counts| && |slots| == |out|
    && (forall i :: 0 <= i < |out| ==> slots[i] < s && Listed(keys, counts, slots[i], out[i]))
    && (forall i, j :: 0 <= i < j < |out| ==> slots[i] < slots[j])
    && (forall t :: 0 <= t < s && keys[t] != EMPTY ==> t in slots)
  }

  ghost predicate Listed(keys: seq<nat>, counts: seq<nat>, s: nat, entry: (Pair, nat)) {
    s < |keys| == |counts| && keys[s] != EMPTY && entry == (Decode(keys[s]), counts[s])
  }

  /** Each counted pair is listed exactly once, with its count. */
  ghost predicate Tallies(out: seq<(Pair, nat)>, pairs: multiset<Pair>) {
    && (forall i, j :: 0 <= i < j < |out| ==> out[i].0 != out[j].0)
    && (forall i :: 0 <= i < |out| ==> out[i].0 in pairs && out[i].1 == pairs[out[i].0])
    && (forall p :: p in pairs ==> exists i :: 0 <= i < |out| && out[i].0 == p)
  }

  /** Each listed entry is a stored pair with its count, and no pair is listed twice. */
  lemma ListedOnce(l: Launch, keys: seq<nat>, counts: seq<nat>, out: seq<(Pair, nat)>, slots: seq<nat>)
    requires l.Valid() && Filled(l, keys, counts) && |slots| == |out|
    requires forall i :: 0 <= i < |out| ==> Listed(keys, counts, slots[i], out[i])
    requires forall i, j :: 0 <= i < j < |out| ==> slots[i] < slots[j]
    ensures forall i :: 0 <= i < |out| ==> out[i].0 in AllPairs(l.g) && out[i].1 == AllPairs(l.g)[out[i].0]
    ensures forall i, j :: 0 <= i < j < |out| ==> out[i].0 != out[j].0
  {
    forall i | 0 <= i < |out|
      ensures Holds(l, keys, slots[i], out[i].0)
    {
      assert Holds(l, keys, slots[i], Decode(keys[slots[i]]));
    }
    forall i, j | 0 <= i < j < |out|
      ensures out[i].0 != out[j].0
    {
      assert Holds(l, keys, slots[i], out[i].0) && Holds(l, keys, slots[j], out[j].0);
    }
  }

  /** Every counted pair is listed. */
  lemma AllListed(l: Launch, keys: seq<nat>, counts: seq<nat>, out: seq<(Pair, nat)>, slots: seq<nat>, p: Pair)
    requires l.Valid() && Filled(l, keys, counts) && |slots| == |out| && p in AllPairs(l.g)
    requires forall i :: 0 <= i < |out| ==> Listed(keys, counts, slots[i], out[i])
    requires forall t :: 0 <= t < l.cap && keys[t] != EMPTY ==> t in slots
    ensures exists i :: 0 <= i < |out| && out[i].0 == p
  {
    assert Stored(keys, p);
    var s: nat :| s < |keys| && keys[s] == Key(p);
    PairsOrdered(l.g, |l.g.nodes|, p);
    KeyDecodes(p);
    var i :| 0 <= i < |slots| && slots[i] == s;
    assert Listed(keys, counts, slots[i], out[i]);
    assert out[i].0 == p;
  }

  lemma TableTallies(l: Launch, keys: seq<nat>, counts: seq<nat>, out: seq<(Pair, nat)>, slots: seq<nat>)
    requires l.Valid() && Filled(l, keys, counts) && |slots| == |out|
    requires forall i :: 0 <= i < |out| ==> Listed(keys, counts, slots[i], out[i])
    requires forall i, j :: 0 <= i < j < |out| ==> slots[i] < slots[j]
    requires forall t :: 0 <= t < l.cap && keys[t] != EMPTY ==> t in slots
    ensures Tallies(out, AllPairs(l.g))
  {
    ListedOnce(l, keys, counts, out, slots);
    forall p | p in AllPairs(l.g)
      ensures exists i :: 0 <= i < |out| && out[i].0 == p
    {
      AllListed(l, keys, counts, out, slots, p);
    }
  }

  /** Size the table, run the launch, read the triples back: each pair of the nested loops once,
      with its exact count, which fits 32 bits. `None` exactly when a size is refused. */
  method CooccurrenceGpu(g: Commits, maxSlots: nat, mix: nat -> nat) returns (out: Option<seq<(Pair, nat)>>)
    requires g.nodes == [] || g.Valid()
    ensures g.nodes == [] ==> out == Some([])
    ensures g.nodes != [] ==> (out.None? <==> Refused(g, maxSlots))
    ensures g.nodes != [] && out.Some? ==> Tallies(out.value, AllPairs(g))
    ensures out.Some? ==> forall i :: 0 <= i < |out.value| ==> out.value[i].1 < U32
  {
    if g.nodes == [] {
      return Some([]);
    }
    var total := CountPairs(g);
    if total.None? {
      return None;
    }
    if total.value == 0 {
      return Some([]);
    }
    if GrowTo(1, 2 * total.value) >= U64 || Capacity(total.value) > maxSlots || |g.nodes| >= U32 {
      return None;
    }
    var triples := RunTable(Launch(g, mix, Capacity(total.value)));
    TalliesFit(g, triples);
    out := Some(triples);
  }

  lemma TalliesFit(g: Commits, out: seq<(Pair, nat)>)
    requires g.Valid() && |g.nodes| < U32 && Tallies(out, AllPairs(g))
    ensures forall i :: 0 <= i < |out| ==> out[i].1 < U32
  {
    forall i | 0 <= i < |out|
      ensures out[i].1 < U32
    {
      CountsFit(g, |g.nodes|, out[i].0);
    }
  }

  method RunTable(l: Launch) returns (out: seq<(Pair, nat)>)
    requires l.Valid()
    ensures Tallies(out, AllPairs(l.g))
  {
    var owner := OwnerArray(l.g);
    var keys := new nat[l.cap](_ => EMPTY);
    var counts := new nat[l.cap](_ => 0);
    Cooccur(l, owner, keys, counts);
    out := DecodeTable(l, keys, counts);
  }

  /** The table and the nested loops agree. */
  lemma TableMatchesLoops(g: Commits, out: seq<(Pair, nat)>, m: map<Pair, nat>)
    requires g.Valid() && Tallies(out, AllPairs(g)) && CountsOf(m, AllPairs(g))
    ensures forall p :: p in m <==> exists i :: 0 <= i < |out| && out[i].0 == p
    ensures forall i :: 0 <= i < |out| ==> out[i].0 in m && m[out[i].0] == out[i].1
    ensures |out| == |m|
  {
    var firsts := Firsts(out);
    assert Distinct(firsts);
    forall p
      ensures p in m <==> p in firsts
    {
      InFirsts(out, p);
    }
    DistinctCard(firsts);
    assert Members(firsts) == m.Keys;
  }

  /** The pairs of the triples. */
  ghost function Firsts(out: seq<(Pair, nat)>): (firsts: seq<Pair>)
    ensures |firsts| == |out| && forall i :: 0 <= i < |out| ==> firsts[i] == out[i].0
  {
    seq(|out|, i requires 0 <= i < |out| => out[i].0)
  }

  lemma InFirsts(out: seq<(Pair, nat)>, p: Pair)
    ensures p in Firsts(out) <==> exists i :: 0 <= i < |out| && out[i].0 == p
  {
    if i :| 0 <= i < |out| && out[i].0 == p {
      assert Firsts(out)[i] == p;
    }
  }
}
