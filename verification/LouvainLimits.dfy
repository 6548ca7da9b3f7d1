/** Concrete runs, from single nodes and in the order of a concrete seed, in which an accepted move
    lowers modularity and raises the node's label, or the phase raises modularity and lowers the
    reported score. */
module LouvainLimits {
  import opened Communities
  import opened Division
  import opened LocalMoves
  import opened Modularity
  import opened Shuffle
  import opened Sums

  /** Node 1 joined to node 0 by weight `a` and to node 2 by weight `b`. */
  function Path(a: real, b: real): (adj: Adj) {
    [[(1, a)], [(0, a), (2, b)], [(1, b)]]
  }

  /** The generator's first two states from seed 1. */
  const FIRST: nat := 12728272447693586011
  const SECOND: nat := 2959187598757911296

  lemma States()
    ensures NextState(2) == FIRST && NextState(FIRST) == SECOND
  {
    DivisionUnique(2 * MULTIPLIER + 1, WORD, 0, FIRST);
    DivisionUnique(FIRST * MULTIPLIER + 1, WORD, 4391260562171838485, SECOND);
  }

  lemma Picks()
    ensures Pick(FIRST, 2) == 2 && Pick(SECOND, 1) == 0
  {
    DivisionUnique(FIRST, 0x2_0000_0000, 1481765933, 2569731675);
    DivisionUnique(1481765933, 3, 493921977, 2);
    DivisionUnique(SECOND, 0x2_0000_0000, 344494776, 5632219904);
    DivisionUnique(344494776, 2, 172247388, 0);
  }

  /** Two swaps on three numbers. */
  lemma TwoSwaps(state: nat, first: nat, second: nat)
    requires NextState(state) == first && NextState(first) == second && Pick(first, 2) == 2 && Pick(second, 1) == 0
    ensures Swaps([0, 1, 2], 2, state) == [1, 0, 2]
  {
    assert Swapped([0, 1, 2], 2, 2) == [0, 1, 2];
    assert Swapped([0, 1, 2], 1, 0) == [1, 0, 2];
    assert Swaps([0, 1, 2], 1, first) == Swaps([1, 0, 2], 0, second);
  }

  /** With this seed the phase visits node 1 first. */
  lemma FirstVisits()
    ensures Shuffled(Identity(3), 1) == [1, 0, 2]
  {
    States();
    Picks();
    TwoSwaps(2, FIRST, SECOND);
    Identity3();
    SeedOne([0, 1, 2]);
  }

  lemma Identity3()
    ensures Identity(3) == [0, 1, 2]
  {
  }

  lemma SeedOne(s: seq<nat>)
    requires |s| == 3
    ensures Shuffled(s, 1) == Swaps(s, 2, 2)
  {
  }

  // ---------------------------------------------------------------- sums on three nodes

  lemma One(e: (nat, real), k: nat)
    ensures RowWeight([e], k) == if e.0 == k then e.1 else 0.0
    ensures RowTotal([e]) == e.1
  {
    assert [e][..0] == [];
  }

  lemma Two(d: (nat, real), e: (nat, real), k: nat)
    ensures RowWeight([d, e], k) == (if d.0 == k then d.1 else 0.0) + if e.0 == k then e.1 else 0.0
    ensures RowTotal([d, e]) == d.1 + e.1
  {
    One(d, k);
    assert [d, e][..1] == [d];
  }

  lemma SumThree(f: nat -> real)
    ensures Sum(3, f) == f(0) + f(1) + f(2)
  {
    assert Sum(3, f) == Sum(2, f) + f(2) == Sum(1, f) + f(1) + f(2);
  }

  function WeightAt(a: real, b: real, i: nat, j: nat): real {
    if i + j == 1 then a else if i + j == 3 then b else 0.0
  }

  function DegreeAt(a: real, b: real, i: nat): real {
    if i == 0 then a else if i == 1 then a + b else b
  }

  lemma PathWeights(a: real, b: real, i: nat, j: nat)
    requires i < 3 && j < 3
    ensures Weights(Path(a, b))(i, j) == WeightAt(a, b, i, j)
    ensures Degree(Path(a, b), i) == DegreeAt(a, b, i)
  {
    var row := Path(a, b)[i];
    if i == 1 {
      Two(row[0], row[1], j);
      assert row == [row[0], row[1]];
    } else {
      One(row[0], j);
      assert row == [row[0]];
    }
  }

  lemma PathValid(a: real, b: real)
    ensures ValidAdj(Path(a, b)) && TotalWeight(Path(a, b)) == a + b
  {
    var s := Path(a, b);
    forall i: nat, j: nat | i < 3 && j < 3
      ensures Weights(s)(i, j) == Weights(s)(j, i) && Degree(s, i) == DegreeAt(a, b, i)
    {
      PathWeights(a, b, i, j);
      PathWeights(a, b, j, i);
    }
    PathWeights(a, b, 0, 0);
    PathWeights(a, b, 1, 0);
    PathWeights(a, b, 2, 0);
    SumThree((i: nat) => Degree(s, i));
  }

  /** The tie of node `x` to label `k`. */
  function Tie(a: real, b: real, c: seq<nat>, x: nat, k: nat): real
    requires |c| == 3
  {
    (if c[0] == k then WeightAt(a, b, x, 0) else 0.0) + (if c[1] == k then WeightAt(a, b, x, 1) else 0.0)
    + if c[2] == k then WeightAt(a, b, x, 2) else 0.0
  }

  /** The total degree of label `k`. */
  function Held(a: real, b: real, c: seq<nat>, k: nat): real
    requires |c| == 3
  {
    (if c[0] == k then a else 0.0) + (if c[1] == k then a + b else 0.0) + if c[2] == k then b else 0.0
  }

  lemma PathTie(a: real, b: real, c: seq<nat>, x: nat, k: nat)
    requires |c| == 3 && x < 3
    ensures ToCommunity(Weights(Path(a, b)), c, x, k) == Tie(a, b, c, x, k)
  {
    var f := Labelled(c, Weights(Path(a, b)), x, k);
    SumThree(f);
    forall j: nat | j < 3
      ensures f(j) == if c[j] == k then WeightAt(a, b, x, j) else 0.0
    {
      LabelledAt(c, Weights(Path(a, b)), x, k, j);
      PathWeights(a, b, x, j);
    }
  }

  lemma PathHeld(a: real, b: real, c: seq<nat>, k: nat)
    requires |c| == 3
    ensures Sigma(Path(a, b), c, k) == Held(a, b, c, k)
  {
    PathWeights(a, b, 0, 0);
    PathWeights(a, b, 1, 0);
    PathWeights(a, b, 2, 0);
    SumThree((i: nat) => if i < |c| && c[i] == k then Degree(Path(a, b), i) else 0.0);
  }

  /** Gains on the path, in numbers. */
  lemma PathGain(a: real, b: real, c: seq<nat>, gamma: real, x: nat, t: nat)
    requires |c| == 3 && x < 3 && a + b != 0.0 && TotalWeight(Path(a, b)) == a + b
    ensures MoveGain(Path(a, b), c, gamma, x, t) ==
            Gain(Tie(a, b, c, x, t), Tie(a, b, c, x, c[x]), Held(a, b, c, t), Held(a, b, c, c[x]),
                 DegreeAt(a, b, x), a + b, gamma)
  {
    PathTie(a, b, c, x, t);
    PathTie(a, b, c, x, c[x]);
    PathHeld(a, b, c, t);
    PathHeld(a, b, c, c[x]);
    PathWeights(a, b, x, 0);
  }

  // ---------------------------------------------------------------- short runs

  lemma OneVisit(adj: Adj, gamma: real, x: nat, c: seq<nat>, next: seq<nat>)
    requires TotalWeight(adj) != 0.0 && |c| == |adj| && x < |adj|
    requires Visited(adj, gamma, x, c, next) && Restless(adj, c, gamma, x)
    ensures PassOf(adj, gamma, [x], c, next, true)
  {
    assert [x][..0] == [] && [x][..1] == [x];
    assert PassOf(adj, gamma, [x][..0], c, c, false);
    PassGrows(adj, gamma, [x], 0, c, c, false, next);
  }

  /** A visit that moves, one that does not, and one that moves. */
  lemma ThreeVisits(adj: Adj, gamma: real, order: seq<nat>, c: seq<nat>, d: seq<nat>, e: seq<nat>)
    requires TotalWeight(adj) != 0.0 && |c| == |d| == |e| == |adj|
    requires |order| == 3 && forall k :: 0 <= k < 3 ==> order[k] < |adj|
    requires Visited(adj, gamma, order[0], c, d) && Restless(adj, c, gamma, order[0])
    requires !Restless(adj, d, gamma, order[1]) && Visited(adj, gamma, order[2], d, e)
    ensures PassOf(adj, gamma, order, c, e, true)
  {
    assert PassOf(adj, gamma, order[..0], c, c, false);
    PassGrows(adj, gamma, order, 0, c, c, false, d);
    PassGrows(adj, gamma, order, 1, c, d, true, d);
    PassGrows(adj, gamma, order, 2, c, d, true, e);
    assert order[..3] == order;
  }

  /** One pass after which every node is settled. */
  lemma OnePass(adj: Adj, gamma: real, order: seq<nat>, c: seq<nat>, next: seq<nat>)
    requires TotalWeight(adj) != 0.0 && |c| == |next| == |adj| == |order|
    requires forall k :: 0 <= k < |order| ==> order[k] < |adj|
    requires PassOf(adj, gamma, order, c, next, true) && Settled(adj, next, gamma)
    ensures PhaseOf(adj, gamma, order, c, next, true)
  {
    var trace: seq<seq<nat>> := [c, next];
    assert MovesAt(adj, gamma, order, trace, 0);
    PhaseEnds(adj, gamma, order, c, next, trace);
  }

  /** What a move of a node without a self-loop changes. */
  lemma Changes(adj: Adj, c: seq<nat>, gamma: real, x: nat, t: nat, next: seq<nat>, gain: real)
    requires ValidAdj(adj) && TotalWeight(adj) != 0.0 && x < |c| == |adj| && c[x] != t && next == c[x := t]
    requires MoveGain(adj, c, gamma, x, t) == gain && Weights(adj)(x, x) == 0.0
    ensures Quality(adj, next, gamma) == Quality(adj, c, gamma) + gain
  {
    MoveChange(adj, c, gamma, x, t);
  }

  lemma ReportedChanges(adj: Adj, c: seq<nat>, gamma: real, x: nat, t: nat, next: seq<nat>, gain: real, tie: real)
    requires ValidAdj(adj) && TotalWeight(adj) == 2.0 && x < |c| == |adj| && c[x] != t && next == c[x := t]
    requires MoveGain(adj, c, gamma, x, t) == gain && Weights(adj)(x, x) == 0.0
    requires ToCommunity(Weights(adj), c, x, t) == tie && ToCommunity(Weights(adj), c, x, c[x]) == 0.0
    ensures Reported(adj, next, gamma) == Reported(adj, c, gamma) + gain - tie / 4.0
  {
    ReportedChange(adj, c, gamma, x, t);
  }

  // ---------------------------------------------------------------- a move that loses

  const GAMMA: real := 2.0 + 2.0 * EPSILON

  lemma LosingGains()
    requires TotalWeight(Path(2.0, 1.0)) == 3.0
    ensures MoveGain(Path(2.0, 1.0), Identity(3), GAMMA, 1, 0) == -2.0 * EPSILON / 3.0
    ensures MoveGain(Path(2.0, 1.0), Identity(3), GAMMA, 1, 2) == -EPSILON / 3.0
  {
    PathGain(2.0, 1.0, Identity(3), GAMMA, 1, 0);
    PathGain(2.0, 1.0, Identity(3), GAMMA, 1, 2);
  }

  lemma LosingCandidates()
    ensures Candidates(Path(2.0, 1.0), Identity(3), 1) == {0, 2}
  {
    var s: Adj, c := Path(2.0, 1.0), Identity(3);
    assert c[s[1][0].0] == 0 && c[s[1][1].0] == 2;
  }

  lemma LosingTarget()
    requires TotalWeight(Path(2.0, 1.0)) == 3.0
    ensures Restless(Path(2.0, 1.0), Identity(3), GAMMA, 1) && Target(Path(2.0, 1.0), Identity(3), GAMMA, 1, 2)
  {
    LosingGains();
    LosingCandidates();
    var s: Adj, c := Path(2.0, 1.0), Identity(3);
    var g := Gains(s, c, GAMMA, 1);
    assert g(0) == -2.0 * EPSILON / 3.0 && g(2) == -EPSILON / 3.0;
    assert Attracts(Candidates(s, c, 1), g, 1, 0);
  }

  lemma LosingVisit()
    requires TotalWeight(Path(2.0, 1.0)) == 3.0
    ensures PassOf(Path(2.0, 1.0), GAMMA, [1], Identity(3), Identity(3)[1 := 2], true)
  {
    LosingTarget();
    OneVisit(Path(2.0, 1.0), GAMMA, 1, Identity(3), Identity(3)[1 := 2]);
  }

  lemma LosingLoss()
    requires ValidAdj(Path(2.0, 1.0)) && TotalWeight(Path(2.0, 1.0)) == 3.0
    ensures Quality(Path(2.0, 1.0), Identity(3)[1 := 2], GAMMA) ==
            Quality(Path(2.0, 1.0), Identity(3), GAMMA) - EPSILON / 3.0
  {
    LosingGains();
    PathWeights(2.0, 1.0, 1, 1);
    Changes(Path(2.0, 1.0), Identity(3), GAMMA, 1, 2, Identity(3)[1 := 2], -EPSILON / 3.0);
  }

  /** From single nodes, with seed 1, the first visit moves node 1 up from community 1 to community
      2, and modularity falls, by a third of 2 to the power -52. */
  lemma LosingMoveRaisesLabel()
    ensures ValidAdj(Path(2.0, 1.0)) && TotalWeight(Path(2.0, 1.0)) != 0.0
    ensures Shuffled(Identity(3), 1) == [1, 0, 2]
    ensures PassOf(Path(2.0, 1.0), GAMMA, [1], Identity(3), Identity(3)[1 := 2], true) && Identity(3)[1] < 2
    ensures Quality(Path(2.0, 1.0), Identity(3)[1 := 2], GAMMA) ==
            Quality(Path(2.0, 1.0), Identity(3), GAMMA) - 1.0 / 13510798882111488.0
  {
    FirstVisits();
    PathValid(2.0, 1.0);
    LosingVisit();
    LosingLoss();
  }

  // ---------------------------------------------------------------- the reported score

  /** Two edges of weight one. */
  function Even(): (adj: Adj) {
    Path(1.0, 1.0)
  }

  lemma FirstVisit()
    requires TotalWeight(Even()) == 2.0
    ensures Restless(Even(), [0, 1, 2], 1.0, 1) && Visited(Even(), 1.0, 1, [0, 1, 2], [0, 0, 2])
    ensures MoveGain(Even(), [0, 1, 2], 1.0, 1, 0) == 0.25
  {
    var s: Adj, c: seq<nat> := Even(), [0, 1, 2];
    PathGain(1.0, 1.0, c, 1.0, 1, 0);
    PathGain(1.0, 1.0, c, 1.0, 1, 2);
    var g := Gains(s, c, 1.0, 1);
    assert g(0) == 0.25 && g(2) == 0.25;
    assert c[s[1][0].0] == 0 && c[s[1][1].0] == 2;
    assert Candidates(s, c, 1) == {0, 2};
    assert Attracts(Candidates(s, c, 1), g, 1, 0);
    assert Target(s, c, 1.0, 1, 0) && c[1 := 0] == [0, 0, 2];
  }

  /** A node whose neighbours share its community stays. */
  lemma Content(c: seq<nat>, x: nat)
    requires TotalWeight(Even()) == 2.0 && |c| == 3 && x < 3
    requires x == 1 || c[1] == c[x]
    requires x == 1 ==> c[0] == c[1] == c[2]
    ensures !Restless(Even(), c, 1.0, x)
  {
    Alone(Even(), c, 1.0, x);
  }

  lemma Alone(adj: Adj, c: seq<nat>, gamma: real, x: nat)
    requires TotalWeight(adj) != 0.0 && x < |c| == |adj|
    requires forall e: nat :: e < |adj[x]| && adj[x][e].0 < |c| ==> c[adj[x][e].0] == c[x]
    ensures !Restless(adj, c, gamma, x)
  {
    assert Candidates(adj, c, x) == {};
  }

  lemma AllSettled()
    requires TotalWeight(Even()) == 2.0
    ensures Settled(Even(), [0, 0, 0], 1.0)
  {
    forall x: nat | x < 3
      ensures !Restless(Even(), [0, 0, 0], 1.0, x)
    {
      Content([0, 0, 0], x);
    }
  }

  lemma LastVisit()
    requires TotalWeight(Even()) == 2.0
    ensures Restless(Even(), [0, 0, 2], 1.0, 2) && Visited(Even(), 1.0, 2, [0, 0, 2], [0, 0, 0])
    ensures MoveGain(Even(), [0, 0, 2], 1.0, 2, 0) == 0.125
  {
    var s: Adj, c: seq<nat> := Even(), [0, 0, 2];
    PathGain(1.0, 1.0, c, 1.0, 2, 0);
    var g := Gains(s, c, 1.0, 2);
    assert g(0) == 0.125;
    assert c[s[2][0].0] == 0;
    assert Candidates(s, c, 2) == {0};
    assert Attracts(Candidates(s, c, 2), g, 2, 0);
    assert Target(s, c, 1.0, 2, 0) && c[2 := 0] == [0, 0, 0];
  }

  /** The first pass joins all three nodes. */
  lemma EvenPass()
    requires TotalWeight(Even()) == 2.0
    ensures PassOf(Even(), 1.0, [1, 0, 2], [0, 1, 2], [0, 0, 0], true)
  {
    FirstVisit();
    LastVisit();
    Content([0, 0, 2], 0);
    ThreeVisits(Even(), 1.0, [1, 0, 2], [0, 1, 2], [0, 0, 2], [0, 0, 0]);
  }

  /** The phase ends after it: no node has another community to move to. */
  lemma EvenPhase()
    requires TotalWeight(Even()) == 2.0
    ensures PhaseOf(Even(), 1.0, [1, 0, 2], [0, 1, 2], [0, 0, 0], true)
  {
    EvenPass();
    AllSettled();
    OnePass(Even(), 1.0, [1, 0, 2], [0, 1, 2], [0, 0, 0]);
  }

  lemma EvenChanges()
    requires ValidAdj(Even()) && TotalWeight(Even()) == 2.0
    ensures Quality(Even(), [0, 0, 2], 1.0) == Quality(Even(), [0, 1, 2], 1.0) + 0.25
    ensures Reported(Even(), [0, 0, 2], 1.0) == Reported(Even(), [0, 1, 2], 1.0)
  {
    FirstVisit();
    var c: seq<nat> := [0, 1, 2];
    assert c[1 := 0] == [0, 0, 2];
    PathTie(1.0, 1.0, c, 1, 0);
    PathTie(1.0, 1.0, c, 1, 1);
    PathWeights(1.0, 1.0, 1, 1);
    Changes(Even(), c, 1.0, 1, 0, [0, 0, 2], 0.25);
    ReportedChanges(Even(), c, 1.0, 1, 0, [0, 0, 2], 0.25, 1.0);
  }

  lemma EvenFalls()
    requires ValidAdj(Even()) && TotalWeight(Even()) == 2.0
    ensures Quality(Even(), [0, 0, 0], 1.0) == Quality(Even(), [0, 0, 2], 1.0) + 0.125
    ensures Reported(Even(), [0, 0, 0], 1.0) == Reported(Even(), [0, 0, 2], 1.0) - 0.125
  {
    LastVisit();
    var c: seq<nat> := [0, 0, 2];
    assert c[2 := 0] == [0, 0, 0];
    PathTie(1.0, 1.0, c, 2, 0);
    PathTie(1.0, 1.0, c, 2, 2);
    PathWeights(1.0, 1.0, 2, 2);
    Changes(Even(), c, 1.0, 2, 0, [0, 0, 0], 0.125);
    ReportedChanges(Even(), c, 1.0, 2, 0, [0, 0, 0], 0.125, 1.0);
  }

  /** At resolution one and with seed 1 the phase joins all three nodes: modularity rises by three
      eighths and the reported score falls by an eighth. */
  lemma ReportedMayFall()
    ensures ValidAdj(Even()) && TotalWeight(Even()) != 0.0
    ensures PhaseOf(Even(), 1.0, Shuffled(Identity(3), 1), Identity(3), [0, 0, 0], true)
    ensures Quality(Even(), [0, 0, 0], 1.0) == Quality(Even(), Identity(3), 1.0) + 0.375
    ensures Reported(Even(), [0, 0, 0], 1.0) == Reported(Even(), Identity(3), 1.0) - 0.125
  {
    PathValid(1.0, 1.0);
    FirstVisits();
    Identity3();
    EvenPhase();
    EvenChanges();
    EvenFalls();
  }
}
