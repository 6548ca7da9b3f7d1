/** Graphs whose dominator tree is one level deep although their nodes lie arbitrarily far from the
    root: the sweeps follow the distance, not the tree. */
module SweepLimits {
  import opened Dominance
  import GpuDominators
  import opened Graphs

  /** Two nodes to a layer, the root alone in layer 0. */
  function Layer(v: nat): nat {
    (v + 1) / 2
  }

  /** A ladder: every node leads to both nodes of the next layer. */
  ghost function Ladder(m: nat): (E: Edges)
    ensures Bounded(E, 2 * m + 1)
    ensures forall u: nat, v: nat :: (u, v) in E <==> u <= 2 * m && v <= 2 * m && Layer(v) == Layer(u) + 1
  {
    set u, v | u in Below(2 * m + 1) && v in Below(2 * m + 1) && Layer(v) == Layer(u) + 1 :: (u, v)
  }

  /** The root and the first `k` layers, always on one side. */
  function Side(s: nat, k: nat): (p: seq<nat>)
    requires s < 2
    ensures |p| == k + 1 && p[0] == 0 && Layer(p[k]) == k
    ensures forall i :: 1 <= i <= k ==> p[i] == 2 * i - 1 + s
  {
    seq(k + 1, (i: nat) => if i == 0 then 0 else 2 * i - 1 + s)
  }

  lemma SidePath(m: nat, s: nat, k: nat)
    requires s < 2 && k <= m
    ensures IsPath(Ladder(m), Side(s, k))
  {
    var p := Side(s, k);
    forall i | 0 <= i < |p| - 1
      ensures (p[i], p[i + 1]) in Ladder(m)
    {
      assert Layer(p[i]) == i && Layer(p[i + 1]) == i + 1;
    }
  }

  /** A path up one side to a node. */
  lemma PathBy(m: nat, s: nat, v: nat) returns (p: seq<nat>)
    requires s < 2 && 0 < v <= 2 * m
    ensures PathFromTo(Ladder(m), p, 0, v) && |p| == Layer(v) + 1
    ensures p == Side(s, Layer(v) - 1) + [v]
  {
    var k := Layer(v) - 1;
    SidePath(m, s, k);
    PathSnoc(Ladder(m), Side(s, k), 0, Side(s, k)[k], v);
    p := Side(s, k) + [v];
  }

  /** Every edge climbs one layer. */
  lemma {:induction false} PathClimbs(m: nat, p: seq<nat>, i: nat)
    requires IsPath(Ladder(m), p) && p[0] == 0 && i < |p|
    ensures Layer(p[i]) == i
  {
    if i > 0 {
      PathClimbs(m, p, i - 1);
      assert (p[i - 1], p[i - 1 + 1]) in Ladder(m);
    }
  }

  /** A node lies as far from the root as its layer says. */
  lemma LadderDistance(m: nat, v: nat)
    requires 0 < v <= 2 * m
    ensures Distance(Ladder(m), 0, v, Layer(v))
  {
    var p := PathBy(m, 0, v);
    if Within(Ladder(m), 0, v, Layer(v) - 1) {
      var q :| PathFromTo(Ladder(m), q, 0, v) && |q| <= Layer(v);
      PathClimbs(m, q, |q| - 1);
      assert false;
    }
  }

  /** Only the root strictly dominates a node: the two sides meet nowhere else. */
  lemma LadderDominator(m: nat, v: nat, d: nat)
    requires 0 < v <= 2 * m && StrictlyDominates(Ladder(m), 0, d, v)
    ensures d == 0
  {
    var p := PathBy(m, 0, v);
    var q := PathBy(m, 1, v);
    assert d in p && d in q;
    var i :| 0 <= i < |p| && p[i] == d;
    var j :| 0 <= j < |q| && q[j] == d;
  }

  /** All nodes hang under the root, and the last ones are `m` edges away. */
  lemma LadderIsFlat(m: nat, v: nat)
    requires 0 < v <= 2 * m
    ensures ImmediatelyDominates(Ladder(m), 0, 0, v)
    ensures Distance(Ladder(m), 0, v, Layer(v)) && Layer(2 * m) == m
  {
    LadderDistance(m, v);
    RootDominates(Ladder(m), 0, v);
    forall d | StrictlyDominates(Ladder(m), 0, d, v)
      ensures Dominates(Ladder(m), 0, d, 0)
    {
      LadderDominator(m, v, d);
      DominatesSelf(Ladder(m), 0, 0);
    }
  }

  /** On the ladder the kernel loop makes more sweeps than there are layers, for a tree of depth one. */
  method SweepLadder(g: GpuDominators.Input, m: nat) returns (idom: array<nat>, sweeps: nat)
    requires g.Valid() && g.n == 2 * m + 1 && g.root == 0 && g.E() == Ladder(m)
    ensures idom.Length == g.n && forall v: nat :: v < g.n ==> idom[v] == 0
    ensures m < sweeps
  {
    var changed;
    idom, sweeps, changed := GpuDominators.SweepToFixpoint(g);
    forall v: nat | 0 < v < g.n
      ensures idom[v] == 0 && Layer(v) < sweeps
    {
      LadderIsFlat(m, v);
      WithinMonotone(Ladder(m), 0, v, Layer(v), Layer(v));
      ImmediateUnique(Ladder(m), 0, idom[v], 0, v);
    }
    if m > 0 {
      assert Layer(2 * m) < sweeps;
    }
  }
}
