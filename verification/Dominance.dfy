/** Dominance in a rooted digraph, defined by paths. */
module Dominance {
  import opened Graphs

  /** `a` lies on every path from `root` to `v`. */
  ghost predicate Dominates(E: Edges, root: nat, a: nat, v: nat) {
    forall p :: PathFromTo(E, p, root, v) ==> a in p
  }

  ghost predicate StrictlyDominates(E: Edges, root: nat, a: nat, v: nat) {
    a != v && Dominates(E, root, a, v)
  }

  /** `u` is the strict dominator of `v` that all its strict dominators dominate. */
  ghost predicate ImmediatelyDominates(E: Edges, root: nat, u: nat, v: nat) {
    && StrictlyDominates(E, root, u, v)
    && forall d :: StrictlyDominates(E, root, d, v) ==> Dominates(E, root, d, u)
  }

  /** The conditions on a reverse-postorder numbering that dominance needs. */
  ghost predicate OrdersDominators(E: Edges, n: nat, root: nat, rpo: seq<nat>, undef: nat) {
    && |rpo| == n
    && (forall v :: 0 <= v < n ==> (rpo[v] != undef <==> Reach(E, root, v)))
    && (forall v, w :: 0 <= v < n && 0 <= w < n && rpo[v] == rpo[w] != undef ==> v == w)
    && (forall d: nat, v: nat :: d < n && v < n && rpo[v] != undef && StrictlyDominates(E, root, d, v)
                       ==> rpo[d] < rpo[v])
  }

  lemma DominatesSelf(E: Edges, root: nat, v: nat)
    ensures Dominates(E, root, v, v)
  {
    forall p | PathFromTo(E, p, root, v)
      ensures v in p
    {
      assert p[|p| - 1] == v;
    }
  }

  lemma RootDominates(E: Edges, root: nat, v: nat)
    ensures Dominates(E, root, root, v)
  {
    forall p | PathFromTo(E, p, root, v)
      ensures root in p
    {
      assert p[0] == root;
    }
  }

  /** Nothing but the root dominates the root. */
  lemma RootHasNoStrictDominator(E: Edges, root: nat, d: nat)
    ensures !StrictlyDominates(E, root, d, root)
  {
    PathRefl(E, root);
    if d != root {
      assert d !in [root];
    }
  }

  /** A dominator of a reachable node is reachable. */
  lemma DominatorReachable(E: Edges, root: nat, d: nat, v: nat)
    requires Dominates(E, root, d, v) && Reach(E, root, v)
    ensures Reach(E, root, d)
  {
    var p :| PathFromTo(E, p, root, v);
    var i :| 0 <= i < |p| && p[i] == d;
    PathPrefix(E, p, i);
  }

  /** A strict dominator of `v` dominates every predecessor of `v`. */
  lemma DominatesPredecessor(E: Edges, root: nat, d: nat, u: nat, v: nat)
    requires StrictlyDominates(E, root, d, v) && (u, v) in E
    ensures Dominates(E, root, d, u)
  {
    forall p | PathFromTo(E, p, root, u)
      ensures d in p
    {
      PathSnoc(E, p, root, u, v);
      assert d in p + [v];
    }
  }

  lemma DominatesTransitive(E: Edges, root: nat, a: nat, b: nat, c: nat)
    requires Dominates(E, root, a, b) && Dominates(E, root, b, c)
    ensures Dominates(E, root, a, c)
  {
    forall p | PathFromTo(E, p, root, c)
      ensures a in p
    {
      var i :| 0 <= i < |p| && p[i] == b;
      PathPrefix(E, p, i);
      assert a in p[..i + 1];
    }
  }

  /** Two reachable nodes that dominate each other are equal: cut a path to `b`
      at its first visit to `a` or `b`. */
  lemma DominatesAntisymmetric(E: Edges, root: nat, a: nat, b: nat)
    requires Dominates(E, root, a, b) && Dominates(E, root, b, a) && Reach(E, root, b)
    ensures a == b
  {
    var d := DistanceExists(E, root, b);
    var p :| PathFromTo(E, p, root, b) && |p| <= d + 1;
    var i :| 0 <= i < |p| && p[i] == a;
    PathPrefix(E, p, i);
    var j :| 0 <= j < |p[..i + 1]| && p[..i + 1][j] == b;
    PathPrefix(E, p, j);
    assert PathFromTo(E, p[..j + 1], root, b);
    if j < |p| - 1 {
      var e: nat := d - 1;
      assert |p[..j + 1]| <= e + 1;
    }
  }

  /** Immediate dominators of reachable nodes are unique. */
  lemma ImmediateUnique(E: Edges, root: nat, u: nat, w: nat, v: nat)
    requires Reach(E, root, v)
    requires ImmediatelyDominates(E, root, u, v) && ImmediatelyDominates(E, root, w, v)
    ensures u == w
  {
    DominatorReachable(E, root, w, v);
    DominatesAntisymmetric(E, root, u, w);
  }
}
