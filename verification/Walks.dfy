/** Walks of a given number of edges, and cycles. */
module Walks {
  import opened Graphs

  /** A walk of `k` edges through nodes below `n` ends at `v`. */
  ghost predicate WalkTo(E: Edges, n: nat, v: nat, k: nat)
    decreases k
  {
    v < n && (k == 0 || exists w: nat {:trigger (w, v) in E} :: (w, v) in E && WalkTo(E, n, w, k - 1))
  }

  ghost predicate HasWalk(E: Edges, n: nat, k: nat) {
    exists v: nat :: WalkTo(E, n, v, k)
  }

  /** An edge from `v` leads back to `v`. */
  ghost predicate OnCycle(E: Edges, v: nat) {
    exists w: nat :: (v, w) in E && Reach(E, w, v)
  }

  ghost predicate HasCycle(E: Edges) {
    exists v: nat :: OnCycle(E, v)
  }

  /** A longer walk contains a shorter one. */
  lemma ShorterWalk(E: Edges, n: nat, k: nat)
    requires HasWalk(E, n, k + 1)
    ensures HasWalk(E, n, k)
  {
    var v: nat :| WalkTo(E, n, v, k + 1);
    var w: nat :| (w, v) in E && WalkTo(E, n, w, k);
  }

  /** A node on a cycle has a predecessor on a cycle. */
  lemma CycleBack(E: Edges, v: nat) returns (u: nat)
    requires OnCycle(E, v)
    ensures (u, v) in E && OnCycle(E, u)
  {
    var w: nat :| (v, w) in E && Reach(E, w, v);
    if w == v {
      u := v;
    } else {
      var p :| PathFromTo(E, p, w, v);
      u := p[|p| - 2];
      PathPrefix(E, p, |p| - 2);
      assert (p[|p| - 2], p[|p| - 2 + 1]) in E;
      ReachEdge(E, v, w);
      ReachTrans(E, v, w, u);
    }
  }

  lemma {:induction false} CycleWalks(E: Edges, n: nat, v: nat, k: nat)
    requires Bounded(E, n) && OnCycle(E, v)
    ensures WalkTo(E, n, v, k)
    decreases k
  {
    if k > 0 {
      var u := CycleBack(E, v);
      CycleWalks(E, n, u, k - 1);
    }
  }

  /** A walk as a path. */
  lemma {:induction false} WalkPath(E: Edges, n: nat, v: nat, k: nat) returns (p: seq<nat>)
    requires WalkTo(E, n, v, k)
    ensures IsPath(E, p) && |p| == k + 1 && p[k] == v
    ensures forall i :: 0 <= i < |p| ==> p[i] < n
    decreases k
  {
    if k == 0 {
      p := [v];
    } else {
      var w: nat :| (w, v) in E && WalkTo(E, n, w, k - 1);
      var q := WalkPath(E, n, w, k - 1);
      PathSnoc(E, q, q[0], w, v);
      p := q + [v];
    }
  }

  /** A path through a node twice passes a cycle. */
  lemma RepeatIsCycle(E: Edges, p: seq<nat>, i: nat, j: nat)
    requires IsPath(E, p) && i < j < |p| && p[i] == p[j]
    ensures OnCycle(E, p[i])
  {
    assert (p[i], p[i + 1]) in E;
    var tail := p[i + 1..];
    PathSuffix(E, p, i + 1);
    assert tail[j - i - 1] == p[j];
    PathPrefix(E, tail, j - i - 1);
    assert Reach(E, p[i + 1], p[i]);
  }

  lemma NoEdgesNoWalk(E: Edges, n: nat, k: nat)
    requires E == {} && k > 0
    ensures !HasWalk(E, n, k)
  {
  }

  /** With one edge, between two nodes, walks have at most one edge. */
  lemma OneEdgeWalks(E: Edges, n: nat, a: nat, b: nat)
    requires E == {(a, b)} && a != b && a < n && b < n
    ensures HasWalk(E, n, 1) && !HasWalk(E, n, 2)
  {
    assert WalkTo(E, n, a, 0) && (a, b) in E;
    assert WalkTo(E, n, b, 1);
    assert !WalkTo(E, n, a, 1);
  }

  /** Walks as long as there are nodes need a cycle, and a cycle gives walks of every length. */
  lemma LongWalks(E: Edges, n: nat, k: nat)
    requires Bounded(E, n)
    ensures HasCycle(E) ==> HasWalk(E, n, k)
    ensures k >= n && HasWalk(E, n, k) ==> HasCycle(E)
  {
    if v: nat :| OnCycle(E, v) {
      CycleWalks(E, n, v, k);
    }
    if k >= n && HasWalk(E, n, k) {
      var v: nat :| WalkTo(E, n, v, k);
      var p := WalkPath(E, n, v, k);
      if Distinct(p) {
        DistinctBelow(p, n);
        assert false;
      }
      var i, j :| 0 <= i < j < |p| && p[i] == p[j];
      RepeatIsCycle(E, p, i, j);
    }
  }
}
