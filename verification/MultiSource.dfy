/** What multi-source traversals compute. */
module MultiSource {
  import opened Graphs

  /** Nodes reached from a seed by zero or more edges. */
  ghost predicate FromSeeds(E: Edges, seeds: set<nat>, v: nat) {
    exists s: nat :: s in seeds && Reach(E, s, v)
  }

  /** Nodes reached from a seed by one or more edges. */
  ghost predicate ViaEdge(E: Edges, seeds: set<nat>, v: nat) {
    exists u: nat :: FromSeeds(E, seeds, u) && (u, v) in E
  }

  /** Nodes at most `k` edges from a seed. */
  ghost predicate WithinSeeds(E: Edges, seeds: set<nat>, v: nat, k: nat) {
    exists s: nat :: s in seeds && Within(E, s, v, k)
  }

  /** Some node of `S` has an edge to `v`. */
  ghost predicate Successor(E: Edges, S: set<nat>, v: nat) {
    exists u: nat :: u in S && (u, v) in E
  }

  lemma FromSeedsStep(E: Edges, seeds: set<nat>, u: nat, v: nat)
    requires FromSeeds(E, seeds, u) && (u, v) in E
    ensures FromSeeds(E, seeds, v) && ViaEdge(E, seeds, v)
  {
    var s: nat :| s in seeds && Reach(E, s, u);
    ReachEdge(E, u, v);
    ReachTrans(E, s, u, v);
  }

  lemma SeedsReached(E: Edges, seeds: set<nat>)
    ensures forall s: nat :: s in seeds ==> FromSeeds(E, seeds, s)
  {
    forall s: nat | s in seeds
      ensures FromSeeds(E, seeds, s)
    {
      PathRefl(E, s);
    }
  }

  /** A set that holds the seeds, stays within reach and is closed under edges is exactly
      what the seeds reach. */
  lemma ClosedIsReached(E: Edges, seeds: set<nat>, V: set<nat>, v: nat)
    requires seeds <= V && (forall w: nat :: w in V ==> FromSeeds(E, seeds, w))
    requires forall e :: e in E && e.0 in V ==> e.1 in V
    ensures v in V <==> FromSeeds(E, seeds, v)
    ensures Successor(E, V, v) <==> ViaEdge(E, seeds, v)
  {
    forall w: nat | FromSeeds(E, seeds, w)
      ensures w in V
    {
      var s: nat :| s in seeds && Reach(E, s, w);
      ReachInvariant(E, V, s, w);
    }
  }

  /** One more level: the ball grows by its successors. */
  lemma WithinSeedsUnfold(E: Edges, seeds: set<nat>, v: nat, k: nat)
    ensures WithinSeeds(E, seeds, v, 0) <==> v in seeds
    ensures WithinSeeds(E, seeds, v, k + 1) <==>
              WithinSeeds(E, seeds, v, k) || exists u: nat :: WithinSeeds(E, seeds, u, k) && (u, v) in E
  {
    forall s: nat
      ensures Within(E, s, v, 0) <==> s == v
      ensures Within(E, s, v, k + 1) <==> Within(E, s, v, k) || exists u: nat :: Within(E, s, u, k) && (u, v) in E
    {
      WithinUnfold(E, s, v, k);
    }
    if WithinSeeds(E, seeds, v, k + 1) && !WithinSeeds(E, seeds, v, k) {
      var s: nat :| s in seeds && Within(E, s, v, k + 1);
      var u: nat :| Within(E, s, u, k) && (u, v) in E;
      assert WithinSeeds(E, seeds, u, k);
    }
    if u: nat :| WithinSeeds(E, seeds, u, k) && (u, v) in E {
      var s: nat :| s in seeds && Within(E, s, u, k);
      assert Within(E, s, v, k + 1);
    }
  }
}
