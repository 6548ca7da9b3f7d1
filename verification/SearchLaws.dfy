/** What the edge filter and the direction of a search mean for the depths it reports. */
module SearchLaws {
  import opened BfsDirected
  import opened Csr
  import opened Graphs
  import opened StoredGraph
  import opened StoredSearch
  import opened Wrappers

  // ---------------------------------------------------------------- two searches

  /** `r` answers a search of the stored graph from slot `s`. */
  ghost predicate Answers(g: CodeGraph, cfg: BfsConfig, order: seq<nat>, s: nat, r: BfsResult) {
    DepthsFrom(StoredEdges(g, cfg), order, s, cfg.maxDepth, r)
  }

  lemma WithinMore(E: Edges, F: Edges, u: nat, v: nat, k: nat)
    requires E <= F && Within(E, u, v, k)
    ensures Within(F, u, v, k)
  {
    var p :| PathFromTo(E, p, u, v) && |p| <= k + 1;
    assert PathFromTo(F, p, u, v);
  }

  lemma DistanceMore(E: Edges, F: Edges, u: nat, v: nat, k: nat) returns (j: nat)
    requires E <= F && Distance(E, u, v, k)
    ensures j <= k && Distance(F, u, v, j)
  {
    WithinMore(E, F, u, v, k);
    WithinMonotone(F, u, v, k, k);
    j := DistanceExists(F, u, v);
    DistanceWithin(F, u, v, j, k);
  }

  /** More edges and a larger bound lose no slot and lengthen no distance. */
  lemma MoreEdgesNearer(E: Edges, F: Edges, orderA: seq<nat>, orderB: seq<nat>, s: nat, boundA: nat, boundB: nat,
                        a: BfsResult, b: BfsResult, v: nat, w: nat)
    requires E <= F && boundA <= boundB
    requires DepthsFrom(E, orderA, s, boundA, a) && DepthsFrom(F, orderB, s, boundB, b)
    requires v < |orderA| && w < |orderB| && orderA[v] == orderB[w] && a.depth[v].Some?
    ensures b.depth[w].Some? && b.depth[w].value <= a.depth[v].value
  {
    assert a.depth[v] == Some(a.depth[v].value);
    var j := DistanceMore(E, F, s, orderA[v], a.depth[v].value);
    assert b.depth[w] == Some(j);
  }

  // ---------------------------------------------------------------- filters

  /** The filter lets the kinds of this tag through. */
  ghost predicate Lets(filter: Option<seq<Tag>>, t: Tag) {
    filter.None? || t in filter.value
  }

  lemma LetsPasses(filter: Option<seq<Tag>>, e: Edge)
    ensures Passes(filter, e) <==> Lets(filter, TagOf(e.kind))
  {
    PassesTag(filter, e);
  }

  lemma WiderEdges(g: CodeGraph, narrow: BfsConfig, wide: BfsConfig)
    requires narrow.reverse == wide.reverse
    requires forall t :: Lets(narrow.edgeFilter, t) ==> Lets(wide.edgeFilter, t)
    ensures StoredEdges(g, narrow) <= StoredEdges(g, wide)
  {
    forall s: nat, t: nat | (s, t) in StoredEdges(g, narrow)
      ensures (s, t) in StoredEdges(g, wide)
    {
      var e :| e in g.edges && Passes(narrow.edgeFilter, e)
                && if narrow.reverse then e.dst == s && e.src == t else e.src == s && e.dst == t;
      LetsPasses(narrow.edgeFilter, e);
      LetsPasses(wide.edgeFilter, e);
    }
  }

  /** A filter that lets more through loses no slot and lengthens no distance. */
  lemma WiderFilterNearer(g: CodeGraph, narrow: BfsConfig, wide: BfsConfig, orderA: seq<nat>, orderB: seq<nat>, s: nat,
                          a: BfsResult, b: BfsResult, v: nat, w: nat)
    requires narrow.reverse == wide.reverse && narrow.maxDepth <= wide.maxDepth
    requires forall t :: Lets(narrow.edgeFilter, t) ==> Lets(wide.edgeFilter, t)
    requires Answers(g, narrow, orderA, s, a) && Answers(g, wide, orderB, s, b)
    requires v < |orderA| && w < |orderB| && orderA[v] == orderB[w] && a.depth[v].Some?
    ensures b.depth[w].Some? && b.depth[w].value <= a.depth[v].value
  {
    WiderEdges(g, narrow, wide);
    MoreEdgesNearer(StoredEdges(g, narrow), StoredEdges(g, wide), orderA, orderB, s, narrow.maxDepth, wide.maxDepth,
                    a, b, v, w);
  }

  /** A filter that lists every tag gives the depths of a search without one. */
  lemma EveryTagIsNoFilter(g: CodeGraph, all: BfsConfig, cfg: BfsConfig, orderA: seq<nat>, orderB: seq<nat>, s: nat,
                           a: BfsResult, b: BfsResult, v: nat, w: nat)
    requires all.edgeFilter.Some? && forall t: Tag :: t in all.edgeFilter.value
    requires cfg == all.(edgeFilter := None)
    requires Answers(g, all, orderA, s, a) && Answers(g, cfg, orderB, s, b)
    requires v < |orderA| && w < |orderB| && orderA[v] == orderB[w]
    ensures a.depth[v] == b.depth[w]
  {
    if a.depth[v].Some? {
      WiderFilterNearer(g, all, cfg, orderA, orderB, s, a, b, v, w);
    }
    if b.depth[w].Some? {
      WiderFilterNearer(g, cfg, all, orderB, orderA, s, b, a, w, v);
    }
  }

  lemma NoEdgesStay(E: Edges, u: nat, v: nat, k: nat)
    requires (forall s: nat, t: nat :: (s, t) !in E) && Within(E, u, v, k)
    ensures u == v
  {
    WithinMonotone(E, u, v, k, k);
    ReachInvariant(E, {u}, u, v);
  }

  /** With nothing listed the search stays where it starts. */
  lemma EmptyFilterStays(g: CodeGraph, cfg: BfsConfig, order: seq<nat>, s: nat, r: BfsResult, v: nat)
    requires cfg.edgeFilter == Some([]) && Answers(g, cfg, order, s, r) && v < |order|
    ensures r.depth[v] == if order[v] == s then Some(0) else None
  {
    var E := StoredEdges(g, cfg);
    assert forall u: nat, t: nat :: (u, t) !in E;
    if order[v] == s {
      PathRefl(E, s);
      assert Distance(E, s, s, 0);
    }
    if r.depth[v].Some? {
      assert r.depth[v] == Some(r.depth[v].value);
      NoEdgesStay(E, s, order[v], r.depth[v].value);
    }
  }

  // ---------------------------------------------------------------- directions

  lemma WithinReversed(E: Edges, F: Edges, u: nat, v: nat, k: nat)
    requires (forall s: nat, t: nat :: (s, t) in E ==> (t, s) in F) && Within(E, u, v, k)
    ensures Within(F, v, u, k)
  {
    var p :| PathFromTo(E, p, u, v) && |p| <= k + 1;
    var q := seq(|p|, i requires 0 <= i < |p| => p[|p| - 1 - i]);
    forall i | 0 <= i < |q| - 1
      ensures (q[i], q[i + 1]) in F
    {
      var j := |p| - 2 - i;
      assert (p[j], p[j + 1]) in E;
    }
    assert PathFromTo(F, q, v, u);
  }

  /** Searching forward from one slot and backward from another, each finds the other equally far away. */
  lemma BackwardMirrorsForward(g: CodeGraph, cfg: BfsConfig, back: BfsConfig, orderA: seq<nat>, orderB: seq<nat>,
                               s: nat, t: nat, a: BfsResult, b: BfsResult, v: nat, w: nat)
    requires back == cfg.(reverse := !cfg.reverse)
    requires Answers(g, cfg, orderA, s, a) && Answers(g, back, orderB, t, b)
    requires v < |orderA| && w < |orderB| && orderA[v] == t && orderB[w] == s
    ensures a.depth[v] == b.depth[w]
  {
    var E, F := StoredEdges(g, cfg), StoredEdges(g, back);
    forall k: nat
      ensures Within(E, s, t, k) <==> Within(F, t, s, k)
    {
      if Within(E, s, t, k) {
        WithinReversed(E, F, s, t, k);
      }
      if Within(F, t, s, k) {
        WithinReversed(F, E, t, s, k);
      }
    }
    forall k: nat
      ensures a.depth[v] == Some(k) <==> b.depth[w] == Some(k)
    {
    }
    if a.depth[v].Some? {
      assert a.depth[v] == Some(a.depth[v].value);
    }
    if b.depth[w].Some? {
      assert b.depth[w] == Some(b.depth[w].value);
    }
  }
}
