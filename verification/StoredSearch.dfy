/** Snapshot and search together: distances over the stored graph's edges. */
module StoredSearch {
  import opened BfsDirected
  import opened Csr
  import opened CsrBuild
  import opened Graphs
  import opened StoredGraph
  import opened Wrappers

  // ---------------------------------------------------------------- edges

  /** There is no filter, or it lists the tag of the edge's kind. */
  ghost predicate Passes(filter: Option<seq<Tag>>, e: Edge) {
    filter.None? || exists i :: 0 <= i < |filter.value| && Tags(filter.value[i], e.kind)
  }

  /** The stored edges the search may follow, between slots: those that pass, against their direction
      in a reverse search. */
  ghost function StoredEdges(g: CodeGraph, cfg: BfsConfig): (E: Edges)
    ensures forall s: nat, t: nat :: (s, t) in E <==> exists e ::
        && e in g.edges && Passes(cfg.edgeFilter, e)
        && if cfg.reverse then e.dst == s && e.src == t else e.src == s && e.dst == t
  {
    set e | e in g.edges && Passes(cfg.edgeFilter, e) :: if cfg.reverse then (e.dst, e.src) else (e.src, e.dst)
  }

  /** The side whose far ends the search steps to. */
  function Ahead(cfg: BfsConfig): Side {
    if cfg.reverse then In else Out
  }

  lemma {:induction false} RelabelledMember(pos: map<nat, nat>, es: seq<Edge>, t: Triple)
    requires Positioned(pos, es)
    ensures t in Relabelled(pos, es) <==>
              exists e :: e in es && e.src in pos && e.dst in pos && t == Triple(pos[e.src], pos[e.dst], TagOf(e.kind))
  {
    if es != [] {
      var rest, e := es[..|es| - 1], es[|es| - 1];
      RelabelledMember(pos, rest, t);
      SplitLast(es);
      if f :| f in rest && f.src in pos && f.dst in pos && t == Triple(pos[f.src], pos[f.dst], TagOf(f.kind)) {
        assert f in es;
      }
    }
  }

  /** Some stored edge of kind `k` leads from `s` to `t`, seen from one side. */
  ghost predicate StoredAt(edges: seq<Edge>, side: Side, s: nat, t: nat, k: Tag) {
    exists e :: e in edges && Near(e, side) == s && Far(e, side) == t && TagOf(e.kind) == k
  }

  lemma OrientedStored(edges: seq<Edge>, order: seq<nat>, pos: map<nat, nat>, side: Side, u: nat, v: nat, k: Tag)
    requires Ordered(order, pos) && Positioned(pos, edges) && u < |order| && v < |order|
    ensures Oriented(side, u, v, k) in Relabelled(pos, edges) <==> StoredAt(edges, side, order[u], order[v], k)
  {
    var t := Oriented(side, u, v, k);
    RelabelledMember(pos, edges, t);
    if e :| e in edges && Near(e, side) == order[u] && Far(e, side) == order[v] && TagOf(e.kind) == k {
      var i :| 0 <= i < |edges| && edges[i] == e;
      assert t == Triple(pos[e.src], pos[e.dst], TagOf(e.kind));
    }
    if e :| e in edges && e.src in pos && e.dst in pos && t == Triple(pos[e.src], pos[e.dst], TagOf(e.kind)) {
      assert order[pos[e.src]] == e.src && order[pos[e.dst]] == e.dst;
      assert Near(e, side) == order[u] && Far(e, side) == order[v] && TagOf(e.kind) == k;
    }
  }

  /** A half lists what the stored edges say. */
  lemma HalfStored(g: CodeGraph, order: seq<nat>, pos: map<nat, nat>, side: Side, half: Half,
                   rows: seq<CsrBuild.Row>, u: nat, v: nat, k: Tag)
    requires Ordered(order, pos) && HalfOf(g, order, pos, side, half, rows) && u < |order| && v < |order|
    ensures half.Lists(|order|, u, v, k) <==> StoredAt(g.edges, side, order[u], order[v], k)
  {
    ListsTriples(half, |order|, rows, side, u, v, k);
    OrientedStored(g.edges, order, pos, side, u, v, k);
  }

  lemma PassesTag(filter: Option<seq<Tag>>, e: Edge)
    ensures Passes(filter, e) <==> EdgeMatches(filter, TagOf(e.kind))
  {
    if filter.Some? {
      assert forall t: Tag :: Tags(t, e.kind) <==> t == TagOf(e.kind);
    }
  }

  lemma StoredKinds(g: CodeGraph, cfg: BfsConfig, s: nat, t: nat)
    ensures (s, t) in StoredEdges(g, cfg) <==>
              exists k: Tag :: StoredAt(g.edges, Ahead(cfg), s, t, k) && EdgeMatches(cfg.edgeFilter, k)
  {
    if (s, t) in StoredEdges(g, cfg) {
      var e :| e in g.edges && Passes(cfg.edgeFilter, e) && Near(e, Ahead(cfg)) == s && Far(e, Ahead(cfg)) == t;
      PassesTag(cfg.edgeFilter, e);
      assert StoredAt(g.edges, Ahead(cfg), s, t, TagOf(e.kind));
    }
    if k: Tag :| StoredAt(g.edges, Ahead(cfg), s, t, k) && EdgeMatches(cfg.edgeFilter, k) {
      var e :| e in g.edges && Near(e, Ahead(cfg)) == s && Far(e, Ahead(cfg)) == t && TagOf(e.kind) == k;
      PassesTag(cfg.edgeFilter, e);
    }
  }

  /** What a built snapshot offers the search. */
  ghost predicate Built(g: CodeGraph, snap: CsrSnapshot, order: seq<nat>, pos: map<nat, nat>,
                        outRows: seq<CsrBuild.Row>, inRows: seq<CsrBuild.Row>) {
    && snap.Valid() && snap.n == |order| && Ordered(order, pos)
    && HalfOf(g, order, pos, Out, snap.outgoing, outRows) && HalfOf(g, order, pos, In, snap.incoming, inRows)
    && Positioned(pos, g.edges)
  }

  /** The snapshot's search edges are the stored ones, under the vertex numbers. */
  lemma SearchStored(g: CodeGraph, snap: CsrSnapshot, order: seq<nat>, pos: map<nat, nat>,
                     outRows: seq<CsrBuild.Row>, inRows: seq<CsrBuild.Row>, cfg: BfsConfig, u: nat, v: nat)
    requires Built(g, snap, order, pos, outRows, inRows) && u < |order| && v < |order|
    ensures (u, v) in SearchEdges(snap, cfg) <==> (order[u], order[v]) in StoredEdges(g, cfg)
  {
    StepsLists(snap.n, BfsDirected.Ahead(snap, cfg), cfg.edgeFilter, u, v);
    StoredKinds(g, cfg, order[u], order[v]);
    AheadStored(g, snap, order, pos, outRows, inRows, cfg, u, v);
  }

  lemma AheadStored(g: CodeGraph, snap: CsrSnapshot, order: seq<nat>, pos: map<nat, nat>,
                    outRows: seq<CsrBuild.Row>, inRows: seq<CsrBuild.Row>, cfg: BfsConfig, u: nat, v: nat)
    requires Built(g, snap, order, pos, outRows, inRows) && u < |order| && v < |order|
    ensures forall k: Tag :: BfsDirected.Ahead(snap, cfg).Lists(snap.n, u, v, k) <==>
                             StoredAt(g.edges, Ahead(cfg), order[u], order[v], k)
  {
    forall k: Tag
      ensures BfsDirected.Ahead(snap, cfg).Lists(snap.n, u, v, k) <==>
              StoredAt(g.edges, Ahead(cfg), order[u], order[v], k)
    {
      if cfg.reverse {
        HalfStored(g, order, pos, In, snap.incoming, inRows, u, v, k);
      } else {
        HalfStored(g, order, pos, Out, snap.outgoing, outRows, u, v, k);
      }
    }
  }

  // ---------------------------------------------------------------- distances

  ghost predicate Carries(E: Edges, F: Edges, f: nat -> nat) {
    forall u: nat, v: nat :: (u, v) in E ==> (f(u), f(v)) in F
  }

  lemma MapPath(E: Edges, F: Edges, f: nat -> nat, p: seq<nat>)
    requires IsPath(E, p) && Carries(E, F, f)
    ensures IsPath(F, seq(|p|, i requires 0 <= i < |p| => f(p[i])))
  {
    var q := seq(|p|, i requires 0 <= i < |p| => f(p[i]));
    forall i | 0 <= i < |q| - 1
      ensures (q[i], q[i + 1]) in F
    {
      assert (p[i], p[i + 1]) in E;
    }
  }

  lemma MapWithin(E: Edges, F: Edges, f: nat -> nat, u: nat, v: nat, k: nat)
    requires Carries(E, F, f) && Within(E, u, v, k)
    ensures Within(F, f(u), f(v), k)
  {
    var p :| PathFromTo(E, p, u, v) && |p| <= k + 1;
    MapPath(E, F, f, p);
    assert PathFromTo(F, seq(|p|, i requires 0 <= i < |p| => f(p[i])), f(u), f(v));
  }

  /** The slot of a vertex, and the vertex of a slot. */
  ghost function SlotAt(order: seq<nat>): nat -> nat {
    (v: nat) => if v < |order| then order[v] else 0
  }

  ghost function VertexAt(pos: map<nat, nat>): nat -> nat {
    (s: nat) => if s in pos then pos[s] else 0
  }

  /** The two edge sets are one, under the numbering. */
  ghost predicate Renamed(E: Edges, F: Edges, order: seq<nat>, pos: map<nat, nat>) {
    && Ordered(order, pos) && Bounded(E, |order|)
    && (forall s: nat, t: nat :: (s, t) in F ==> s in pos && t in pos)
    && forall u: nat, v: nat {:trigger (u, v) in E} :: u < |order| && v < |order| ==>
         ((u, v) in E <==> (order[u], order[v]) in F)
  }

  lemma RenamedWithin(E: Edges, F: Edges, order: seq<nat>, pos: map<nat, nat>, u: nat, v: nat, k: nat)
    requires Renamed(E, F, order, pos) && u < |order| && v < |order|
    ensures Within(E, u, v, k) <==> Within(F, order[u], order[v], k)
  {
    forall a: nat, b: nat | (a, b) in E
      ensures (SlotAt(order)(a), SlotAt(order)(b)) in F
    {
    }
    forall s: nat, t: nat | (s, t) in F
      ensures (VertexAt(pos)(s), VertexAt(pos)(t)) in E
    {
      assert order[pos[s]] == s && order[pos[t]] == t;
      assert (pos[s], pos[t]) in E;
    }
    if Within(E, u, v, k) {
      MapWithin(E, F, SlotAt(order), u, v, k);
    }
    if Within(F, order[u], order[v], k) {
      MapWithin(F, E, VertexAt(pos), order[u], order[v], k);
    }
  }

  lemma RenamedDistance(E: Edges, F: Edges, order: seq<nat>, pos: map<nat, nat>, u: nat, v: nat, k: nat)
    requires Renamed(E, F, order, pos) && u < |order| && v < |order|
    ensures Distance(E, u, v, k) <==> Distance(F, order[u], order[v], k)
  {
    RenamedWithin(E, F, order, pos, u, v, k);
    if k > 0 {
      RenamedWithin(E, F, order, pos, u, v, k - 1);
    }
  }

  lemma BuiltRenamed(g: CodeGraph, snap: CsrSnapshot, order: seq<nat>, pos: map<nat, nat>,
                     outRows: seq<CsrBuild.Row>, inRows: seq<CsrBuild.Row>, cfg: BfsConfig)
    requires Built(g, snap, order, pos, outRows, inRows)
    ensures Renamed(SearchEdges(snap, cfg), StoredEdges(g, cfg), order, pos)
  {
    var E, F := SearchEdges(snap, cfg), StoredEdges(g, cfg);
    forall s: nat, t: nat | (s, t) in F
      ensures s in pos && t in pos
    {
      var e :| e in g.edges && Near(e, Ahead(cfg)) == s && Far(e, Ahead(cfg)) == t;
      var i :| 0 <= i < |g.edges| && g.edges[i] == e;
    }
    forall u: nat, v: nat | u < |order| && v < |order|
      ensures (u, v) in E <==> (order[u], order[v]) in F
    {
      SearchStored(g, snap, order, pos, outRows, inRows, cfg, u, v);
    }
  }

  // ---------------------------------------------------------------- from an id

  /** Depths are distances over the stored edges from slot `s`, up to the bound; every visited slot but
      `s` hangs by a stored edge under one a level up, no other has a parent; the deepest level is told. */
  ghost predicate DepthsFrom(E: Edges, order: seq<nat>, s: nat, maxDepth: nat, r: BfsResult) {
    && |r.depth| == |order| == |r.parent|
    && (forall v: nat, k: nat :: v < |order| ==>
          (r.depth[v] == Some(k) <==> k <= maxDepth && Distance(E, s, order[v], k)))
    && (forall v: nat {:trigger r.parent[v]} :: v < |order| && r.depth[v].Some? && order[v] != s ==>
         && r.parent[v].Some? && r.parent[v].value < |order|
         && (order[r.parent[v].value], order[v]) in E
         && r.depth[r.parent[v].value].Some? && r.depth[r.parent[v].value].value + 1 == r.depth[v].value)
    && (forall v: nat {:trigger r.parent[v]} :: v < |order| && (r.depth[v].None? || order[v] == s) ==>
          r.parent[v].None?)
    && (forall v: nat :: v < |order| && r.depth[v].Some? ==> r.depth[v].value <= r.maxDepthReached)
    && exists v: nat :: v < |order| && r.depth[v] == Some(r.maxDepthReached)
  }

  lemma CorrectStored(E: Edges, F: Edges, order: seq<nat>, pos: map<nat, nat>, u: nat, maxDepth: nat, r: BfsResult)
    requires Renamed(E, F, order, pos) && u < |order| && Correct(E, |order|, u, maxDepth, r)
    ensures DepthsFrom(F, order, order[u], maxDepth, r)
  {
    forall v: nat, k: nat | v < |order|
      ensures r.depth[v] == Some(k) <==> k <= maxDepth && Distance(F, order[u], order[v], k)
    {
      RenamedDistance(E, F, order, pos, u, v, k);
    }
    forall v: nat | v < |order| && (r.depth[v].None? || order[v] == order[u])
      ensures r.parent[v].None?
    {
      assert ParentOk(E, |order|, u, v, r.depth, r.parent);
    }
    forall v: nat | v < |order| && r.depth[v].Some? && order[v] != order[u]
      ensures r.parent[v].Some? && r.parent[v].value < |order|
      ensures (order[r.parent[v].value], order[v]) in F
      ensures r.depth[r.parent[v].value].Some? && r.depth[r.parent[v].value].value + 1 == r.depth[v].value
    {
      assert ParentOk(E, |order|, u, v, r.depth, r.parent);
    }
  }

  /** Some live slot has the id. */
  ghost predicate Known(g: CodeGraph, id: nat) {
    Identified(g) && exists t :: t in g.nodes && g.ids[t] == id
  }

  lemma KnownVertex(g: CodeGraph, order: seq<nat>, snap: CsrSnapshot, id: nat)
    requires Identified(g) && IdsOf(g, order, snap) && forall v :: v in order <==> v in g.nodes
    ensures id in snap.idToVertex <==> Known(g, id)
    ensures id in snap.idToVertex ==> snap.idToVertex[id] < |order| && g.ids[order[snap.idToVertex[id]]] == id
  {
    if t :| t in g.nodes && g.ids[t] == id {
      assert t in order;
      var i :| 0 <= i < |order| && order[i] == t;
      assert snap.vertexToId[i] == id;
    }
    if id in snap.idToVertex {
      assert order[snap.idToVertex[id]] in order;
    }
  }

  /** Builds the snapshot and resolves an id: nothing exactly when some node has no id or none has this
      one. */
  method Resolve(g: CodeGraph, id: nat)
    returns (snap: CsrSnapshot, start: Option<nat>, ghost order: seq<nat>, ghost pos: map<nat, nat>,
             ghost outRows: seq<CsrBuild.Row>, ghost inRows: seq<CsrBuild.Row>)
    requires g.Valid()
    ensures start.Some? <==> Known(g, id)
    ensures start.Some? ==> Built(g, snap, order, pos, outRows, inRows) && forall t :: t in order <==> t in g.nodes
    ensures start.Some? ==> start.value < |order| && g.ids[order[start.value]] == id
  {
    ghost var blocks;
    snap, order, pos, outRows, inRows, blocks := Build(g);
    start := if id in snap.idToVertex then Some(snap.idToVertex[id]) else None;
    if Identified(g) {
      KnownVertex(g, order, snap, id);
    }
  }

  /** Builds the snapshot and searches from the node with the given id: nothing exactly when some node
      has no id or none has this one, otherwise bounded shortest distances in the stored graph. */
  method SearchById(g: CodeGraph, id: nat, cfg: BfsConfig, policy: Policy)
    returns (r: Option<BfsResult>, ghost order: seq<nat>, ghost s: nat)
    requires g.Valid()
    ensures r.Some? <==> Known(g, id)
    ensures r.Some? ==> s in g.nodes && g.ids[s] == id && Distinct(order) && forall t :: t in order <==> t in g.nodes
    ensures r.Some? ==> DepthsFrom(StoredEdges(g, cfg), order, s, cfg.maxDepth, r.value)
  {
    var snap, start; ghost var pos, outRows, inRows;
    snap, start, order, pos, outRows, inRows := Resolve(g, id);
    s := 0;
    if start.None? {
      return None, order, s;
    }
    var found := Search(policy, snap, start.value, cfg);
    r := Some(found);
    s := order[start.value];
    assert s in order;
    FoundStored(g, snap, order, pos, outRows, inRows, cfg, start.value, found);
  }

  lemma FoundStored(g: CodeGraph, snap: CsrSnapshot, order: seq<nat>, pos: map<nat, nat>,
                    outRows: seq<CsrBuild.Row>, inRows: seq<CsrBuild.Row>, cfg: BfsConfig, start: nat, r: BfsResult)
    requires Built(g, snap, order, pos, outRows, inRows) && start < |order|
    requires Correct(SearchEdges(snap, cfg), snap.n, start, cfg.maxDepth, r)
    ensures DepthsFrom(StoredEdges(g, cfg), order, order[start], cfg.maxDepth, r)
  {
    BuiltRenamed(g, snap, order, pos, outRows, inRows, cfg);
    CorrectStored(SearchEdges(snap, cfg), StoredEdges(g, cfg), order, pos, start, cfg.maxDepth, r);
  }
}
