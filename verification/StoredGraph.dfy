/** The stored code graph: slots of live nodes, and edges between them. */
module StoredGraph {
  import opened Graphs

  datatype EdgeKind =
    | Calls | UnresolvedCall(name: string) | UsesType | References | Contains | Implements
    | ExternalCall(krate: string, path: string) | Extends | Returns | TypeOf

  datatype Edge = Edge(src: nat, dst: nat, kind: EdgeKind, weight: real)

  /** A stored graph: live slots, edges in iteration order, node ids, revision. */
  datatype CodeGraph = CodeGraph(nodes: seq<nat>, edges: seq<Edge>, ids: map<nat, nat>, revision: nat) {
    /** Slots are listed once and edges join live slots. */
    ghost predicate Valid() {
      && Distinct(nodes)
      && forall i :: 0 <= i < |edges| ==> edges[i].src in nodes && edges[i].dst in nodes
    }
  }

  /** Which end of an edge a row belongs to. */
  datatype Side = Out | In

  function Near(e: Edge, side: Side): nat {
    if side == Out then e.src else e.dst
  }

  function Far(e: Edge, side: Side): nat {
    if side == Out then e.dst else e.src
  }

  /** The edges leaving or entering `v`, in iteration order. */
  function Incident(edges: seq<Edge>, v: nat, side: Side): seq<Edge> {
    if edges == [] then []
    else
      Incident(edges[..|edges| - 1], v, side)
      + if Near(edges[|edges| - 1], side) == v then [edges[|edges| - 1]] else []
  }

  lemma {:induction false} IncidentMembers(edges: seq<Edge>, v: nat, side: Side, e: Edge)
    ensures e in Incident(edges, v, side) <==> e in edges && Near(e, side) == v
  {
    if edges != [] {
      IncidentMembers(edges[..|edges| - 1], v, side, e);
      SplitLast(edges);
    }
  }

  /** The slots at the far ends of the edges of `v`, in iteration order. */
  function FarEnds(edges: seq<Edge>, v: nat, side: Side): (vs: seq<nat>) {
    var es := Incident(edges, v, side);
    seq(|es|, i requires 0 <= i < |es| => Far(es[i], side))
  }

  lemma FarEndsMembers(edges: seq<Edge>, v: nat, side: Side, w: nat)
    ensures w in FarEnds(edges, v, side) <==> exists e :: e in edges && Near(e, side) == v && Far(e, side) == w
  {
    var es, vs := Incident(edges, v, side), FarEnds(edges, v, side);
    if w in vs {
      var i :| 0 <= i < |vs| && vs[i] == w;
      IncidentMembers(edges, v, side, es[i]);
    }
    if e :| e in edges && Near(e, side) == v && Far(e, side) == w {
      IncidentMembers(edges, v, side, e);
      var i :| 0 <= i < |es| && es[i] == e;
      assert vs[i] == w;
    }
  }

  /** `pos` numbers the slots of `order` by their places. */
  ghost predicate Ordered(order: seq<nat>, pos: map<nat, nat>) {
    && Distinct(order)
    && (forall v :: 0 <= v < |order| ==> order[v] in pos && pos[order[v]] == v)
    && forall s :: s in pos ==> pos[s] < |order| && order[pos[s]] == s
  }
}
