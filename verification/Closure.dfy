/** Transitive closure over matching edges, by a work stack. */
module Closure {
  import opened Graphs
  import opened MultiSource
  import opened StoredGraph

  /** The edges the closure follows, in its direction. */
  ghost function Followed(edges: seq<Edge>, matches: EdgeKind -> bool, side: Side): (E: Edges)
    ensures forall u: nat, v: nat :: (u, v) in E <==> exists e ::
        e in edges && matches(e.kind) && if side == Out then e.src == u && e.dst == v else e.dst == u && e.src == v
  {
    set e | e in edges && matches(e.kind) :: (Near(e, side), Far(e, side))
  }

  /** The far ends of the first `i` matching edges of a node. */
  ghost function Heads(es: seq<Edge>, matches: EdgeKind -> bool, side: Side, i: nat): set<nat>
    requires i <= |es|
  {
    if i == 0 then {}
    else Heads(es, matches, side, i - 1) + if matches(es[i - 1].kind) then {Far(es[i - 1], side)} else {}
  }

  lemma {:induction false} HeadsMembers(es: seq<Edge>, matches: EdgeKind -> bool, side: Side, i: nat, v: nat)
    requires i <= |es|
    ensures v in Heads(es, matches, side, i) <==> exists j :: 0 <= j < i && matches(es[j].kind) && Far(es[j], side) == v
  {
    if i > 0 {
      HeadsMembers(es, matches, side, i - 1, v);
    }
  }

  /** Following every matching edge of `u` yields exactly its successors. */
  lemma AllFollowed(edges: seq<Edge>, matches: EdgeKind -> bool, side: Side, u: nat, v: nat)
    ensures var es := Incident(edges, u, side);
            v in Heads(es, matches, side, |es|) <==> (u, v) in Followed(edges, matches, side)
  {
    var es := Incident(edges, u, side);
    HeadsMembers(es, matches, side, |es|, v);
    if j :| 0 <= j < |es| && matches(es[j].kind) && Far(es[j], side) == v {
      IncidentMembers(edges, u, side, es[j]);
    }
    if (u, v) in Followed(edges, matches, side) {
      var e :| e in edges && matches(e.kind) && Near(e, side) == u && Far(e, side) == v;
      IncidentMembers(edges, u, side, e);
      var j :| 0 <= j < |es| && es[j] == e;
    }
  }

  /** Every visited node comes from a seed; its edges have been followed unless it is still
      on the stack; `reached` is what those edges lead to. */
  ghost predicate Walking(g: CodeGraph, E: Edges, seeds: set<nat>, visited: set<nat>, reached: set<nat>,
      expanded: set<nat>, stacked: set<nat>) {
    && seeds <= visited <= Members(g.nodes) && reached <= visited
    && (forall v: nat :: v in visited ==> FromSeeds(E, seeds, v))
    && visited == expanded + stacked
    && (forall v: nat :: v in reached <==> Successor(E, expanded, v))
  }

  lemma WalkStep(g: CodeGraph, E: Edges, seeds: set<nat>, visited: set<nat>, reached: set<nat>, expanded: set<nat>,
                 stacked: set<nat>, u: nat, ahead: set<nat>, stacked': set<nat>)
    requires Walking(g, E, seeds, visited, reached, expanded, stacked) && u in stacked
    requires forall v: nat :: v in ahead <==> (u, v) in E
    requires ahead <= Members(g.nodes)
    requires stacked - {u} + (ahead - visited) <= stacked' <= stacked + (ahead - visited)
    ensures Walking(g, E, seeds, visited + ahead, reached + ahead, expanded + {u}, stacked')
  {
    StackSplit(visited, expanded, stacked, u, ahead, stacked');
    forall v: nat | v in ahead
      ensures FromSeeds(E, seeds, v)
    {
      FromSeedsStep(E, seeds, u, v);
    }
    forall v: nat
      ensures v in reached + ahead <==> Successor(E, expanded + {u}, v)
    {
      SuccessorGrows(E, expanded, u, v);
    }
  }

  lemma StackSplit(visited: set<nat>, expanded: set<nat>, stacked: set<nat>, u: nat, ahead: set<nat>,
      stacked': set<nat>)
    requires visited == expanded + stacked && u in stacked
    requires stacked - {u} + (ahead - visited) <= stacked' <= stacked + (ahead - visited)
    ensures visited + ahead == expanded + {u} + stacked'
  {
    forall x: nat
      ensures x in visited + ahead <==> x in expanded + {u} + stacked'
    {
      if x in ahead && x !in visited {
        assert x in stacked - {u} + (ahead - visited);
      }
      if x in stacked && x != u {
        assert x in stacked - {u} + (ahead - visited);
      }
    }
  }

  lemma SuccessorGrows(E: Edges, expanded: set<nat>, u: nat, v: nat)
    ensures Successor(E, expanded + {u}, v) <==> Successor(E, expanded, v) || (u, v) in E
  {
    if (u, v) in E {
      assert u in expanded + {u};
    }
    if x: nat :| x in expanded && (x, v) in E {
      assert x in expanded + {u};
    }
  }

  lemma FarLive(g: CodeGraph, matches: EdgeKind -> bool, side: Side, u: nat)
    requires g.Valid()
    ensures var es := Incident(g.edges, u, side);
            Heads(es, matches, side, |es|) <= Members(g.nodes)
  {
    var es := Incident(g.edges, u, side);
    forall v | v in Heads(es, matches, side, |es|)
      ensures v in g.nodes
    {
      HeadsMembers(es, matches, side, |es|, v);
      var j :| 0 <= j < |es| && matches(es[j].kind) && Far(es[j], side) == v;
      IncidentMembers(g.edges, u, side, es[j]);
    }
  }

  ghost predicate Stacked(g: CodeGraph, matches: EdgeKind -> bool, side: Side, seeds: set<nat>, visited: set<nat>,
      reached: set<nat>, expanded: set<nat>, stack: seq<nat>) {
    Walking(g, Followed(g.edges, matches, side), seeds, visited, reached, expanded, Members(stack))
  }

  ghost function Unseen(g: CodeGraph, visited: set<nat>): nat {
    |Members(g.nodes) - visited|
  }

  /** Follow the matching edges of one popped node. */
  method FollowEdges(es: seq<Edge>, matches: EdgeKind -> bool, side: Side, visited0: set<nat>, reached0: set<nat>,
      frontier0: seq<nat>)
    returns (visited: set<nat>, reached: set<nat>, frontier: seq<nat>)
    ensures visited == visited0 + Heads(es, matches, side, |es|)
    ensures reached == reached0 + Heads(es, matches, side, |es|)
    ensures Members(frontier) == Members(frontier0) + (Heads(es, matches, side, |es|) - visited0)
    ensures visited == visited0 ==> frontier == frontier0
  {
    visited, reached, frontier := visited0, reached0, frontier0;
    var i := 0;
    while i < |es|
      invariant 0 <= i <= |es|
      invariant visited == visited0 + Heads(es, matches, side, i)
      invariant reached == reached0 + Heads(es, matches, side, i)
      invariant Members(frontier) == Members(frontier0) + (Heads(es, matches, side, i) - visited0)
      invariant visited == visited0 ==> frontier == frontier0
    {
      if matches(es[i].kind) {
        var other := Far(es[i], side);
        reached := reached + {other};
        if other !in visited {
          MembersPush(frontier, other);
          visited := visited + {other};
          frontier := frontier + [other];
        }
      }
      i := i + 1;
    }
  }

  /** Pop a node and follow its edges. */
  method Expand(g: CodeGraph, matches: EdgeKind -> bool, side: Side, ghost seeds: set<nat>,
                visited0: set<nat>, reached0: set<nat>, frontier0: seq<nat>, ghost expanded0: set<nat>)
    returns (visited: set<nat>, reached: set<nat>, frontier: seq<nat>, ghost expanded: set<nat>)
    requires g.Valid() && frontier0 != [] && Stacked(g, matches, side, seeds, visited0, reached0, expanded0, frontier0)
    ensures Stacked(g, matches, side, seeds, visited, reached, expanded, frontier)
    ensures Unseen(g, visited) < Unseen(g, visited0)
         || (Unseen(g, visited) == Unseen(g, visited0) && |frontier| < |frontier0|)
  {
    var curr := frontier0[|frontier0| - 1];
    var rest := frontier0[..|frontier0| - 1];
    SplitLast(frontier0);
    assert Members(frontier0) == Members(rest) + {curr};
    var es := Incident(g.edges, curr, side);
    visited, reached, frontier := FollowEdges(es, matches, side, visited0, reached0, rest);
    expanded := expanded0 + {curr};
    forall v: nat
      ensures v in Heads(es, matches, side, |es|) <==> (curr, v) in Followed(g.edges, matches, side)
    {
      AllFollowed(g.edges, matches, side, curr, v);
    }
    FarLive(g, matches, side, curr);
    WalkStep(g, Followed(g.edges, matches, side), seeds, visited0, reached0, expanded0, Members(frontier0), curr,
             Heads(es, matches, side, |es|), Members(frontier));
    UnvisitedShrinks(Members(g.nodes), visited0, visited);
  }

  lemma UnvisitedShrinks(all: set<nat>, before: set<nat>, after: set<nat>)
    requires before <= after <= all
    ensures after != before ==> |all - after| < |all - before|
  {
    if after != before {
      SubsetCard(all - after, all - before);
      assert !(after <= before);
      var v :| v in after && v !in before;
      assert v in all - before && v !in all - after;
    }
  }

  ghost function LiveSeeds(g: CodeGraph, seeds: seq<nat>): set<nat> {
    set s | s in seeds && s in g.nodes
  }

  /** Push every live seed. */
  method PushSeeds(g: CodeGraph, seeds: seq<nat>) returns (visited: set<nat>, frontier: seq<nat>)
    ensures visited == Members(frontier) == LiveSeeds(g, seeds)
  {
    visited, frontier := {}, [];
    var i := 0;
    while i < |seeds|
      invariant 0 <= i <= |seeds|
      invariant visited == Members(frontier) == LiveSeeds(g, seeds[..i])
    {
      assert seeds[..i + 1] == seeds[..i] + [seeds[i]];
      if seeds[i] in g.nodes {
        visited := visited + {seeds[i]};
        frontier := frontier + [seeds[i]];
      }
      i := i + 1;
    }
    assert seeds[..i] == seeds;
  }

  /** Drain the work stack. */
  method Walk(g: CodeGraph, matches: EdgeKind -> bool, side: Side, ghost seeds: set<nat>, visited0: set<nat>,
      frontier0: seq<nat>)
    returns (reached: set<nat>, ghost visited: set<nat>, ghost expanded: set<nat>)
    requires g.Valid() && Stacked(g, matches, side, seeds, visited0, {}, {}, frontier0)
    ensures Stacked(g, matches, side, seeds, visited, reached, expanded, [])
  {
    var seen, frontier := visited0, frontier0;
    reached, expanded := {}, {};
    while frontier != []
      invariant Stacked(g, matches, side, seeds, seen, reached, expanded, frontier)
      decreases Unseen(g, seen), |frontier|
    {
      seen, reached, frontier, expanded := Expand(g, matches, side, seeds, seen, reached, frontier, expanded);
    }
    visited := seen;
  }

  /** The result is exactly what a live seed reaches over one or more matching edges. */
  method Closure(g: CodeGraph, seeds: seq<nat>, matches: EdgeKind -> bool, side: Side) returns (result: set<nat>)
    requires g.Valid()
    ensures forall v: nat :: v in result <==>
              ViaEdge(Followed(g.edges, matches, side), LiveSeeds(g, seeds), v)
  {
    var visited, frontier := PushSeeds(g, seeds);
    WalkStart(g, Followed(g.edges, matches, side), LiveSeeds(g, seeds));
    ghost var all, expanded;
    result, all, expanded := Walk(g, matches, side, LiveSeeds(g, seeds), visited, frontier);
    assert Members<nat>([]) == {};
    WalkFinished(g, Followed(g.edges, matches, side), LiveSeeds(g, seeds), all, result, expanded);
  }

  lemma WalkStart(g: CodeGraph, E: Edges, seeds: set<nat>)
    requires seeds <= Members(g.nodes)
    ensures Walking(g, E, seeds, seeds, {}, {}, seeds)
  {
    SeedsReached(E, seeds);
  }

  lemma WalkFinished(g: CodeGraph, E: Edges, seeds: set<nat>, visited: set<nat>, reached: set<nat>, expanded: set<nat>)
    requires Walking(g, E, seeds, visited, reached, expanded, {})
    ensures forall v: nat :: v in reached <==> ViaEdge(E, seeds, v)
  {
    forall e | e in E && e.0 in visited
      ensures e.1 in visited
    {
      assert e == (e.0, e.1);
      assert Successor(E, expanded, e.1);
    }
    forall v: nat
      ensures v in reached <==> ViaEdge(E, seeds, v)
    {
      ClosedIsReached(E, seeds, visited, v);
    }
  }
}
