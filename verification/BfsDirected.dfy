/** Direction-optimised BFS: each layer expands by pushing along outgoing edges or by pulling
    along incoming ones. The two agree because the snapshot's halves are transposes. */
module BfsDirected {
  import opened Wrappers
  import opened Graphs
  import opened Csr
  import opened Frontier

  const ALPHA: nat := 14
  const BETA: nat := 24

  datatype Direction = Push | Pull

  datatype BfsConfig = BfsConfig(maxDepth: nat, edgeFilter: Option<seq<Tag>>, reverse: bool)

  datatype BfsResult = BfsResult(depth: seq<Option<nat>>, parent: seq<Option<nat>>, maxDepthReached: nat)

  predicate EdgeMatches(filter: Option<seq<Tag>>, k: Tag): (matches: bool)
    ensures matches <==> filter.None? || exists j :: 0 <= j < |filter.value| && filter.value[j] == k
  {
    match filter
    case None => true
    case Some(allowed) => k in allowed
  }

  /** The half whose rows list where the search steps to. */
  function Ahead(snap: CsrSnapshot, cfg: BfsConfig): Half {
    if cfg.reverse then snap.incoming else snap.outgoing
  }

  /** The half whose rows list where the search comes from. */
  function Behind(snap: CsrSnapshot, cfg: BfsConfig): Half {
    if cfg.reverse then snap.outgoing else snap.incoming
  }

  /** Row `v` of a half lists `c` under a kind that the filter, if there is one, lists. */
  ghost predicate Steps(n: nat, half: Half, filter: Option<seq<Tag>>, v: nat, c: nat)
    requires half.Valid(n)
  {
    && v < n
    && exists i ::
         && 0 <= i < |half.Neighbours(v)| && half.Neighbours(v)[i] == c
         && (filter.None? || exists j :: 0 <= j < |filter.value| && filter.value[j] == half.Kinds(v)[i])
  }

  lemma StepsLists(n: nat, half: Half, filter: Option<seq<Tag>>, v: nat, c: nat)
    requires half.Valid(n)
    ensures Steps(n, half, filter, v, c) <==> exists k :: half.Lists(n, v, c, k) && EdgeMatches(filter, k)
  {
    if Steps(n, half, filter, v, c) {
      var i :| 0 <= i < |half.Neighbours(v)| && half.Neighbours(v)[i] == c && EdgeMatches(filter, half.Kinds(v)[i]);
      assert half.Lists(n, v, c, half.Kinds(v)[i]);
    }
  }

  /** The edges the search may follow. */
  ghost function SearchEdges(snap: CsrSnapshot, cfg: BfsConfig): (E: Edges)
    requires snap.Valid()
    ensures Bounded(E, snap.n)
    ensures forall u: nat, v: nat :: (u, v) in E <==>
              Steps(snap.n, if cfg.reverse then snap.incoming else snap.outgoing, cfg.edgeFilter, u, v)
  {
    set u, v | u in Below(snap.n) && v in Below(snap.n) && Steps(snap.n, Ahead(snap, cfg), cfg.edgeFilter, u, v) ::
        (u, v)
  }

  /** The same edges, read from the other half: this is where the transpose is needed. */
  lemma SearchEdgesBehind(snap: CsrSnapshot, cfg: BfsConfig, u: nat, v: nat)
    requires snap.Valid()
    ensures (u, v) in SearchEdges(snap, cfg) <==> Steps(snap.n, Behind(snap, cfg), cfg.edgeFilter, v, u)
  {
    StepsLists(snap.n, Ahead(snap, cfg), cfg.edgeFilter, u, v);
    StepsLists(snap.n, Behind(snap, cfg), cfg.edgeFilter, v, u);
    assert forall k :: Ahead(snap, cfg).Lists(snap.n, u, v, k) <==> Behind(snap, cfg).Lists(snap.n, v, u, k);
  }

  // ---------------------------------------------------------------- one layer

  /** Some frontier node has an edge to `v`. */
  ghost predicate Touched(E: Edges, current: set<nat>, v: nat) {
    exists u: nat :: u in current && (u, v) in E
  }

  /** What a layer does to one node. */
  ghost predicate NodeAdvanced(E: Edges, current: set<nat>, nd: nat, v: nat,
                               d0: Option<nat>, p0: Option<nat>, d1: Option<nat>, p1: Option<nat>, added: bool)
  {
    if d0.Some? || !Touched(E, current, v) then d1 == d0 && p1 == p0 && !added
    else d1 == Some(nd) && added && p1.Some? && p1.value in current && (p1.value, v) in E
  }

  /** What a layer does: exactly the unvisited nodes with a frontier predecessor get the new
      depth, one such predecessor as parent, and a place in the next frontier. */
  ghost predicate Layer(E: Edges, n: nat, current: set<nat>, nd: nat,
                        depth0: seq<Option<nat>>, parent0: seq<Option<nat>>,
                        depth1: seq<Option<nat>>, parent1: seq<Option<nat>>, next: set<nat>)
  {
    && |depth0| == |parent0| == |depth1| == |parent1| == n && next <= Below(n)
    && forall v: nat {:trigger depth1[v]} {:trigger v in next} :: v < n ==>
         NodeAdvanced(E, current, nd, v, depth0[v], parent0[v], depth1[v], parent1[v], v in next)
  }

  /** Whatever direction computed it, a layer has one outcome up to the choice of parents. */
  lemma LayerUnique(E: Edges, n: nat, current: set<nat>, nd: nat,
                    depth0: seq<Option<nat>>, parent0: seq<Option<nat>>,
                    depth1: seq<Option<nat>>, parent1: seq<Option<nat>>, next1: set<nat>,
                    depth2: seq<Option<nat>>, parent2: seq<Option<nat>>, next2: set<nat>)
    requires Layer(E, n, current, nd, depth0, parent0, depth1, parent1, next1)
    requires Layer(E, n, current, nd, depth0, parent0, depth2, parent2, next2)
    ensures depth1 == depth2 && next1 == next2
  {
    forall v: nat | v < n
      ensures depth1[v] == depth2[v] && (v in next1 <==> v in next2)
    {
    }
  }

  /** The edges a push has followed: all those of the expanded nodes and the first `i` entries
      of the row of `u`. */
  ghost function Followed(E: Edges, done: set<nat>, u: nat, cols: seq<nat>, kinds: seq<Tag>, filter: Option<seq<Tag>>,
      i: nat): Edges
    requires i <= |cols| == |kinds|
  {
    if i == 0 then set e | e in E && e.0 in done
    else
      Followed(E, done, u, cols, kinds, filter, i - 1)
      + if EdgeMatches(filter, kinds[i - 1]) then {(u, cols[i - 1])} else {}
  }

  lemma {:induction false} FollowedMembers(E: Edges, done: set<nat>, u: nat, cols: seq<nat>, kinds: seq<Tag>,
      filter: Option<seq<Tag>>, i: nat, e: (nat, nat))
    requires i <= |cols| == |kinds|
    ensures e in Followed(E, done, u, cols, kinds, filter, i) <==>
              (e in E && e.0 in done) || (e.0 == u && exists j ::
                  0 <= j < i && cols[j] == e.1 && EdgeMatches(filter, kinds[j]))
  {
    if i > 0 {
      FollowedMembers(E, done, u, cols, kinds, filter, i - 1, e);
    }
  }

  /** A fully expanded row leaves exactly the edges out of the expanded nodes. */
  lemma RowFollowed(snap: CsrSnapshot, cfg: BfsConfig, done: set<nat>, u: nat, e: (nat, nat))
    requires snap.Valid() && u < snap.n
    ensures var half := Ahead(snap, cfg); var E := SearchEdges(snap, cfg);
            (e in E && e.0 in done + {u}) <==>
            (e in Followed(E, done, u, half.Neighbours(u), half.Kinds(u), cfg.edgeFilter, |half.Neighbours(u)|)
                && e.0 in done + {u})
  {
    var half, E := Ahead(snap, cfg), SearchEdges(snap, cfg);
    FollowedMembers(E, done, u, half.Neighbours(u), half.Kinds(u), cfg.edgeFilter, |half.Neighbours(u)|, e);
    assert e == (e.0, e.1);
  }

  /** Follow one entry of a row, when it matches. */
  method PushEntry(n: nat, u: nat, neighbours: seq<nat>, kinds: seq<Tag>, filter: Option<seq<Tag>>, i: nat,
                   next: Frontier, depth: array<Option<nat>>, parent: array<Option<nat>>, newDepth: nat,
                   ghost E: Edges, ghost done: set<nat>, ghost depth0: seq<Option<nat>>,
                   ghost parent0: seq<Option<nat>>)
    requires i < |neighbours| == |kinds| && neighbours[i] < n
    requires next.Valid() && depth != parent && depth.Length == n == parent.Length
    requires Layer(Followed(E, done, u, neighbours, kinds, filter, i), n, done + {u}, newDepth,
                   depth0, parent0, depth[..], parent[..], next.Contents())
    modifies next, depth, parent
    ensures next.Valid()
    ensures Layer(Followed(E, done, u, neighbours, kinds, filter, i + 1), n, done + {u}, newDepth,
                  depth0, parent0, depth[..], parent[..], next.Contents())
  {
    ghost var part := Followed(E, done, u, neighbours, kinds, filter, i);
    if EdgeMatches(filter, kinds[i]) {
      VisitNeighbour(n, u, neighbours[i], next, depth, parent, newDepth, part, done + {u}, depth0, parent0);
    }
  }

  /** Follow the matching entries of one row. */
  method PushRow(n: nat, u: nat, neighbours: seq<nat>, kinds: seq<Tag>, filter: Option<seq<Tag>>, next: Frontier,
                 depth: array<Option<nat>>, parent: array<Option<nat>>, newDepth: nat,
                 ghost E: Edges, ghost done: set<nat>, ghost depth0: seq<Option<nat>>, ghost parent0: seq<Option<nat>>)
    requires |neighbours| == |kinds| && forall k :: 0 <= k < |neighbours| ==> neighbours[k] < n
    requires next.Valid() && depth != parent && depth.Length == n == parent.Length
    requires Layer(Followed(E, done, u, neighbours, kinds, filter, 0), n, done + {u}, newDepth,
                   depth0, parent0, depth[..], parent[..], next.Contents())
    modifies next, depth, parent
    ensures next.Valid()
    ensures Layer(Followed(E, done, u, neighbours, kinds, filter, |neighbours|), n, done + {u}, newDepth,
                  depth0, parent0, depth[..], parent[..], next.Contents())
  {
    for i := 0 to |neighbours|
      invariant next.Valid()
      invariant Layer(Followed(E, done, u, neighbours, kinds, filter, i), n, done + {u}, newDepth,
                      depth0, parent0, depth[..], parent[..], next.Contents())
    {
      PushEntry(n, u, neighbours, kinds, filter, i, next, depth, parent, newDepth, E, done, depth0, parent0);
    }
  }

  /** Expand one frontier node. */
  method PushVertex(snap: CsrSnapshot, cfg: BfsConfig, u: nat, next: Frontier,
                    depth: array<Option<nat>>, parent: array<Option<nat>>, newDepth: nat,
                    ghost done: set<nat>, ghost depth0: seq<Option<nat>>, ghost parent0: seq<Option<nat>>)
    requires snap.Valid() && u < snap.n && next.Valid() && depth != parent
    requires depth.Length == snap.n == parent.Length
    requires Layer(SearchEdges(snap, cfg), snap.n, done, newDepth, depth0, parent0, depth[..], parent[..],
        next.Contents())
    modifies next, depth, parent
    ensures next.Valid()
    ensures Layer(SearchEdges(snap, cfg), snap.n, done + {u}, newDepth, depth0, parent0, depth[..], parent[..],
        next.Contents())
  {
    ghost var E := SearchEdges(snap, cfg);
    var neighbours, kinds := Ahead(snap, cfg).Neighbours(u), Ahead(snap, cfg).Kinds(u);
    PartLayer(E, Followed(E, done, u, neighbours, kinds, cfg.edgeFilter, 0), snap.n, done, done + {u}, newDepth,
              depth0, parent0, depth[..], parent[..], next.Contents());
    PushRow(snap.n, u, neighbours, kinds, cfg.edgeFilter, next, depth, parent, newDepth, E, done, depth0, parent0);
    RowLayer(snap, cfg, done, u, newDepth, depth0, parent0, depth[..], parent[..], next.Contents());
  }

  /** After its last entry the row counts as expanded. */
  lemma RowLayer(snap: CsrSnapshot, cfg: BfsConfig, done: set<nat>, u: nat, nd: nat,
                 depth0: seq<Option<nat>>, parent0: seq<Option<nat>>,
                 depth: seq<Option<nat>>, parent: seq<Option<nat>>, next: set<nat>)
    requires snap.Valid() && u < snap.n
    requires var half := Ahead(snap, cfg);
             var F := Followed(SearchEdges(snap, cfg), done, u, half.Neighbours(u), half.Kinds(u), cfg.edgeFilter,
                 |half.Neighbours(u)|);
             Layer(F, snap.n, done + {u}, nd, depth0, parent0, depth, parent, next)
    ensures Layer(SearchEdges(snap, cfg), snap.n, done + {u}, nd, depth0, parent0, depth, parent, next)
  {
    var half, E := Ahead(snap, cfg), SearchEdges(snap, cfg);
    var F := Followed(E, done, u, half.Neighbours(u), half.Kinds(u), cfg.edgeFilter, |half.Neighbours(u)|);
    forall e: (nat, nat)
      ensures (e in E && e.0 in done + {u}) <==> (e in F && e.0 in done + {u})
    {
      RowFollowed(snap, cfg, done, u, e);
    }
    PartLayer(F, E, snap.n, done + {u}, done + {u}, nd, depth0, parent0, depth, parent, next);
  }

  /** A layer only sees edges that leave its frontier. */
  lemma PartLayer(E: Edges, F: Edges, n: nat, C: set<nat>, D: set<nat>, nd: nat,
                  depth0: seq<Option<nat>>, parent0: seq<Option<nat>>,
                  depth1: seq<Option<nat>>, parent1: seq<Option<nat>>, next: set<nat>)
    requires Layer(E, n, C, nd, depth0, parent0, depth1, parent1, next)
    requires forall e :: (e in E && e.0 in C) <==> (e in F && e.0 in D)
    ensures Layer(F, n, D, nd, depth0, parent0, depth1, parent1, next)
  {
    forall v: nat | v < n
      ensures NodeAdvanced(F, D, nd, v, depth0[v], parent0[v], depth1[v], parent1[v], v in next)
    {
      assert NodeAdvanced(E, C, nd, v, depth0[v], parent0[v], depth1[v], parent1[v], v in next);
      if Touched(E, C, v) {
        var u: nat :| u in C && (u, v) in E;
        var e := (u, v);
        assert e in F && e.0 in D;
      }
      if Touched(F, D, v) {
        var u: nat :| u in D && (u, v) in F;
        var e := (u, v);
        assert e in E && e.0 in C;
      }
      if p: nat :| p in C && (p, v) in E && parent1[v] == Some(p) {
        var e := (p, v);
        assert e in F && e.0 in D;
      }
    }
  }

  method VisitNeighbour(n: nat, u: nat, v: nat, next: Frontier, depth: array<Option<nat>>, parent: array<Option<nat>>,
                        newDepth: nat, ghost part: Edges, ghost C: set<nat>,
                        ghost depth0: seq<Option<nat>>, ghost parent0: seq<Option<nat>>)
    requires v < n && u in C && next.Valid() && depth != parent && depth.Length == n == parent.Length
    requires Layer(part, n, C, newDepth, depth0, parent0, depth[..], parent[..], next.Contents())
    modifies next, depth, parent
    ensures next.Valid()
    ensures Layer(part + {(u, v)}, n, C, newDepth, depth0, parent0, depth[..], parent[..], next.Contents())
  {
    ghost var d, p, c := depth[..], parent[..], next.Contents();
    LayerEdge(part, n, C, newDepth, depth0, parent0, d, p, c, u, v);
    if depth[v].None? {
      depth[v], parent[v] := Some(newDepth), Some(u);
      next.Insert(v);
      assert depth[..] == d[v := Some(newDepth)] && parent[..] == p[v := Some(u)];
    }
  }

  lemma LayerEdge(part: Edges, n: nat, C: set<nat>, nd: nat,
                  depth0: seq<Option<nat>>, parent0: seq<Option<nat>>,
                  d: seq<Option<nat>>, p: seq<Option<nat>>, next: set<nat>, u: nat, v: nat)
    requires v < n && u in C && Layer(part, n, C, nd, depth0, parent0, d, p, next)
    ensures if d[v].None? then Layer(part + {(u, v)}, n, C, nd, depth0, parent0, d[v := Some(nd)], p[v := Some(u)],
        next + {v})
            else Layer(part + {(u, v)}, n, C, nd, depth0, parent0, d, p, next)
  {
    var F := part + {(u, v)};
    forall w: nat | w < n
      ensures Touched(F, C, w) <==> Touched(part, C, w) || w == v
    {
      assert (u, v) in F;
      if x: nat :| x in C && (x, w) in part {
        assert (x, w) in F;
      }
    }
    if d[v].None? {
      forall w: nat | w < n
        ensures NodeAdvanced(F, C, nd, w, depth0[w], parent0[w], d[v := Some(nd)][w], p[v := Some(u)][w],
            w in next + {v})
      {
        assert NodeAdvanced(part, C, nd, w, depth0[w], parent0[w], d[w], p[w], w in next);
      }
    } else {
      forall w: nat | w < n
        ensures NodeAdvanced(F, C, nd, w, depth0[w], parent0[w], d[w], p[w], w in next)
      {
        assert NodeAdvanced(part, C, nd, w, depth0[w], parent0[w], d[w], p[w], w in next);
      }
    }
  }

  lemma LayerStart(E: Edges, n: nat, nd: nat, depth: seq<Option<nat>>, parent: seq<Option<nat>>)
    requires |depth| == n == |parent|
    ensures Layer(E, n, {}, nd, depth, parent, depth, parent, {})
  {
  }

  lemma MembersStep(vs: seq<nat>, i: nat)
    requires i < |vs|
    ensures Members(vs[..i + 1]) == Members(vs[..i]) + {vs[i]}
  {
    assert vs[..i + 1] == vs[..i] + [vs[i]];
  }

  /** Expand listed nodes one after the other. */
  method PushAll(snap: CsrSnapshot, cfg: BfsConfig, vs: seq<nat>, next: Frontier,
                 depth: array<Option<nat>>, parent: array<Option<nat>>, newDepth: nat)
    requires snap.Valid() && next.Valid() && depth != parent && depth.Length == snap.n == parent.Length
    requires next.Contents() == {} && forall k :: 0 <= k < |vs| ==> vs[k] < snap.n
    modifies next, depth, parent
    ensures next.Valid()
    ensures Layer(SearchEdges(snap, cfg), snap.n, Members(vs), newDepth,
                  old(depth[..]), old(parent[..]), depth[..], parent[..], next.Contents())
  {
    LayerStart(SearchEdges(snap, cfg), snap.n, newDepth, depth[..], parent[..]);
    assert Members(vs[..0]) == {};
    var i := 0;
    while i < |vs|
      invariant 0 <= i <= |vs| && next.Valid()
      invariant Layer(SearchEdges(snap, cfg), snap.n, Members(vs[..i]), newDepth,
                      old(depth[..]), old(parent[..]), depth[..], parent[..], next.Contents())
    {
      PushVertex(snap, cfg, vs[i], next, depth, parent, newDepth, Members(vs[..i]), old(depth[..]), old(parent[..]));
      MembersStep(vs, i);
      i := i + 1;
    }
    assert vs[..i] == vs;
  }

  method PushStep(snap: CsrSnapshot, cfg: BfsConfig, current: Frontier, next: Frontier,
                  depth: array<Option<nat>>, parent: array<Option<nat>>, newDepth: nat)
    requires snap.Valid() && current.Valid() && next.Valid() && current != next && depth != parent
    requires depth.Length == snap.n == parent.Length
    requires current.Contents() <= Below(snap.n) && next.Contents() == {}
    modifies next, depth, parent
    ensures next.Valid()
    ensures Layer(SearchEdges(snap, cfg), snap.n, current.Contents(), newDepth,
                  old(depth[..]), old(parent[..]), depth[..], parent[..], next.Contents())
  {
    var vs := current.Iter();
    assert Members(vs) == current.Contents();
    assert forall k :: 0 <= k < |vs| ==> vs[k] in vs;
    PushAll(snap, cfg, vs, next, depth, parent, newDepth);
  }

  /** Scan the row behind `v` for a frontier member. */
  method PullVertex(snap: CsrSnapshot, cfg: BfsConfig, current: Frontier, v: nat) returns (found: Option<nat>)
    requires snap.Valid() && v < snap.n
    ensures found.None? ==> !Touched(SearchEdges(snap, cfg), current.Contents(), v)
    ensures found.Some? ==> found.value in current.Contents() && (found.value, v) in SearchEdges(snap, cfg)
  {
    var half := Behind(snap, cfg);
    var preds, kinds := half.Neighbours(v), half.Kinds(v);
    var i := 0;
    while i < |preds|
      invariant 0 <= i <= |preds|
      invariant forall j :: 0 <= j < i && EdgeMatches(cfg.edgeFilter, kinds[j]) ==> preds[j] !in current.Contents()
    {
      if EdgeMatches(cfg.edgeFilter, kinds[i]) && current.Contains(preds[i]) {
        SearchEdgesBehind(snap, cfg, preds[i], v);
        return Some(preds[i]);
      }
      i := i + 1;
    }
    forall u: nat | u in current.Contents()
      ensures (u, v) !in SearchEdges(snap, cfg)
    {
      SearchEdgesBehind(snap, cfg, u, v);
    }
    found := None;
  }

  method PullOne(snap: CsrSnapshot, cfg: BfsConfig, current: Frontier, v: nat, next: Frontier,
                 depth: array<Option<nat>>, parent: array<Option<nat>>, newDepth: nat)
    requires snap.Valid() && v < snap.n && next.Valid() && current != next && depth != parent
    requires depth.Length == snap.n == parent.Length && v !in next.Contents()
    modifies next, depth, parent
    ensures next.Valid() && next.Contents() - {v} == old(next.Contents())
    ensures forall w :: 0 <= w < snap.n && w != v ==> depth[w] == old(depth[w]) && parent[w] == old(parent[w])
    ensures NodeAdvanced(SearchEdges(snap, cfg), current.Contents(), newDepth, v,
                         old(depth[v]), old(parent[v]), depth[v], parent[v], v in next.Contents())
  {
    if depth[v].None? {
      var found := PullVertex(snap, cfg, current, v);
      if found.Some? {
        depth[v], parent[v] := Some(newDepth), found;
        next.Insert(v);
      }
    }
  }

  /** A pull in progress: nodes below `v` have been looked at. */
  ghost predicate PulledTo(E: Edges, n: nat, C: set<nat>, nd: nat, v: nat,
                           depth0: seq<Option<nat>>, parent0: seq<Option<nat>>,
                           depth: seq<Option<nat>>, parent: seq<Option<nat>>, next: set<nat>)
  {
    && |depth0| == |parent0| == |depth| == |parent| == n && v <= n && next <= Below(v)
    && (forall w: nat {:trigger depth[w]} :: w < v ==>
          NodeAdvanced(E, C, nd, w, depth0[w], parent0[w], depth[w], parent[w], w in next))
    && (forall w: nat {:trigger depth[w]} :: v <= w < n ==> depth[w] == depth0[w] && parent[w] == parent0[w])
  }

  lemma PulledOne(E: Edges, n: nat, C: set<nat>, nd: nat, v: nat,
                  depth0: seq<Option<nat>>, parent0: seq<Option<nat>>,
                  depth: seq<Option<nat>>, parent: seq<Option<nat>>, next: set<nat>,
                  depth': seq<Option<nat>>, parent': seq<Option<nat>>, next': set<nat>)
    requires v < n && PulledTo(E, n, C, nd, v, depth0, parent0, depth, parent, next)
    requires |depth'| == |parent'| == n && next' - {v} == next
    requires forall w :: 0 <= w < n && w != v ==> depth'[w] == depth[w] && parent'[w] == parent[w]
    requires NodeAdvanced(E, C, nd, v, depth[v], parent[v], depth'[v], parent'[v], v in next')
    ensures PulledTo(E, n, C, nd, v + 1, depth0, parent0, depth', parent', next')
  {
    forall w: nat | w < v
      ensures NodeAdvanced(E, C, nd, w, depth0[w], parent0[w], depth'[w], parent'[w], w in next')
    {
      assert depth'[w] == depth[w];
      assert w in next <==> w in next' - {v};
    }
    forall w | w in next'
      ensures w in Below(v + 1)
    {
      assert w == v || w in next;
    }
  }

  method PullStep(snap: CsrSnapshot, cfg: BfsConfig, current: Frontier, next: Frontier,
                  depth: array<Option<nat>>, parent: array<Option<nat>>, newDepth: nat)
    requires snap.Valid() && current.Valid() && next.Valid() && current != next && depth != parent
    requires depth.Length == snap.n == parent.Length
    requires current.Contents() <= Below(snap.n) && next.Contents() == {}
    modifies next, depth, parent
    ensures next.Valid()
    ensures Layer(SearchEdges(snap, cfg), snap.n, current.Contents(), newDepth,
                  old(depth[..]), old(parent[..]), depth[..], parent[..], next.Contents())
  {
    var v := 0;
    while v < snap.n
      invariant 0 <= v <= snap.n && next.Valid()
      invariant PulledTo(SearchEdges(snap, cfg), snap.n, current.Contents(), newDepth, v,
                         old(depth[..]), old(parent[..]), depth[..], parent[..], next.Contents())
    {
      ghost var d, p, c := depth[..], parent[..], next.Contents();
      PullOne(snap, cfg, current, v, next, depth, parent, newDepth);
      PulledOne(SearchEdges(snap, cfg), snap.n, current.Contents(), newDepth, v, old(depth[..]), old(parent[..]),
                d, p, c, depth[..], parent[..], next.Contents());
      v := v + 1;
    }
  }

  // ---------------------------------------------------------------- the whole search

  /** The rule of the heuristic: a push turns into a pull when the frontier has more edges than a 14th of
      all, a pull into a push when it has fewer nodes than a 24th of all. */
  ghost predicate Picked(half: Half, n: nat, m: nat, current: Direction, frontier: set<nat>, d: Direction) {
    exists work: nat ::
      && IsWorkload(RowDegrees(half), frontier, work)
      && (n == 0 ==> d == Push)
      && (n > 0 && current == Push ==> (d == Pull <==> work > (if m == 0 then 1 else m) / 14))
      && (n > 0 && current == Pull ==> (d == Push <==> |frontier| < n / 24))
  }

  /** The degrees along the search direction. */
  function RowDegrees(half: Half): (deg: nat -> nat)
    ensures forall v: nat :: v + 1 < |half.ptrs| && half.ptrs[v] <= half.ptrs[v + 1] <= |half.cols| ==>
              deg(v) == |half.Neighbours(v)|
  {
    (v: nat) => if v + 1 < |half.ptrs| && half.ptrs[v] <= half.ptrs[v + 1] then half.Degree(v) else 0
  }

  /** The switching heuristic, by the summed degrees and the size of the frontier. Nothing the
      search guarantees depends on its answer. */
  method PickDirection(current: Direction, frontier: Frontier, snap: CsrSnapshot, cfg: BfsConfig)
    returns (d: Direction)
    requires snap.Valid() && frontier.Valid()
    ensures Picked(if cfg.reverse then snap.incoming else snap.outgoing, snap.n, snap.m, current,
                   frontier.Contents(), d)
  {
    var m := if snap.m == 0 then 1 else snap.m;
    var frontierEdges := frontier.PushWorkload(RowDegrees(Ahead(snap, cfg)));
    match current {
      case Push => d := if frontierEdges > m / ALPHA then Pull else Push;
      case Pull => d := if frontier.Len() < snap.n / BETA then Push else Pull;
    }
    d := if snap.n == 0 then Push else d;
    assert IsWorkload(RowDegrees(Ahead(snap, cfg)), frontier.Contents(), frontierEdges);
  }

  /** Depths up to `d` are exact distances, nothing beyond is visited, and `frontier` is the
      layer at distance `d`. */
  ghost predicate Explored(E: Edges, n: nat, src: nat, d: nat, depth: seq<Option<nat>>, parent: seq<Option<nat>>) {
    && |depth| == n == |parent|
    && (forall v: nat {:trigger depth[v]} :: v < n ==> (depth[v].Some? <==> Within(E, src, v, d)))
    && (forall v: nat {:trigger depth[v]} :: v < n && depth[v].Some? ==> Distance(E, src, v, depth[v].value))
    && (forall v: nat {:trigger ParentOk(E, n, src, v, depth, parent)} :: v < n ==>
        ParentOk(E, n, src, v, depth, parent))
  }

  /** A visited node other than the source hangs under a node one level up. */
  ghost predicate ParentOk(E: Edges, n: nat, src: nat, v: nat, depth: seq<Option<nat>>, parent: seq<Option<nat>>)
    requires v < n == |depth| == |parent|
  {
    if depth[v].None? || v == src then parent[v].None?
    else
      && parent[v].Some? && parent[v].value < n && (parent[v].value, v) in E
      && depth[parent[v].value].Some? && depth[v].value == depth[parent[v].value].value + 1
  }

  ghost predicate AtLevel(E: Edges, n: nat, src: nat, d: nat, current: set<nat>) {
    forall v: nat :: v in current <==> v < n && Distance(E, src, v, d)
  }

  ghost predicate NoLevel(E: Edges, n: nat, src: nat, d: nat) {
    forall v: nat :: v < n ==> !Distance(E, src, v, d)
  }

  lemma SourceWithin(E: Edges, src: nat, d: nat)
    ensures Within(E, src, src, d)
  {
    PathRefl(E, src);
    WithinMonotone(E, src, src, 0, d);
  }

  lemma LayerTouches(E: Edges, n: nat, src: nat, d: nat, current: set<nat>, v: nat)
    requires Bounded(E, n) && src < n && AtLevel(E, n, src, d, current) && !Within(E, src, v, d)
    ensures Touched(E, current, v) <==> Within(E, src, v, d + 1)
    ensures Touched(E, current, v) ==> Distance(E, src, v, d + 1)
  {
    WithinUnfold(E, src, v, d);
    SourceWithin(E, src, d);
    if Within(E, src, v, d + 1) {
      var u := WithinLast(E, src, v, d);
      if d > 0 && Within(E, src, u, d - 1) {
        WithinStep(E, src, u, v, d - 1);
      }
      assert u in current;
    }
    if Touched(E, current, v) {
      var u: nat :| u in current && (u, v) in E;
      WithinStep(E, src, u, v, d);
    }
  }

  lemma ExploredNext(E: Edges, n: nat, src: nat, d: nat, current: set<nat>,
                     depth0: seq<Option<nat>>, parent0: seq<Option<nat>>,
                     depth1: seq<Option<nat>>, parent1: seq<Option<nat>>, next: set<nat>)
    requires Bounded(E, n) && src < n
    requires Explored(E, n, src, d, depth0, parent0) && AtLevel(E, n, src, d, current)
    requires Layer(E, n, current, d + 1, depth0, parent0, depth1, parent1, next)
    ensures Explored(E, n, src, d + 1, depth1, parent1)
    ensures AtLevel(E, n, src, d + 1, next)
  {
    forall v: nat | v < n
      ensures depth1[v].Some? <==> Within(E, src, v, d + 1)
      ensures depth1[v].Some? ==> Distance(E, src, v, depth1[v].value)
      ensures v in next <==> Distance(E, src, v, d + 1)
    {
      ExploredNode(E, n, src, d, current, depth0, parent0, depth1, parent1, next, v);
    }
    forall v: nat | v < n
      ensures ParentOk(E, n, src, v, depth1, parent1)
    {
      ParentNext(E, n, src, d, current, depth0, parent0, depth1, parent1, next, v);
    }
  }

  lemma ExploredNode(E: Edges, n: nat, src: nat, d: nat, current: set<nat>,
                     depth0: seq<Option<nat>>, parent0: seq<Option<nat>>,
                     depth1: seq<Option<nat>>, parent1: seq<Option<nat>>, next: set<nat>, v: nat)
    requires Bounded(E, n) && src < n && v < n
    requires Explored(E, n, src, d, depth0, parent0) && AtLevel(E, n, src, d, current)
    requires Layer(E, n, current, d + 1, depth0, parent0, depth1, parent1, next)
    ensures depth1[v].Some? <==> Within(E, src, v, d + 1)
    ensures depth1[v].Some? ==> Distance(E, src, v, depth1[v].value)
    ensures v in next <==> Distance(E, src, v, d + 1)
  {
    assert NodeAdvanced(E, current, d + 1, v, depth0[v], parent0[v], depth1[v], parent1[v], v in next);
    if depth0[v].Some? {
      WithinMonotone(E, src, v, d, d + 1);
    } else {
      LayerTouches(E, n, src, d, current, v);
    }
  }

  lemma ParentNext(E: Edges, n: nat, src: nat, d: nat, current: set<nat>,
                   depth0: seq<Option<nat>>, parent0: seq<Option<nat>>,
                   depth1: seq<Option<nat>>, parent1: seq<Option<nat>>, next: set<nat>, v: nat)
    requires Bounded(E, n) && src < n && v < n
    requires Explored(E, n, src, d, depth0, parent0) && AtLevel(E, n, src, d, current)
    requires Layer(E, n, current, d + 1, depth0, parent0, depth1, parent1, next)
    ensures ParentOk(E, n, src, v, depth1, parent1)
  {
    assert NodeAdvanced(E, current, d + 1, v, depth0[v], parent0[v], depth1[v], parent1[v], v in next);
    assert ParentOk(E, n, src, v, depth0, parent0);
    if depth0[v].None? && depth1[v].Some? {
      var u := parent1[v].value;
      assert Within(E, src, u, d) && depth0[u].Some?;
      assert NodeAdvanced(E, current, d + 1, u, depth0[u], parent0[u], depth1[u], parent1[u], u in next);
      DistanceWithin(E, src, u, depth0[u].value, d);
      DistanceWithin(E, src, u, d, depth0[u].value);
      SourceWithin(E, src, d);
    } else if depth0[v].Some? && v != src {
      var u := parent0[v].value;
      assert NodeAdvanced(E, current, d + 1, u, depth0[u], parent0[u], depth1[u], parent1[u], u in next);
    }
  }

  /** An empty layer ends the search: nothing lies farther away. */
  lemma {:induction false} NothingBeyond(E: Edges, n: nat, src: nat, d: nat, k: nat, v: nat)
    requires Bounded(E, n) && src < n && v < n && NoLevel(E, n, src, d)
    requires Within(E, src, v, d + k)
    ensures Within(E, src, v, d)
    decreases k
  {
    if !Within(E, src, v, d) {
      assert k > 0;
      if Within(E, src, v, d + k - 1) {
        NothingBeyond(E, n, src, d, k - 1, v);
      } else {
        SourceWithin(E, src, d);
        var u := WithinLast(E, src, v, d + k - 1);
        NothingBeyond(E, n, src, d, k - 1, u);
        var du := DistanceExists(E, src, u);
        DistanceWithin(E, src, u, du, d);
        if du < d {
          WithinMonotone(E, src, u, du, d - 1);
          WithinStep(E, src, u, v, d - 1);
        }
      }
    }
  }

  /** Depths are distances over the edges passing the filter, up to the bound; parents form
      a tree of such edges. */
  ghost predicate Correct(E: Edges, n: nat, src: nat, maxDepth: nat, r: BfsResult) {
    && |r.depth| == n == |r.parent|
    && (forall v: nat, k: nat :: v < n ==> (r.depth[v] == Some(k) <==> k <= maxDepth && Distance(E, src, v, k)))
    && (forall v: nat :: v < n ==> ParentOk(E, n, src, v, r.depth, r.parent))
    && (forall v: nat :: v < n && r.depth[v].Some? ==> r.depth[v].value <= r.maxDepthReached)
    && (if src < n then exists v: nat :: v < n && r.depth[v] == Some(r.maxDepthReached) else r.maxDepthReached == 0)
  }

  lemma FinishedCorrect(E: Edges, n: nat, src: nat, maxDepth: nat, d: nat, r: BfsResult, top: nat)
    requires Bounded(E, n) && src < n && Explored(E, n, src, d, r.depth, r.parent) && d <= maxDepth
    requires d < maxDepth ==> NoLevel(E, n, src, d + 1)
    requires r.maxDepthReached == d && top < n && Distance(E, src, top, d)
    ensures Correct(E, n, src, maxDepth, r)
  {
    forall v: nat, k: nat | v < n
      ensures r.depth[v] == Some(k) <==> k <= maxDepth && Distance(E, src, v, k)
      ensures r.depth[v] == Some(k) ==> k <= d
    {
      if r.depth[v].Some? {
        DistanceWithin(E, src, v, r.depth[v].value, d);
      }
      if k <= maxDepth && Distance(E, src, v, k) {
        if d < maxDepth {
          WithinMonotone(E, src, v, k, d + 1 + k);
          NothingBeyond(E, n, src, d + 1, k, v);
          DistanceWithin(E, src, v, k, d + 1);
        }
        WithinMonotone(E, src, v, k, d);
        DistanceWithin(E, src, v, k, r.depth[v].value);
        DistanceWithin(E, src, v, r.depth[v].value, k);
      }
    }
    assert r.depth[top] == Some(d);
  }

  lemma StartExplored(E: Edges, n: nat, src: nat, depth: seq<Option<nat>>, parent: seq<Option<nat>>)
    requires src < n == |depth| == |parent|
    requires forall v :: 0 <= v < n ==> parent[v] == None && depth[v] == if v == src then Some(0) else None
    ensures Explored(E, n, src, 0, depth, parent) && AtLevel(E, n, src, 0, {src})
  {
    forall v: nat
      ensures Within(E, src, v, 0) <==> v == src
    {
      WithinUnfold(E, src, v, 0);
    }
    forall v: nat | v < n
      ensures ParentOk(E, n, src, v, depth, parent)
    {
      assert depth[v] == if v == src then Some(0) else None;
    }
  }

  method Expand(direction: Direction, snap: CsrSnapshot, cfg: BfsConfig, current: Frontier, next: Frontier,
                depth: array<Option<nat>>, parent: array<Option<nat>>, newDepth: nat)
    requires snap.Valid() && current.Valid() && next.Valid() && current != next && depth != parent
    requires depth.Length == snap.n == parent.Length
    requires current.Contents() <= Below(snap.n) && next.Contents() == {}
    modifies next, depth, parent
    ensures next.Valid()
    ensures Layer(SearchEdges(snap, cfg), snap.n, current.Contents(), newDepth,
                  old(depth[..]), old(parent[..]), depth[..], parent[..], next.Contents())
  {
    match direction
    case Push => PushStep(snap, cfg, current, next, depth, parent, newDepth);
    case Pull => PullStep(snap, cfg, current, next, depth, parent, newDepth);
  }

  /** The search state between layers. An empty frontier means the layer after `d` is empty. */
  ghost predicate Searching(E: Edges, n: nat, src: nat, d: nat, depth: seq<Option<nat>>, parent: seq<Option<nat>>,
                            current: set<nat>, top: nat)
  {
    && Explored(E, n, src, d, depth, parent)
    && (if current == {} then NoLevel(E, n, src, d + 1) else AtLevel(E, n, src, d, current))
    && top < n && Distance(E, src, top, d)
  }

  lemma SearchAdvances(E: Edges, n: nat, src: nat, d: nat, current: set<nat>, top: nat,
                       depth0: seq<Option<nat>>, parent0: seq<Option<nat>>,
                       depth1: seq<Option<nat>>, parent1: seq<Option<nat>>, next: set<nat>) returns (top': nat)
    requires Bounded(E, n) && src < n && current != {} && Searching(E, n, src, d, depth0, parent0, current, top)
    requires Layer(E, n, current, d + 1, depth0, parent0, depth1, parent1, next)
    ensures Searching(E, n, src, if next == {} then d else d + 1, depth1, parent1, next, top')
  {
    ExploredNext(E, n, src, d, current, depth0, parent0, depth1, parent1, next);
    if next == {} {
      EmptyLayerKeeps(E, n, src, d, depth1, parent1);
      top' := top;
    } else {
      top' :| top' in next;
    }
  }

  /** One layer: expand in some direction, then swap the frontiers. */
  method Advance(direction: Direction, snap: CsrSnapshot, source: nat, cfg: BfsConfig, current: Frontier,
      next: Frontier,
                 depth: array<Option<nat>>, parent: array<Option<nat>>, currentDepth: nat, ghost top: nat)
    returns (ghost newTop: nat)
    requires snap.Valid() && source < snap.n && current.Valid() && next.Valid() && current != next && depth != parent
    requires depth.Length == snap.n == parent.Length
    requires current.Contents() != {} && next.Contents() == {}
    requires Searching(SearchEdges(snap, cfg), snap.n, source, currentDepth, depth[..], parent[..],
        current.Contents(), top)
    modifies next, depth, parent
    ensures next.Valid()
    ensures Searching(SearchEdges(snap, cfg), snap.n, source,
        if next.Contents() == {} then currentDepth else currentDepth + 1,
                      depth[..], parent[..], next.Contents(), newTop)
  {
    ghost var d, p, c := depth[..], parent[..], current.Contents();
    assert c <= Below(snap.n);
    Expand(direction, snap, cfg, current, next, depth, parent, currentDepth + 1);
    newTop := SearchAdvances(SearchEdges(snap, cfg), snap.n, source, currentDepth, c, top, d, p, depth[..],
        parent[..], next.Contents());
  }

  /** How the direction of each layer is chosen: by workload, or by any function of the layer. */
  datatype Policy = ByWorkload | Chosen(choose: nat -> Direction)

  method NextDirection(policy: Policy, layer: nat, direction: Direction, current: Frontier, snap: CsrSnapshot,
                       cfg: BfsConfig) returns (next: Direction)
    requires snap.Valid() && current.Valid() && current.Contents() <= Below(snap.n)
    ensures policy.Chosen? ==> next == policy.choose(layer)
    ensures policy.ByWorkload? ==>
              Picked(if cfg.reverse then snap.incoming else snap.outgoing, snap.n, snap.m, direction,
                     current.Contents(), next)
  {
    match policy
    case ByWorkload => next := PickDirection(direction, current, snap, cfg);
    case Chosen(choose) => next := choose(layer);
  }

  /** A layer of the search, seen from the loop. */
  method LoopBody(policy: Policy, layer: nat, direction: Direction, snap: CsrSnapshot, source: nat, cfg: BfsConfig,
                  current: Frontier, next: Frontier, depth: array<Option<nat>>, parent: array<Option<nat>>,
                  currentDepth: nat, ghost top: nat) returns (taken: Direction, newDepth: nat, ghost newTop: nat)
    requires snap.Valid() && source < snap.n && current.Valid() && next.Valid() && current != next && depth != parent
    requires depth.Length == snap.n == parent.Length
    requires current.Contents() != {} && next.Contents() == {}
    requires Searching(SearchEdges(snap, cfg), snap.n, source, currentDepth, depth[..], parent[..],
        current.Contents(), top)
    modifies next, depth, parent
    ensures next.Valid() && newDepth == currentDepth + if next.Contents() == {} then 0 else 1
    ensures Searching(SearchEdges(snap, cfg), snap.n, source, newDepth, depth[..], parent[..], next.Contents(), newTop)
  {
    assert current.Contents() <= Below(snap.n);
    taken := NextDirection(policy, layer, direction, current, snap, cfg);
    newTop := Advance(taken, snap, source, cfg, current, next, depth, parent, currentDepth, top);
    newDepth := if next.IsEmpty() then currentDepth else currentDepth + 1;
  }

  /** The search from one source, whatever direction each layer takes. */
  method Layers(policy: Policy, snap: CsrSnapshot, source: nat, cfg: BfsConfig, depth: array<Option<nat>>,
                parent: array<Option<nat>>) returns (r: BfsResult)
    requires snap.Valid() && source < snap.n && depth != parent && depth.Length == snap.n == parent.Length
    requires forall v :: 0 <= v < snap.n ==> parent[v] == None && depth[v] == if v == source then Some(0) else None
    modifies depth, parent
    ensures Correct(SearchEdges(snap, cfg), snap.n, source, cfg.maxDepth, r)
  {
    var n := snap.n;
    var current := new Frontier.Singleton(n, source);
    var next := new Frontier.New(n);
    var layer, currentDepth := 0, 0;
    var direction := Push;
    StartExplored(SearchEdges(snap, cfg), n, source, depth[..], parent[..]);
    ghost var top := source;
    SourceWithin(SearchEdges(snap, cfg), source, 0);
    while !current.IsEmpty() && currentDepth < cfg.maxDepth
      invariant fresh(current) && fresh(next) && current != next && current.Valid() && next.Valid()
      invariant next.Contents() == {} && currentDepth <= cfg.maxDepth
      invariant Searching(SearchEdges(snap, cfg), n, source, currentDepth, depth[..], parent[..], current.Contents(),
          top)
      decreases cfg.maxDepth - currentDepth, current.Contents()
    {
      direction, currentDepth, top :=
        LoopBody(policy, layer, direction, snap, source, cfg, current, next, depth, parent, currentDepth, top);
      layer := layer + 1;
      current, next := next, current;
      next.Clear();
    }
    r := BfsResult(depth[..], parent[..], currentDepth);
    FinishedCorrect(SearchEdges(snap, cfg), n, source, cfg.maxDepth, currentDepth, r, top);
  }

  /** BFS from one source, for every policy, hence for every sequence of push and pull layers. */
  method Search(policy: Policy, snap: CsrSnapshot, source: nat, cfg: BfsConfig) returns (r: BfsResult)
    requires snap.Valid()
    ensures Correct(SearchEdges(snap, cfg), snap.n, source, cfg.maxDepth, r)
  {
    var n := snap.n;
    var depth := new Option<nat>[n](_ => None);
    var parent := new Option<nat>[n](_ => None);
    if n == 0 || source >= n {
      r := BfsResult(depth[..], parent[..], 0);
      OutsideCorrect(SearchEdges(snap, cfg), n, source, cfg.maxDepth, r);
      return;
    }
    depth[source] := Some(0);
    r := Layers(policy, snap, source, cfg, depth, parent);
  }

  /** Direction-optimised BFS: each layer goes the way its workload suggests. */
  method Bfs(snap: CsrSnapshot, source: nat, cfg: BfsConfig) returns (r: BfsResult)
    requires snap.Valid()
    ensures Correct(SearchEdges(snap, cfg), snap.n, source, cfg.maxDepth, r)
  {
    r := Search(ByWorkload, snap, source, cfg);
  }

  /** Correct results differ in the choice of parents only: no depth depends on the directions. */
  lemma DirectionsAgree(E: Edges, n: nat, src: nat, maxDepth: nat, a: BfsResult, b: BfsResult)
    requires Correct(E, n, src, maxDepth, a) && Correct(E, n, src, maxDepth, b)
    ensures a.depth == b.depth
    ensures a.maxDepthReached == b.maxDepthReached
  {
    forall v: nat | v < n
      ensures a.depth[v] == b.depth[v]
    {
      if a.depth[v].Some? {
        assert a.depth[v] == Some(a.depth[v].value);
      }
      if b.depth[v].Some? {
        assert b.depth[v] == Some(b.depth[v].value);
      }
    }
  }

  lemma EmptyLayerKeeps(E: Edges, n: nat, src: nat, d: nat, depth: seq<Option<nat>>, parent: seq<Option<nat>>)
    requires Bounded(E, n) && src < n && Explored(E, n, src, d + 1, depth, parent) && NoLevel(E, n, src, d + 1)
    ensures Explored(E, n, src, d, depth, parent)
  {
    forall v: nat | v < n
      ensures Within(E, src, v, d + 1) <==> Within(E, src, v, d)
    {
      if Within(E, src, v, d) {
        WithinMonotone(E, src, v, d, d + 1);
      }
      assert !Distance(E, src, v, d + 1);
    }
  }

  lemma OutsideCorrect(E: Edges, n: nat, src: nat, maxDepth: nat, r: BfsResult)
    requires Bounded(E, n) && n <= src && |r.depth| == n == |r.parent| && r.maxDepthReached == 0
    requires forall v :: 0 <= v < n ==> r.depth[v] == None && r.parent[v] == None
    ensures Correct(E, n, src, maxDepth, r)
  {
    forall v: nat, k: nat | v < n
      ensures !Distance(E, src, v, k)
    {
      if Distance(E, src, v, k) {
        WithinMonotone(E, src, v, k, k);
        ReachBounded(E, n, src, v);
      }
    }
  }
}
