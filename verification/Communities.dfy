/** Louvain community detection: the undirected projection, the levels, and the reported score. */
module Communities {
  import opened Coarsening
  import opened Graphs
  import LocalMoves
  import opened Modularity
  import opened Shuffle
  import opened Sorting
  import opened StoredGraph
  import opened Sums
  import opened Tallies

  const MAX_LEVELS: nat := 10

  // ---------------------------------------------------------------- the undirected projection

  predicate IsCall(kind: EdgeKind) {
    kind.Calls? || kind.UnresolvedCall?
  }

  /** An edge that joins two slots in the projection: a resolved or unresolved call in either direction. */
  ghost predicate Joins(e: Edge, s: nat, t: nat) {
    && (e.kind.Calls? || e.kind.UnresolvedCall?)
    && e.src != e.dst && ((e.src == s && e.dst == t) || (e.src == t && e.dst == s))
  }

  /** The total weight of the call edges between two slots. */
  ghost function Between(edges: seq<Edge>, s: nat, t: nat): real {
    if edges == [] then 0.0
    else
      var last := edges[|edges| - 1];
      Between(edges[..|edges| - 1], s, t) + if Joins(last, s, t) then last.weight else 0.0
  }

  lemma {:induction false} BetweenSymmetric(edges: seq<Edge>, s: nat, t: nat)
    ensures Between(edges, s, t) == Between(edges, t, s)
    ensures Between(edges, s, s) == 0.0
  {
    if edges != [] {
      BetweenSymmetric(edges[..|edges| - 1], s, t);
    }
  }

  ghost predicate RowsValid(adj: Adj) {
    forall i: nat :: i < |adj| ==> RowValid(adj[i], |adj|)
  }

  ghost predicate WeightsNonNegative(edges: seq<Edge>) {
    forall k :: 0 <= k < |edges| ==> edges[k].weight >= 0.0
  }

  /** Lists `j` in the row of `i`. */
  method AddEntry(adj: Adj, i: nat, j: nat, w: real) returns (next: Adj)
    requires RowsValid(adj) && i < |adj| && j < |adj|
    ensures |next| == |adj| && RowsValid(next)
    ensures NonNegative(adj) && w >= 0.0 ==> NonNegative(next)
    ensures forall a: nat, b: nat :: Weights(next)(a, b) == Weights(adj)(a, b) + if a == i && b == j then w else 0.0
    ensures forall a: nat, b: nat :: a < |adj| ==> (Names(next[a], b) <==> Names(adj[a], b) || (a == i && b == j))
  {
    next := adj[i := adj[i] + [(j, w)]];
    forall b: nat
      ensures RowWeight(next[i], b) == RowWeight(adj[i], b) + if j == b then w else 0.0
      ensures Names(next[i], b) <==> Names(adj[i], b) || b == j
    {
      RowWeightSnoc(adj[i], j, w, b);
      NamesSnoc(adj[i], j, w, b);
    }
  }

  /** Numbers the live slots by their places. */
  method Places(nodes: seq<nat>) returns (pos: map<nat, nat>)
    requires Ascending(nodes)
    ensures Ordered(nodes, pos)
  {
    pos := map[];
    for p := 0 to |nodes|
      invariant forall v: nat :: v < p ==> nodes[v] in pos && pos[nodes[v]] == v
      invariant forall s :: s in pos ==> pos[s] < p && nodes[pos[s]] == s
    {
      pos := pos[nodes[p] := p];
    }
  }

  /** `adj` lists the projection of `edges` between the slots in `nodes`. */
  ghost predicate Projects(nodes: seq<nat>, edges: seq<Edge>, adj: Adj) {
    && |adj| == |nodes| && RowsValid(adj)
    && (WeightsNonNegative(edges) ==> NonNegative(adj))
    && (forall i: nat, j: nat :: i < |nodes| && j < |nodes| ==>
          Weights(adj)(i, j) == Between(edges, nodes[i], nodes[j]))
    && forall i: nat, j: nat {:trigger Names(adj[i], j)} :: i < |nodes| && j < |nodes| ==>
         (Names(adj[i], j) <==> Joined(edges, nodes[i], nodes[j]))
  }

  /** Some call edge joins the two slots. */
  ghost predicate Joined(edges: seq<Edge>, s: nat, t: nat) {
    exists e :: e in edges && Joins(e, s, t)
  }

  lemma JoinedMore(edges: seq<Edge>, e: Edge, s: nat, t: nat)
    ensures Joined(edges + [e], s, t) <==> Joined(edges, s, t) || Joins(e, s, t)
  {
    if f :| f in edges && Joins(f, s, t) {
      assert f in edges + [e];
    }
    assert e in edges + [e];
  }

  // ---------------------------------------------------------------- what the projection depends on

  /** The edges of two of the ten kinds. */
  ghost function CallEdges(edges: seq<Edge>): seq<Edge> {
    if edges == [] then []
    else
      var last := edges[|edges| - 1];
      CallEdges(edges[..|edges| - 1]) + if last.kind.Calls? || last.kind.UnresolvedCall? then [last] else []
  }

  /** Edges of the other eight kinds weigh nothing and join nothing. */
  lemma {:induction false} CallsCarryWeights(edges: seq<Edge>, s: nat, t: nat)
    ensures Between(edges, s, t) == Between(CallEdges(edges), s, t)
    ensures Joined(edges, s, t) <==> Joined(CallEdges(edges), s, t)
  {
    if edges != [] {
      var front, last := edges[..|edges| - 1], edges[|edges| - 1];
      var calls := CallEdges(front);
      CallsCarryWeights(front, s, t);
      SplitLast(edges);
      JoinedMore(front, last, s, t);
      JoinedMore(calls, last, s, t);
      assert (calls + [last])[..|calls|] == calls && calls + [] == calls;
    }
  }

  lemma {:induction false} CallsOfCalls(edges: seq<Edge>)
    ensures CallEdges(CallEdges(edges)) == CallEdges(edges)
  {
    if edges != [] {
      var calls, last := CallEdges(edges[..|edges| - 1]), edges[|edges| - 1];
      CallsOfCalls(edges[..|edges| - 1]);
      assert (calls + [last])[..|calls|] == calls && calls + [] == calls;
    }
  }

  lemma {:induction false} NothingBetween(edges: seq<Edge>, s: nat, t: nat)
    requires forall i :: 0 <= i < |edges| ==> !Joins(edges[i], s, t)
    ensures Between(edges, s, t) == 0.0
  {
    if edges != [] {
      NothingBetween(edges[..|edges| - 1], s, t);
    }
  }

  lemma {:induction false} OneBetween(edges: seq<Edge>, s: nat, t: nat, k: nat)
    requires k < |edges| && Joins(edges[k], s, t)
    requires forall i :: 0 <= i < |edges| && i != k ==> !Joins(edges[i], s, t)
    ensures Between(edges, s, t) == edges[k].weight
  {
    if k == |edges| - 1 {
      NothingBetween(edges[..k], s, t);
    } else {
      OneBetween(edges[..|edges| - 1], s, t, k);
    }
  }

  /** Two slots joined by a single call, in whatever direction, have its weight; others have none. */
  lemma SingleCall(nodes: seq<nat>, edges: seq<Edge>, adj: Adj, i: nat, j: nat, k: nat)
    requires Projects(nodes, edges, adj) && i < |nodes| && j < |nodes| && k < |edges|
    requires forall x :: 0 <= x < |edges| && x != k && {edges[x].src, edges[x].dst} == {nodes[i], nodes[j]} ==>
               !edges[x].kind.Calls? && !edges[x].kind.UnresolvedCall?
    requires {edges[k].src, edges[k].dst} == {nodes[i], nodes[j]} && nodes[i] != nodes[j]
    ensures var call := edges[k].kind.Calls? || edges[k].kind.UnresolvedCall?;
            && Weights(adj)(i, j) == Weights(adj)(j, i) == (if call then edges[k].weight else 0.0)
            && (Names(adj[i], j) <==> call) && (Names(adj[j], i) <==> call)
  {
    SinglePair(edges, nodes[i], nodes[j], k);
    BetweenSymmetric(edges, nodes[i], nodes[j]);
    assert Names(adj[i], j) <==> Joined(edges, nodes[i], nodes[j]);
    assert Names(adj[j], i) <==> Joined(edges, nodes[j], nodes[i]);
  }

  lemma SinglePair(edges: seq<Edge>, s: nat, t: nat, k: nat)
    requires k < |edges| && {edges[k].src, edges[k].dst} == {s, t} && s != t
    requires forall x :: 0 <= x < |edges| && x != k && {edges[x].src, edges[x].dst} == {s, t} ==>
               !edges[x].kind.Calls? && !edges[x].kind.UnresolvedCall?
    ensures var call := edges[k].kind.Calls? || edges[k].kind.UnresolvedCall?;
            && Between(edges, s, t) == (if call then edges[k].weight else 0.0)
            && (Joined(edges, s, t) <==> call) && (Joined(edges, t, s) <==> call)
  {
    assert edges[k].src in {s, t} && edges[k].dst in {s, t} && s in {edges[k].src, edges[k].dst};
    forall x | 0 <= x < |edges| && x != k
      ensures !Joins(edges[x], s, t)
    {
    }
    if edges[k].kind.Calls? || edges[k].kind.UnresolvedCall? {
      OneBetween(edges, s, t, k);
      assert edges[k] in edges && Joins(edges[k], s, t);
    } else {
      NothingBetween(edges, s, t);
    }
  }

  // ---------------------------------------------------------------- building it

  /** The edge is listed: a call between different live slots. */
  predicate Counts(pos: map<nat, nat>, e: Edge) {
    IsCall(e.kind) && e.src in pos && e.dst in pos && pos[e.src] != pos[e.dst]
  }

  /** The edge is listed between these two places. */
  ghost predicate JoinsAt(pos: map<nat, nat>, e: Edge, i: nat, j: nat) {
    Counts(pos, e) && ((i == pos[e.src] && j == pos[e.dst]) || (i == pos[e.dst] && j == pos[e.src]))
  }

  lemma JoinsPlaces(nodes: seq<nat>, pos: map<nat, nat>, e: Edge, i: nat, j: nat)
    requires Ordered(nodes, pos) && i < |nodes| && j < |nodes|
    ensures JoinsAt(pos, e, i, j) <==> Joins(e, nodes[i], nodes[j])
  {
  }

  lemma ProjectsNext(nodes: seq<nat>, pos: map<nat, nat>, edges: seq<Edge>, e: Edge, adj: Adj, next: Adj)
    requires Ordered(nodes, pos) && Projects(nodes, edges, adj) && |next| == |nodes| && RowsValid(next)
    requires NonNegative(adj) && e.weight >= 0.0 ==> NonNegative(next)
    requires forall a: nat, b: nat ::
               Weights(next)(a, b) == Weights(adj)(a, b) + if JoinsAt(pos, e, a, b) then e.weight else 0.0
    requires forall a: nat, b: nat :: a < |adj| ==> (Names(next[a], b) <==> Names(adj[a], b) || JoinsAt(pos, e, a, b))
    ensures Projects(nodes, edges + [e], next)
  {
    var more := edges + [e];
    assert more[..|more| - 1] == edges && more[|more| - 1] == e;
    if WeightsNonNegative(more) {
      assert forall k :: 0 <= k < |edges| ==> edges[k] == more[k];
      assert more[|more| - 1].weight >= 0.0;
    }
    forall i: nat, j: nat | i < |nodes| && j < |nodes|
      ensures Weights(next)(i, j) == Between(more, nodes[i], nodes[j])
      ensures Names(next[i], j) <==> Joined(more, nodes[i], nodes[j])
    {
      assert Weights(adj)(i, j) == Between(edges, nodes[i], nodes[j]);
      assert Names(adj[i], j) <==> Joined(edges, nodes[i], nodes[j]);
      JoinsPlaces(nodes, pos, e, i, j);
      JoinedMore(edges, e, nodes[i], nodes[j]);
    }
  }

  /** A call edge between different live slots is listed at both ends, any other edge nowhere. */
  method AddEdge(nodes: seq<nat>, pos: map<nat, nat>, ghost edges: seq<Edge>, e: Edge, adj: Adj) returns (next: Adj)
    requires Ordered(nodes, pos) && Projects(nodes, edges, adj)
    ensures Projects(nodes, edges + [e], next)
  {
    next := adj;
    if Counts(pos, e) {
      next := AddEntry(adj, pos[e.src], pos[e.dst], e.weight);
      next := AddEntry(next, pos[e.dst], pos[e.src], e.weight);
    }
    ProjectsNext(nodes, pos, edges, e, adj, next);
  }

  lemma NothingProjected(nodes: seq<nat>, adj: Adj)
    requires |adj| == |nodes| && forall i :: 0 <= i < |adj| ==> adj[i] == []
    ensures Projects(nodes, [], adj)
  {
  }

  lemma ProjectsValid(nodes: seq<nat>, edges: seq<Edge>, adj: Adj)
    requires Projects(nodes, edges, adj)
    ensures ValidAdj(adj)
  {
    forall i: nat, j: nat | i < |adj| && j < |adj|
      ensures Weights(adj)(i, j) == Weights(adj)(j, i)
    {
      BetweenSymmetric(edges, nodes[i], nodes[j]);
    }
    forall i, k | 0 <= i < |adj| && 0 <= k < |adj[i]|
      ensures adj[i][k].0 < |adj|
    {
      assert RowValid(adj[i], |adj|);
    }
  }

  /** The undirected projection of the call edges, between the live slots in ascending order. */
  method BuildAdjacency(g: CodeGraph) returns (adj: Adj, nodes: seq<nat>)
    requires Distinct(g.nodes)
    ensures Ascending(nodes) && multiset(nodes) == multiset(g.nodes)
    ensures ValidAdj(adj) && Projects(nodes, g.edges, adj)
  {
    nodes := SortByKey(Number, g.nodes);
    SortDistinct(g.nodes);
    var pos := Places(nodes);
    adj := seq(|nodes|, _ => []);
    NothingProjected(nodes, adj);
    for k := 0 to |g.edges|
      invariant Projects(nodes, g.edges[..k], adj)
    {
      adj := AddEdge(nodes, pos, g.edges[..k], g.edges[k], adj);
      assert g.edges[..k] + [g.edges[k]] == g.edges[..k + 1];
    }
    assert g.edges[..|g.edges|] == g.edges;
    ProjectsValid(nodes, g.edges, adj);
  }

  // ---------------------------------------------------------------- the reported score

  /** The score the source reports: modularity with half the internal weight. */
  ghost function Reported(adj: Adj, c: seq<nat>, gamma: real): real
    requires TotalWeight(adj) != 0.0
  {
    Score(PairSum(Weights(adj), c) / 2.0, PairSum(Degrees(adj), c), gamma, TotalWeight(adj))
  }

  lemma ReportedIsLess(adj: Adj, c: seq<nat>, gamma: real)
    requires TotalWeight(adj) != 0.0
    ensures Reported(adj, c, gamma) == Quality(adj, c, gamma) - PairSum(Weights(adj), c) / (4.0 * TotalWeight(adj))
  {
    HalfScore(PairSum(Weights(adj), c), PairSum(Degrees(adj), c), gamma, TotalWeight(adj));
  }

  lemma HalfScore(p: real, d: real, gamma: real, m: real)
    requires m != 0.0
    ensures Score(p / 2.0, d, gamma, m) == Score(p, d, gamma, m) - p / (4.0 * m)
  {
    ScoreForm(p, d, gamma, m);
    ScoreForm(p / 2.0, d, gamma, m);
    assert (4.0 * m) * (1.0 / m / 4.0) == 1.0;
    DivideBy(p, 4.0 * m);
  }

  /** What a move changes in the reported score: its gain, less half the tie it adds over m. */
  lemma ReportedChange(adj: Adj, c: seq<nat>, gamma: real, x: nat, t: nat)
    requires ValidAdj(adj) && TotalWeight(adj) != 0.0 && |c| == |adj| && x < |c| && c[x] != t
    ensures Reported(adj, c[x := t], gamma) ==
            Reported(adj, c, gamma) + MoveGain(adj, c, gamma, x, t)
            + (Weights(adj)(x, x) - ToCommunity(Weights(adj), c, x, t) + ToCommunity(Weights(adj), c, x, c[x]))
              / (2.0 * TotalWeight(adj))
  {
    var W, m := Weights(adj), TotalWeight(adj);
    ReportedIsLess(adj, c, gamma);
    ReportedIsLess(adj, c[x := t], gamma);
    MoveChange(adj, c, gamma, x, t);
    MoveSum(W, c, x, t);
    HalfChange(PairSum(W, c), PairSum(W, c[x := t]), ToCommunity(W, c, x, t), ToCommunity(W, c, x, c[x]), W(x, x), m);
  }

  lemma HalfChange(p: real, p': real, kIn: real, kOut: real, w: real, m: real)
    requires m != 0.0 && p' == p + 2.0 * kIn - 2.0 * kOut + 2.0 * w
    ensures w / m - p' / (4.0 * m) == (w - kIn + kOut) / (2.0 * m) - p / (4.0 * m)
  {
    var u := 1.0 / m;
    Inverses(m);
    assert (4.0 * m) * (u / 4.0) == 1.0;
    DivideBy(w, m);
    DivideBy(p', 4.0 * m);
    DivideBy(p, 4.0 * m);
    DivideBy(w - kIn + kOut, 2.0 * m);
    assert p' * (u / 4.0) == p * (u / 4.0) + kIn * (u / 2.0) - kOut * (u / 2.0) + w * (u / 2.0);
  }

  /** The internal weight of node `i`, credited to its community. */
  ghost function InnerTerm(adj: Adj, c: seq<nat>, k: nat): nat -> real {
    (i: nat) => if i < |adj| && i < |c| && c[i] == k then RowTo(adj[i], c, k) else 0.0
  }

  ghost function DegreeTerm(adj: Adj, c: seq<nat>, k: nat): nat -> real {
    (i: nat) => if i < |c| && c[i] == k then Degree(adj, i) else 0.0
  }

  /** The weight a row lists towards its own community. */
  method OwnWeight(row: Row, c: seq<nat>, own: nat) returns (w: real, any: bool)
    requires RowValid(row, |c|)
    ensures w == RowTo(row, c, own)
    ensures !any ==> w == 0.0
  {
    w, any := 0.0, false;
    for e := 0 to |row|
      invariant w == RowTo(row[..e], c, own)
      invariant !any ==> w == 0.0
    {
      assert row[..e + 1][..e] == row[..e];
      if c[row[e].0] == own {
        w, any := w + row[e].1, true;
      }
    }
    assert row[..|row|] == row;
  }

  /** Every community's internal weight, each edge twice. */
  ghost predicate TalliesInternal(adj: Adj, c: seq<nat>, inner: Tally) {
    forall k: nat {:trigger At(inner, k)} :: At(inner, k) == Sum(|c|, InnerTerm(adj, c, k))
  }

  /** Every community's total degree. */
  ghost predicate TalliesDegrees(adj: Adj, c: seq<nat>, total: Tally) {
    forall k: nat {:trigger At(total, k)} :: At(total, k) == Sigma(adj, c, k)
  }

  /** Tallies of the first `n` nodes. */
  ghost predicate TalliesOf(adj: Adj, c: seq<nat>, n: nat, inner: Tally, total: Tally, bound: nat) {
    && (forall k: nat {:trigger At(inner, k)} :: At(inner, k) == Sum(n, InnerTerm(adj, c, k)))
    && (forall k: nat {:trigger At(total, k)} :: At(total, k) == Sum(n, DegreeTerm(adj, c, k)))
    && (forall k :: k in inner || k in total ==> k < bound)
  }

  /** One node's weight towards its own community, and its degree. */
  method TallyNode(adj: Adj, c: seq<nat>, d: real, i: nat, inner0: Tally, total0: Tally, ghost bound: nat)
    returns (inner: Tally, total: Tally)
    requires ValidAdj(adj) && |c| == |adj| && i < |adj| && d == Degree(adj, i) && c[i] < bound
    requires TalliesOf(adj, c, i, inner0, total0, bound)
    ensures TalliesOf(adj, c, i + 1, inner, total, bound)
  {
    LocalMoves.RowIsValid(adj, i);
    total := total0[c[i] := At(total0, c[i]) + d];
    var w, any := OwnWeight(adj[i], c, c[i]);
    inner := if any then inner0[c[i] := At(inner0, c[i]) + w] else inner0;
    forall k: nat
      ensures At(inner, k) == Sum(i + 1, InnerTerm(adj, c, k)) && At(total, k) == Sum(i + 1, DegreeTerm(adj, c, k))
    {
      assert At(inner0, k) == Sum(i, InnerTerm(adj, c, k)) && At(total0, k) == Sum(i, DegreeTerm(adj, c, k));
    }
  }

  /** Internal weight (each edge twice) and total degree of every community. */
  method CommunityTallies(adj: Adj, c: seq<nat>, degree: seq<real>, ghost bound: nat)
      returns (inner: Tally, total: Tally)
    requires ValidAdj(adj) && |c| == |adj| == |degree|
    requires forall i: nat :: i < |adj| ==> degree[i] == Degree(adj, i) && c[i] < bound
    ensures TalliesInternal(adj, c, inner) && TalliesDegrees(adj, c, total)
    ensures forall k :: k in inner || k in total ==> k < bound
  {
    inner, total := map[], map[];
    for i := 0 to |adj|
      invariant TalliesOf(adj, c, i, inner, total, bound)
    {
      inner, total := TallyNode(adj, c, degree[i], i, inner, total, bound);
    }
    forall k: nat
      ensures At(total, k) == Sigma(adj, c, k)
    {
      SumEq(|c|, DegreeTerm(adj, c, k), (i: nat) => if i < |c| && c[i] == k then Degree(adj, i) else 0.0);
    }
  }

  /** A term over the labels already folded. */
  ghost function Folded(m: Tally, rest: set<nat>, f: real -> real): nat -> real {
    (k: nat) => if k in rest then 0.0 else f(At(m, k))
  }

  lemma FoldStep(m: Tally, rest: set<nat>, f: real -> real, k: nat, bound: nat)
    requires k in rest && k < bound
    ensures Sum(bound, Folded(m, rest - {k}, f)) == Sum(bound, Folded(m, rest, f)) + f(At(m, k))
  {
    SumChange(bound, Folded(m, rest, f), Folded(m, rest - {k}, f), k);
  }

  /** Adds up a term of every entry of a tally, in any order. */
  method Fold(m: Tally, f: real -> real, ghost bound: nat) returns (q: real)
    requires f(0.0) == 0.0 && forall k :: k in m ==> k < bound
    ensures q == Sum(bound, FoldTerms(m, f))
  {
    q := 0.0;
    var rest := m.Keys;
    forall k: nat
      ensures Folded(m, rest, f)(k) == 0.0
    {
      assert k in rest || At(m, k) == 0.0;
    }
    SumZero(bound, Folded(m, rest, f));
    while rest != {}
      invariant rest <= m.Keys
      invariant q == Sum(bound, Folded(m, rest, f))
      decreases |rest|
    {
      var k :| k in rest;
      FoldStep(m, rest, f, k, bound);
      q := q + f(m[k]);
      rest := rest - {k};
    }
    SumEq(bound, Folded(m, rest, f), FoldTerms(m, f));
  }

  lemma InnerIsTerms(adj: Adj, c: seq<nat>, k: nat)
    requires ValidAdj(adj) && |c| == |adj|
    ensures Sum(|c|, InnerTerm(adj, c, k)) == Inner(Weights(adj), c, k)
  {
    var f := (i: nat) => if i < |c| && c[i] == k then ToCommunity(Weights(adj), c, i, k) else 0.0;
    forall i: nat | i < |c|
      ensures InnerTerm(adj, c, k)(i) == f(i)
    {
      RowToCommunity(adj, c, i, k);
    }
    SumEq(|c|, InnerTerm(adj, c, k), f);
  }

  /** What a community's internal weight, each edge counted twice, adds to the score. */
  function InternalShare(m: real): real -> real
    requires m != 0.0
  {
    (internal2x: real) => if m != 0.0 then (internal2x / 2.0) / (2.0 * m) else 0.0
  }

  /** What a community's total degree takes from it. */
  function DegreeShare(gamma: real, m: real): real -> real
    requires m != 0.0
  {
    (d: real) => if m != 0.0 then gamma * ((d / (2.0 * m)) * (d / (2.0 * m))) else 0.0
  }

  ghost predicate Linear(f: real -> real, a: real) {
    forall x: real {:trigger f(x)} :: f(x) == a * x
  }

  ghost predicate Quadratic(f: real -> real, b: real) {
    forall x: real {:trigger f(x)} :: f(x) == b * (x * x)
  }

  lemma ShareForms(x: real, gamma: real, m: real, a: real, b: real)
    requires m != 0.0 && a == 1.0 / (4.0 * m) && b == gamma * (1.0 / (4.0 * m * m))
    ensures InternalShare(m)(x) == a * x
    ensures DegreeShare(gamma, m)(x) == b * (x * x)
  {
    var u := 1.0 / m;
    Inverses(m);
    assert (4.0 * m) * (u / 4.0) == 1.0;
    DivideBy(x / 2.0, 2.0 * m);
    DivideBy(x, 2.0 * m);
  }

  lemma Shares(gamma: real, m: real, a: real, b: real)
    requires m != 0.0 && a == 1.0 / (4.0 * m) && b == gamma * (1.0 / (4.0 * m * m))
    ensures Linear(InternalShare(m), a) && Quadratic(DegreeShare(gamma, m), b)
  {
    forall x: real
      ensures InternalShare(m)(x) == a * x && DegreeShare(gamma, m)(x) == b * (x * x)
    {
      ShareForms(x, gamma, m, a, b);
    }
  }

  /** `g` is `a` times `f` below the bound. */
  ghost predicate Scales(bound: nat, a: real, f: nat -> real, g: nat -> real) {
    forall k: nat {:trigger g(k)} :: k < bound ==> g(k) == a * f(k)
  }

  ghost function FoldTerms(m: Tally, f: real -> real): nat -> real {
    (k: nat) => f(At(m, k))
  }

  lemma InternalScales(adj: Adj, c: seq<nat>, inner: Tally, f: real -> real, bound: nat, a: real)
    requires ValidAdj(adj) && |c| == |adj| && Linear(f, a) && TalliesInternal(adj, c, inner)
    ensures Scales(bound, a, Inners(Weights(adj), c), FoldTerms(inner, f))
  {
    forall k: nat | k < bound
      ensures FoldTerms(inner, f)(k) == a * Inners(Weights(adj), c)(k)
    {
      InnerIsTerms(adj, c, k);
    }
  }

  lemma DegreeScales(adj: Adj, c: seq<nat>, total: Tally, f: real -> real, bound: nat, b: real)
    requires |c| == |adj| && Quadratic(f, b) && TalliesDegrees(adj, c, total)
    ensures Scales(bound, b, Inners(Degrees(adj), c), FoldTerms(total, f))
  {
    forall k: nat | k < bound
      ensures FoldTerms(total, f)(k) == b * Inners(Degrees(adj), c)(k)
    {
      InnerDegrees(adj, c, k);
    }
  }

  /** Scaled shares add up to the scaled pair sum. */
  lemma SharesSum(A: Matrix, c: seq<nat>, bound: nat, a: real, g: nat -> real)
    requires Scales(bound, a, Inners(A, c), g) && forall i :: 0 <= i < |c| ==> c[i] < bound
    ensures Sum(bound, g) == a * PairSum(A, c)
  {
    SumScale(bound, a, Inners(A, c), g);
    PairSumByCommunity(A, c, bound);
  }

  lemma ReportedForm(p: real, d: real, gamma: real, m: real, a: real, b: real, internal: real, expected: real)
    requires m != 0.0 && a == 1.0 / (4.0 * m) && b == gamma * (1.0 / (4.0 * m * m))
    requires internal == a * p && expected == b * d
    ensures Score(p / 2.0, d, gamma, m) == internal - expected
  {
    Inverses(m);
    assert (4.0 * m) * ((1.0 / m) / 4.0) == 1.0;
    ScoreForm(p / 2.0, d, gamma, m);
  }

  /** The two sums of the score. */
  method FoldShares(adj: Adj, c: seq<nat>, inner: Tally, total: Tally, gamma: real, m: real,
                    ghost bound: nat, ghost a: real, ghost b: real) returns (gain: real, loss: real)
    requires ValidAdj(adj) && |c| == |adj| && m != 0.0 && forall i :: 0 <= i < |c| ==> c[i] < bound
    requires TalliesInternal(adj, c, inner) && TalliesDegrees(adj, c, total)
    requires forall k :: k in inner || k in total ==> k < bound
    requires Linear(InternalShare(m), a) && Quadratic(DegreeShare(gamma, m), b)
    ensures gain == a * PairSum(Weights(adj), c) && loss == b * PairSum(Degrees(adj), c)
  {
    gain := Fold(inner, InternalShare(m), bound);
    loss := Fold(total, DegreeShare(gamma, m), bound);
    GainIs(adj, c, inner, InternalShare(m), a, bound, gain);
    LossIs(adj, c, total, DegreeShare(gamma, m), b, bound, loss);
  }

  /** The score reported with a result. */
  method ComputeModularity(adj: Adj, c: seq<nat>, gamma: real) returns (q: real)
    requires ValidAdj(adj) && |c| == |adj|
    ensures q == if TotalWeight(adj) != 0.0 then Reported(adj, c, gamma) else 0.0
  {
    var degree, m := LocalMoves.Measure(adj);
    if m == 0.0 {
      return 0.0;
    }
    ghost var bound := Bound(c);
    var inner, total := CommunityTallies(adj, c, degree, bound);
    ghost var a, b := 1.0 / (4.0 * m), gamma * (1.0 / (4.0 * m * m));
    Shares(gamma, m, a, b);
    var gain, loss := FoldShares(adj, c, inner, total, gamma, m, bound, a, b);
    ReportedForm(PairSum(Weights(adj), c), PairSum(Degrees(adj), c), gamma, m, a, b, gain, loss);
    q := gain - loss;
  }

  lemma GainIs(adj: Adj, c: seq<nat>, inner: Tally, f: real -> real, a: real, bound: nat, gain: real)
    requires ValidAdj(adj) && |c| == |adj| && Linear(f, a) && forall i :: 0 <= i < |c| ==> c[i] < bound
    requires TalliesInternal(adj, c, inner)
    requires gain == Sum(bound, FoldTerms(inner, f))
    ensures gain == a * PairSum(Weights(adj), c)
  {
    InternalScales(adj, c, inner, f, bound, a);
    SharesSum(Weights(adj), c, bound, a, FoldTerms(inner, f));
  }

  lemma LossIs(adj: Adj, c: seq<nat>, total: Tally, h: real -> real, b: real, bound: nat, loss: real)
    requires |c| == |adj| && Quadratic(h, b) && forall i :: 0 <= i < |c| ==> c[i] < bound
    requires TalliesDegrees(adj, c, total)
    requires loss == Sum(bound, FoldTerms(total, h))
    ensures loss == b * PairSum(Degrees(adj), c)
  {
    DegreeScales(adj, c, total, h, bound, b);
    SharesSum(Degrees(adj), c, bound, b, FoldTerms(total, h));
  }

  /** A number above every label. */
  ghost function Bound(c: seq<nat>): (b: nat)
    ensures forall i :: 0 <= i < |c| ==> c[i] < b
  {
    if c == [] then 0
    else
      var b := Bound(c[..|c| - 1]);
      assert forall i :: 0 <= i < |c| - 1 ==> c[i] == c[..|c| - 1][i];
      if b > c[|c| - 1] then b else c[|c| - 1] + 1
  }

  // ---------------------------------------------------------------- levels

  ghost predicate SamePartition(c: seq<nat>, d: seq<nat>) {
    |c| == |d| && forall i, j :: 0 <= i < |c| && 0 <= j < |c| ==> (c[i] == c[j] <==> d[i] == d[j])
  }

  /** Modularity depends on the partition, not on its labels. */
  lemma RelabelledQuality(adj: Adj, c: seq<nat>, d: seq<nat>, gamma: real)
    requires TotalWeight(adj) != 0.0 && SamePartition(c, d)
    ensures Quality(adj, c, gamma) == Quality(adj, d, gamma)
  {
    RelabelledPairSum(Weights(adj), c, d);
    RelabelledPairSum(Degrees(adj), c, d);
  }

  lemma RelabelledPairSum(A: Matrix, c: seq<nat>, d: seq<nat>)
    requires SamePartition(c, d)
    ensures PairSum(A, c) == PairSum(A, d)
  {
    forall i: nat, j: nat | i < |c| && j < |c|
      ensures Same(c, A)(i, j) == Same(d, A)(i, j)
    {
      SameAt(c, A, i, j);
      SameAt(d, A, i, j);
    }
    Sum2Eq(|c|, |c|, Same(c, A), Same(d, A));
  }

  /** Partitions of the level's nodes score as the partitions of original nodes they stand for. */
  ghost predicate Faithful(adj: Adj, current: Adj, owner: seq<nat>, gamma: real) {
    && ValidAdj(adj) && ValidAdj(current) && |owner| == |adj| && |current| <= |adj|
    && TotalWeight(current) == TotalWeight(adj)
    && (forall i :: 0 <= i < |owner| ==> owner[i] < |current|)
    && (TotalWeight(adj) != 0.0 ==>
          forall p: seq<nat> {:trigger Lift(owner, p)} :: |p| == |current| ==>
            Quality(current, p, gamma) == Quality(adj, Lift(owner, p), gamma))
  }

  lemma FaithfulStart(adj: Adj, gamma: real)
    requires ValidAdj(adj)
    ensures Faithful(adj, adj, Identity(|adj|), gamma)
  {
    forall p: seq<nat> | |p| == |adj|
      ensures Lift(Identity(|adj|), p) == p
    {
    }
  }

  /** Coarsening keeps the levels faithful. */
  lemma FaithfulCoarsen(adj: Adj, current: Adj, owner: seq<nat>, gamma: real, coarse: Adj, mapping: seq<nat>)
    requires Faithful(adj, current, owner, gamma) && Represents(coarse, current, mapping) && |coarse| <= |current|
    ensures Faithful(adj, coarse, Lift(owner, mapping), gamma)
  {
    CoarseTotal(coarse, current, mapping);
    if TotalWeight(adj) != 0.0 {
      forall p: seq<nat> | |p| == |coarse|
        ensures Quality(coarse, p, gamma) == Quality(adj, Lift(Lift(owner, mapping), p), gamma)
      {
        CoarseQuality(coarse, current, mapping, p, gamma);
        assert Lift(Lift(owner, mapping), p) == Lift(owner, Lift(mapping, p));
      }
    }
  }

  /** Group `k` lists each original node it owns exactly once. */
  ghost predicate GroupsOf(groups: seq<seq<nat>>, owner: seq<nat>, k: nat)
    requires k < |groups|
  {
    forall o: nat :: multiset(groups[k])[o] == if o < |owner| && owner[o] == k then 1 else 0
  }

  /** The groups partition the original nodes as `owner` says. */
  ghost predicate Partitions(groups: seq<seq<nat>>, owner: seq<nat>) {
    && (forall o: nat :: o < |owner| ==> owner[o] < |groups|)
    && forall k: nat :: k < |groups| ==> GroupsOf(groups, owner, k)
  }

  lemma InGroup(groups: seq<seq<nat>>, owner: seq<nat>, k: nat, o: nat)
    requires Partitions(groups, owner) && k < |groups|
    ensures o in groups[k] <==> o < |owner| && owner[o] == k
  {
    assert GroupsOf(groups, owner, k);
    assert o in groups[k] <==> multiset(groups[k])[o] > 0;
  }

  /** Gives every original node the label of the level node that owns it. */
  method SpreadLabels(groups: seq<seq<nat>>, levelComm: seq<nat>, ghost owner: seq<nat>, n: nat)
      returns (community: seq<nat>)
    requires Partitions(groups, owner) && |owner| == n && |levelComm| == |groups|
    ensures community == Lift(owner, levelComm)
  {
    community := seq(n, _ => 0);
    for k := 0 to |groups|
      invariant |community| == n
      invariant forall o: nat :: o < n && owner[o] < k ==> community[o] == levelComm[owner[o]]
    {
      ghost var was := community;
      forall o: nat
        ensures o in groups[k] <==> o < n && owner[o] == k
      {
        InGroup(groups, owner, k, o);
      }
      for e := 0 to |groups[k]|
        invariant |community| == n
        invariant forall o: nat :: o < n && owner[o] < k ==> community[o] == levelComm[owner[o]]
        invariant forall d: nat :: d < e ==> groups[k][d] < n && community[groups[k][d]] == levelComm[k]
      {
        assert groups[k][e] in groups[k];
        community := community[groups[k][e] := levelComm[k]];
      }
      forall o: nat | o < n && owner[o] == k
        ensures community[o] == levelComm[k]
      {
        assert o in groups[k];
      }
    }
  }

  /** Merges the groups of the level nodes that share a super-node. */
  method MergeGroups(groups: seq<seq<nat>>, mapping: seq<nat>, count: nat, ghost owner: seq<nat>)
      returns (next: seq<seq<nat>>)
    requires Partitions(groups, owner) && |mapping| == |groups| && forall k :: 0 <= k < |mapping| ==> mapping[k] < count
    ensures |next| == count && Partitions(next, Lift(owner, mapping))
  {
    next := seq(count, _ => []);
    for k := 0 to |groups|
      invariant |next| == count
      invariant forall s: nat, o: nat :: s < count ==>
                  multiset(next[s])[o] == if o < |owner| && owner[o] < k && mapping[owner[o]] == s then 1 else 0
    {
      ghost var was := next;
      assert GroupsOf(groups, owner, k);
      next := next[mapping[k] := next[mapping[k]] + groups[k]];
      assert multiset(next[mapping[k]]) == multiset(was[mapping[k]]) + multiset(groups[k]);
    }
  }

  /** The slack of `level` rounds of local moves. */
  function Slack(level: nat, n: nat): nat {
    level * (LocalMoves.MAX_PASSES * n)
  }

  lemma SlackStep(level: nat, n: nat, k: nat)
    requires k <= n
    ensures Slack(level, n) + LocalMoves.MAX_PASSES * k <= Slack(level + 1, n)
    ensures level < MAX_LEVELS ==> Slack(level + 1, n) <= MAX_LEVELS * LocalMoves.MAX_PASSES * n
    ensures Slack(0, n) == 0
  {
    assert Slack(level + 1, n) == Slack(level, n) + LocalMoves.MAX_PASSES * n;
    if level < MAX_LEVELS {
      assert (level + 1) * (LocalMoves.MAX_PASSES * n) <= MAX_LEVELS * (LocalMoves.MAX_PASSES * n);
    }
  }

  /** What holds between levels: `community` and `owner` are one partition of the original nodes,
      at most `level` rounds of slack below the singletons. */
  ghost predicate LevelInv(adj: Adj, current: Adj, owner: seq<nat>, groups: seq<seq<nat>>, community: seq<nat>,
                           gamma: real, level: nat) {
    && Faithful(adj, current, owner, gamma)
    && |groups| == |current| && Partitions(groups, owner)
    && SamePartition(owner, community)
    && (NonNegative(adj) ==> NonNegative(current))
    && NotWorse(adj, community, gamma, Slack(level, |adj|))
  }

  /** Without negative weights, at most `slack` epsilons below the partition into single nodes. */
  ghost predicate NotWorse(adj: Adj, community: seq<nat>, gamma: real, slack: nat) {
    NonNegative(adj) && TotalWeight(adj) != 0.0 ==>
      Quality(adj, community, gamma) >= Quality(adj, Identity(|adj|), gamma) - slack as real * LocalMoves.EPSILON
  }

  /** One level's moves, seen on the original nodes. */
  lemma LevelMoves(adj: Adj, current: Adj, owner: seq<nat>, groups: seq<seq<nat>>, community: seq<nat>, gamma: real,
                   level: nat, levelComm: seq<nat>)
    requires LevelInv(adj, current, owner, groups, community, gamma, level) && |levelComm| == |current|
    requires TotalWeight(adj) != 0.0
    requires LocalMoves.AtLeast(current, levelComm, gamma, Quality(current, Identity(|current|), gamma),
                                LocalMoves.MAX_PASSES * |current|)
    ensures NotWorse(adj, Lift(owner, levelComm), gamma, Slack(level + 1, |adj|))
  {
    assert Lift(owner, Identity(|current|)) == owner;
    RelabelledQuality(adj, owner, community, gamma);
    SlackStep(level, |adj|, |current|);
    if NonNegative(adj) {
      NonNegativeLoops(current);
    }
    assert Quality(current, levelComm, gamma) == Quality(adj, Lift(owner, levelComm), gamma);
  }

  /** A level: its graph, the level node of each original node, and the labels found so far. */
  datatype LevelState = LevelState(current: Adj, owner: seq<nat>, community: seq<nat>)

  /** The local moves of a level, from single nodes. */
  ghost predicate Phase(current: Adj, gamma: real, seed: nat, levelComm: seq<nat>, improved: bool) {
    LocalMoves.PhaseOf(current, gamma, Shuffled(Identity(|current|), seed), Identity(|current|), levelComm, improved)
  }

  ghost predicate OwnsBelow(owner: seq<nat>, n: nat) {
    forall i :: 0 <= i < |owner| ==> owner[i] < n
  }

  /** A level that improves and shrinks: labels are lifted, communities become the next nodes. */
  ghost predicate StepBy(gamma: real, seed: nat, s: LevelState, next: LevelState, levelComm: seq<nat>,
      mapping: seq<nat>) {
    && Phase(s.current, gamma, seed, levelComm, true)
    && OwnsBelow(s.owner, |levelComm|) && next.community == Lift(s.owner, levelComm)
    && Renumbers(levelComm, mapping, |next.current|) && Represents(next.current, s.current, mapping)
    && OwnsBelow(s.owner, |mapping|) && next.owner == Lift(s.owner, mapping)
    && |next.current| < |s.current|
  }

  ghost predicate LevelStep(gamma: real, seed: nat, s: LevelState, next: LevelState) {
    exists levelComm: seq<nat>, mapping: seq<nat> :: StepBy(gamma, seed, s, next, levelComm, mapping)
  }

  /** A level that ends the run: nothing improved, or every node kept a community of its own. */
  ghost predicate LastLevel(gamma: real, seed: nat, s: LevelState, found: seq<nat>) {
    || (Phase(s.current, gamma, seed, Identity(|s.current|), false) && found == s.community)
    || exists levelComm: seq<nat>, mapping: seq<nat> :: LastBy(gamma, seed, s, found, levelComm, mapping)
  }

  ghost predicate LastBy(gamma: real, seed: nat, s: LevelState, found: seq<nat>, levelComm: seq<nat>,
      mapping: seq<nat>) {
    && Phase(s.current, gamma, seed, levelComm, true) && Renumbers(levelComm, mapping, |s.current|)
    && OwnsBelow(s.owner, |levelComm|) && found == Lift(s.owner, levelComm)
  }

  ghost predicate StepAt(gamma: real, seed: nat, trace: seq<LevelState>, i: nat) {
    i + 1 < |trace| && LevelStep(gamma, seed, trace[i], trace[i + 1])
  }

  /** Levels from the whole graph and single nodes. */
  ghost predicate LevelsFrom(adj: Adj, gamma: real, seed: nat, trace: seq<LevelState>) {
    && |trace| > 0 && trace[0] == LevelState(adj, Identity(|adj|), Identity(|adj|))
    && forall i: nat {:trigger StepAt(gamma, seed, trace, i)} :: i + 1 < |trace| ==> StepAt(gamma, seed, trace, i)
  }

  /** The labels a run of levels ends with: the limit was reached, or a level ended the run. */
  ghost predicate RunOf(adj: Adj, gamma: real, seed: nat, trace: seq<LevelState>, found: seq<nat>) {
    && LevelsFrom(adj, gamma, seed, trace)
    && var last := trace[|trace| - 1];
       if |trace| - 1 < 10 then LastLevel(gamma, seed, last, found)
       else |trace| - 1 == 10 && found == last.community
  }

  lemma LevelsGrow(adj: Adj, gamma: real, seed: nat, trace: seq<LevelState>, next: LevelState)
    requires LevelsFrom(adj, gamma, seed, trace) && LevelStep(gamma, seed, trace[|trace| - 1], next)
    ensures LevelsFrom(adj, gamma, seed, trace + [next])
  {
    forall i: nat | i + 1 < |trace| + 1
      ensures StepAt(gamma, seed, trace + [next], i)
    {
      assert i + 1 < |trace| ==> StepAt(gamma, seed, trace, i);
    }
  }

  lemma LiftSamePartition(owner: seq<nat>, mapping: seq<nat>, levelComm: seq<nat>)
    requires SamePartition(mapping, levelComm) && forall i :: 0 <= i < |owner| ==> owner[i] < |mapping|
    ensures SamePartition(Lift(owner, mapping), Lift(owner, levelComm))
  {
  }

  /** The local moves of a level, from single nodes. */
  method MovePhase(adj: Adj, current: Adj, gamma: real, seed: nat, ghost groups: seq<seq<nat>>,
                   ghost community: seq<nat>, ghost owner: seq<nat>, ghost level: nat)
    returns (improved: bool, levelComm: seq<nat>)
    requires LevelInv(adj, current, owner, groups, community, gamma, level)
    ensures |levelComm| == |current|
    ensures improved ==> TotalWeight(adj) != 0.0 && Phase(current, gamma, seed, levelComm, true)
    ensures improved ==> NotWorse(adj, Lift(owner, levelComm), gamma, Slack(level + 1, |adj|))
    ensures !improved ==> Phase(current, gamma, seed, Identity(|current|), false)
    ensures !improved ==> NotWorse(adj, community, gamma, Slack(level + 1, |adj|))
  {
    var labels := new nat[|current|](i => i);
    assert labels[..] == Identity(|current|);
    improved := LocalMoves.Run(current, labels, gamma, seed);
    levelComm := labels[..];
    if improved {
      LevelMoves(adj, current, owner, groups, community, gamma, level, levelComm);
    } else {
      SlackStep(level, |adj|, |current|);
      SlackTop(adj, community, gamma, Slack(level, |adj|), Slack(level + 1, |adj|));
    }
  }

  /** One level: moves, spreads the labels, and coarsens when that shrinks the graph. */
  method Level(adj: Adj, current: Adj, groups: seq<seq<nat>>, community: seq<nat>, gamma: real, seed: nat,
               ghost owner: seq<nat>, ghost level: nat)
    returns (done: bool, nextAdj: Adj, nextGroups: seq<seq<nat>>, nextCommunity: seq<nat>, ghost nextOwner: seq<nat>)
    requires LevelInv(adj, current, owner, groups, community, gamma, level)
    ensures |nextCommunity| == |adj| && NotWorse(adj, nextCommunity, gamma, Slack(level + 1, |adj|))
    ensures done && TotalWeight(adj) == 0.0 ==> nextCommunity == community
    ensures done ==> LastLevel(gamma, seed, LevelState(current, owner, community), nextCommunity)
    ensures !done ==> LevelStep(gamma, seed, LevelState(current, owner, community),
        LevelState(nextAdj, nextOwner, nextCommunity))
    ensures !done ==> LevelInv(adj, nextAdj, nextOwner, nextGroups, nextCommunity, gamma, level + 1)
    ensures !done ==> |nextAdj| < |current| && TotalWeight(adj) != 0.0
  {
    nextAdj, nextGroups, nextCommunity, nextOwner := current, groups, community, owner;
    var improved, levelComm := MovePhase(adj, current, gamma, seed, groups, community, owner, level);
    if !improved {
      done := true;
      return;
    }
    nextCommunity := SpreadLabels(groups, levelComm, owner, |adj|);
    var coarse, mapping := Coarsen(current, levelComm);
    done := |coarse| >= |current|;
    ghost var s := LevelState(current, owner, community);
    if done {
      LevelEnds(gamma, seed, s, levelComm, mapping);
    } else {
      nextGroups := MergeGroups(groups, mapping, |coarse|, owner);
      nextAdj, nextOwner := coarse, Lift(owner, mapping);
      LevelSteps(adj, s, groups, gamma, seed, level, levelComm, coarse, mapping);
      LevelKeeps(adj, s, groups, gamma, level, levelComm, coarse, mapping, nextGroups);
    }
  }

  lemma LevelEnds(gamma: real, seed: nat, s: LevelState, levelComm: seq<nat>, mapping: seq<nat>)
    requires Phase(s.current, gamma, seed, levelComm, true) && Renumbers(levelComm, mapping, |s.current|)
    requires OwnsBelow(s.owner, |levelComm|)
    ensures LastLevel(gamma, seed, s, Lift(s.owner, levelComm))
  {
    assert LastBy(gamma, seed, s, Lift(s.owner, levelComm), levelComm, mapping);
  }

  lemma LevelSteps(adj: Adj, s: LevelState, groups: seq<seq<nat>>, gamma: real, seed: nat, level: nat,
                   levelComm: seq<nat>, coarse: Adj, mapping: seq<nat>)
    requires LevelInv(adj, s.current, s.owner, groups, s.community, gamma, level)
    requires Phase(s.current, gamma, seed, levelComm, true) && |levelComm| == |s.current|
    requires Renumbers(levelComm, mapping, |coarse|) && Represents(coarse, s.current, mapping)
    requires |coarse| < |s.current|
    ensures LevelStep(gamma, seed, s, LevelState(coarse, Lift(s.owner, mapping), Lift(s.owner, levelComm)))
  {
    var next := LevelState(coarse, Lift(s.owner, mapping), Lift(s.owner, levelComm));
    assert StepBy(gamma, seed, s, next, levelComm, mapping);
  }

  lemma LevelKeeps(adj: Adj, s: LevelState, groups: seq<seq<nat>>, gamma: real, level: nat, levelComm: seq<nat>,
                   coarse: Adj, mapping: seq<nat>, nextGroups: seq<seq<nat>>)
    requires LevelInv(adj, s.current, s.owner, groups, s.community, gamma, level) && |levelComm| == |s.current|
    requires Renumbers(levelComm, mapping, |coarse|) && Represents(coarse, s.current, mapping)
    requires NonNegative(s.current) ==> NonNegative(coarse)
    requires |nextGroups| == |coarse| < |s.current| && Partitions(nextGroups, Lift(s.owner, mapping))
    requires NotWorse(adj, Lift(s.owner, levelComm), gamma, Slack(level + 1, |adj|))
    ensures LevelInv(adj, coarse, Lift(s.owner, mapping), nextGroups, Lift(s.owner, levelComm), gamma, level + 1)
  {
    FaithfulCoarsen(adj, s.current, s.owner, gamma, coarse, mapping);
    LiftSamePartition(s.owner, mapping, levelComm);
  }

  method Singletons(n: nat) returns (groups: seq<seq<nat>>)
    ensures |groups| == n && Partitions(groups, Identity(n))
  {
    groups := seq(n, i => [i]);
    forall k: nat | k < n
      ensures GroupsOf(groups, Identity(n), k)
    {
      assert groups[k] == [k];
    }
  }

  /** A run of levels that goes on: what holds of its last state, and its trace. */
  ghost predicate Going(adj: Adj, gamma: real, seed: nat, current: Adj, owner: seq<nat>, groups: seq<seq<nat>>,
                        community: seq<nat>, level: nat, trace: seq<LevelState>) {
    && LevelInv(adj, current, owner, groups, community, gamma, level)
    && LevelsFrom(adj, gamma, seed, trace) && |trace| == level + 1
    && trace[level] == LevelState(current, owner, community)
    && (TotalWeight(adj) == 0.0 ==> community == Identity(|adj|))
  }

  /** What a run of levels ends with. */
  ghost predicate Ended(adj: Adj, gamma: real, seed: nat, community: seq<nat>, level: nat, trace: seq<LevelState>) {
    && |community| == |adj| && RunOf(adj, gamma, seed, trace, community)
    && NotWorse(adj, community, gamma, Slack(level, |adj|))
    && (TotalWeight(adj) == 0.0 ==> community == Identity(|adj|))
  }

  lemma RunStarts(adj: Adj, gamma: real, seed: nat, groups: seq<seq<nat>>)
    requires ValidAdj(adj) && |groups| == |adj| && Partitions(groups, Identity(|adj|))
    ensures Going(adj, gamma, seed, adj, Identity(|adj|), groups, Identity(|adj|), 0,
                  [LevelState(adj, Identity(|adj|), Identity(|adj|))])
  {
    FaithfulStart(adj, gamma);
    SlackStep(0, |adj|, 0);
  }

  lemma RunGoesOn(adj: Adj, gamma: real, seed: nat, s: LevelState, groups: seq<seq<nat>>, level: nat,
                  trace: seq<LevelState>, next: LevelState, nextGroups: seq<seq<nat>>)
    requires Going(adj, gamma, seed, s.current, s.owner, groups, s.community, level, trace)
    requires LevelInv(adj, next.current, next.owner, nextGroups, next.community, gamma, level + 1)
    requires LevelStep(gamma, seed, s, next) && TotalWeight(adj) != 0.0
    ensures Going(adj, gamma, seed, next.current, next.owner, nextGroups, next.community, level + 1, trace + [next])
  {
    LevelsGrow(adj, gamma, seed, trace, next);
  }

  lemma RunEnds(adj: Adj, gamma: real, seed: nat, s: LevelState, groups: seq<seq<nat>>, level: nat,
                trace: seq<LevelState>, found: seq<nat>)
    requires Going(adj, gamma, seed, s.current, s.owner, groups, s.community, level, trace) && level < MAX_LEVELS
    requires LastLevel(gamma, seed, s, found) && |found| == |adj|
    requires NotWorse(adj, found, gamma, Slack(level + 1, |adj|))
    requires TotalWeight(adj) == 0.0 ==> found == s.community
    ensures Ended(adj, gamma, seed, found, level + 1, trace)
  {
  }

  /** One level of a run: it goes on from the next level's graph, or ends. */
  method NextLevel(adj: Adj, current: Adj, groups: seq<seq<nat>>, community: seq<nat>, gamma: real, seed: nat,
                   ghost owner: seq<nat>, ghost level: nat, ghost trace: seq<LevelState>)
    returns (done: bool, nextAdj: Adj, nextGroups: seq<seq<nat>>, nextCommunity: seq<nat>, ghost nextOwner: seq<nat>,
             ghost nextTrace: seq<LevelState>)
    requires Going(adj, gamma, seed, current, owner, groups, community, level, trace) && level < MAX_LEVELS
    ensures done ==> Ended(adj, gamma, seed, nextCommunity, level + 1, nextTrace)
    ensures !done ==> Going(adj, gamma, seed, nextAdj, nextOwner, nextGroups, nextCommunity, level + 1, nextTrace)
  {
    done, nextAdj, nextGroups, nextCommunity, nextOwner :=
      Level(adj, current, groups, community, gamma, seed, owner, level);
    ghost var s := LevelState(current, owner, community);
    if done {
      RunEnds(adj, gamma, seed, s, groups, level, trace, nextCommunity);
      nextTrace := trace;
    } else {
      ghost var next := LevelState(nextAdj, nextOwner, nextCommunity);
      RunGoesOn(adj, gamma, seed, s, groups, level, trace, next, nextGroups);
      nextTrace := trace + [next];
    }
  }

  lemma RunDone(adj: Adj, gamma: real, seed: nat, community: seq<nat>, level: nat, trace: seq<LevelState>)
    requires Ended(adj, gamma, seed, community, level, trace) && level <= MAX_LEVELS
    ensures NotWorse(adj, community, gamma, MAX_LEVELS * LocalMoves.MAX_PASSES * |adj|)
  {
    SlackBound(level, |adj|);
    SlackTop(adj, community, gamma, Slack(level, |adj|), MAX_LEVELS * LocalMoves.MAX_PASSES * |adj|);
  }

  /** Levels until nothing improves, nothing shrinks, or the limit is reached. */
  method Levels(adj: Adj, gamma: real, seed: nat) returns (community: seq<nat>, ghost trace: seq<LevelState>)
    requires ValidAdj(adj)
    ensures |community| == |adj| && RunOf(adj, gamma, seed, trace, community)
    ensures NotWorse(adj, community, gamma, MAX_LEVELS * LocalMoves.MAX_PASSES * |adj|)
    ensures TotalWeight(adj) == 0.0 ==> community == Identity(|adj|)
  {
    community := seq(|adj|, (i: nat) => i);
    assert community == Identity(|adj|);
    var current := adj;
    var groups := Singletons(|adj|);
    ghost var owner := Identity(|adj|);
    trace := [LevelState(adj, owner, community)];
    RunStarts(adj, gamma, seed, groups);
    var level := 0;
    var done := false;
    while level < MAX_LEVELS && !done
      invariant level <= MAX_LEVELS
      invariant !done ==> Going(adj, gamma, seed, current, owner, groups, community, level, trace)
      invariant done ==> Ended(adj, gamma, seed, community, level, trace)
    {
      done, current, groups, community, owner, trace :=
        NextLevel(adj, current, groups, community, gamma, seed, owner, level, trace);
      level := level + 1;
    }
    RunDone(adj, gamma, seed, community, level, trace);
  }

  lemma SlackBound(level: nat, n: nat)
    requires level <= MAX_LEVELS
    ensures Slack(level, n) <= MAX_LEVELS * LocalMoves.MAX_PASSES * n
  {
    assert level * (LocalMoves.MAX_PASSES * n) <= MAX_LEVELS * (LocalMoves.MAX_PASSES * n);
  }

  lemma SlackTop(adj: Adj, community: seq<nat>, gamma: real, few: nat, many: nat)
    requires NotWorse(adj, community, gamma, few) && few <= many
    ensures NotWorse(adj, community, gamma, many)
  {
  }

  /** What a call finds: the projection's run of levels from single nodes, its labels renumbered by
      first appearance, and their reported score. */
  ghost predicate Finds(g: CodeGraph, gamma: real, seed: nat, nodes: seq<nat>, community: seq<nat>, count: nat,
                        modularity: real, adj: Adj, trace: seq<LevelState>, found: seq<nat>) {
    && Ascending(nodes) && multiset(nodes) == multiset(g.nodes)
    && ValidAdj(adj) && Projects(nodes, g.edges, adj)
    && (nodes != [] ==> RunOf(adj, gamma, seed, trace, found))
    && |community| == |nodes| && Renumbers(found, community, count)
    && modularity == if TotalWeight(adj) != 0.0 then Reported(adj, community, gamma) else 0.0
  }

  /** Louvain over any graph: labels are the numbers below the count, by first appearance; without
      negative weights the partition's modularity is at most an epsilon a visit below that of
      single nodes; the score is the reported one. */
  method Louvain(g: CodeGraph, gamma: real, seed: nat)
    returns (community: seq<nat>, count: nat, modularity: real, nodes: seq<nat>, ghost adj: Adj,
             ghost trace: seq<LevelState>, ghost found: seq<nat>)
    requires Distinct(g.nodes)
    ensures Finds(g, gamma, seed, nodes, community, count, modularity, adj, trace, found)
    ensures WeightsNonNegative(g.edges) ==>
              NonNegative(adj) && NotWorse(adj, community, gamma, 100 * |nodes|)
    ensures TotalWeight(adj) == 0.0 ==> SamePartition(community, Identity(|nodes|))
  {
    var lists;
    lists, nodes := BuildAdjacency(g);
    adj := lists;
    if |lists| == 0 {
      return [], 0, 0.0, nodes, lists, [], [];
    }
    var labels;
    labels, trace := Levels(lists, gamma, seed);
    found := labels;
    community, count := Renumber(labels);
    if TotalWeight(lists) != 0.0 {
      RelabelledQuality(lists, found, community, gamma);
    }
    modularity := ComputeModularity(lists, community, gamma);
  }
}
