/** Building a snapshot over the relabelled slots: two passes of edge rows. */
module CsrBuild {
  import opened Wrappers
  import opened Graphs
  import opened Csr
  import opened Relabel
  import opened Sorting
  import opened StoredGraph

  // ---------------------------------------------------------------- rows and triples

  type Row = seq<(nat, Tag)>

  const BY_VERTEX: ((nat, Tag)) -> int := (p: (nat, Tag)) => p.0 as int

  /** The entries the edges of one slot add to its row. */
  function Entries(pos: map<nat, nat>, es: seq<Edge>, side: Side): Row {
    if es == [] then []
    else
      var e := es[|es| - 1];
      Entries(pos, es[..|es| - 1], side) + if Far(e, side) in pos then [(pos[Far(e, side)], TagOf(e.kind))] else []
  }

  /** An edge as seen from the row of its near end. */
  ghost function Oriented(side: Side, near: nat, far: nat, kind: Tag): Triple {
    if side == Out then Triple(near, far, kind) else Triple(far, near, kind)
  }

  ghost function RowTriples(side: Side, v: nat, row: Row): multiset<Triple> {
    if row == [] then multiset{}
    else RowTriples(side, v, row[..|row| - 1]) + multiset{Oriented(side, v, row[|row| - 1].0, row[|row| - 1].1)}
  }

  ghost function AllTriples(side: Side, rows: seq<Row>): multiset<Triple> {
    if rows == [] then multiset{}
    else AllTriples(side, rows[..|rows| - 1]) + RowTriples(side, |rows| - 1, rows[|rows| - 1])
  }

  /** The edges under their new vertex numbers. */
  ghost function Relabelled(pos: map<nat, nat>, es: seq<Edge>): multiset<Triple>
    requires forall i :: 0 <= i < |es| ==> es[i].src in pos && es[i].dst in pos
  {
    if es == [] then multiset{}
    else
      var e := es[|es| - 1];
      Relabelled(pos, es[..|es| - 1]) + multiset{Triple(pos[e.src], pos[e.dst], TagOf(e.kind))}
  }

  lemma RowTriplesPush(side: Side, v: nat, row: Row, x: (nat, Tag))
    ensures RowTriples(side, v, row + [x]) == RowTriples(side, v, row) + multiset{Oriented(side, v, x.0, x.1)}
  {
    assert (row + [x])[..|row|] == row;
  }

  lemma {:induction false} InsertTriples(side: Side, v: nat, row: Row, x: (nat, Tag))
    ensures RowTriples(side, v, InsertByKey(BY_VERTEX, row, x)) == RowTriples(side, v, row)
        + multiset{Oriented(side, v, x.0, x.1)}
  {
    if row == [] || BY_VERTEX(row[|row| - 1]) <= BY_VERTEX(x) {
      RowTriplesPush(side, v, row, x);
    } else {
      var rest, last := row[..|row| - 1], row[|row| - 1];
      InsertTriples(side, v, rest, x);
      RowTriplesPush(side, v, InsertByKey(BY_VERTEX, rest, x), last);
      MultisetShift(RowTriples(side, v, rest), multiset{Oriented(side, v, x.0, x.1)},
                    multiset{Oriented(side, v, last.0, last.1)});
    }
  }

  lemma {:induction false} SortTriples(side: Side, v: nat, row: Row)
    ensures RowTriples(side, v, SortByKey(BY_VERTEX, row)) == RowTriples(side, v, row)
  {
    if row != [] {
      SortTriples(side, v, row[..|row| - 1]);
      InsertTriples(side, v, SortByKey(BY_VERTEX, row[..|row| - 1]), row[|row| - 1]);
    }
  }

  lemma {:induction false} EntriesTriples(pos: map<nat, nat>, es: seq<Edge>, side: Side, s: nat)
    requires s in pos && forall i :: 0 <= i < |es| ==> es[i].src in pos && es[i].dst in pos && Near(es[i], side) == s
    ensures RowTriples(side, pos[s], Entries(pos, es, side)) == Relabelled(pos, es)
  {
    if es != [] {
      var rest, e := es[..|es| - 1], es[|es| - 1];
      EntriesTriples(pos, rest, side, s);
      var row := Entries(pos, rest, side);
      assert (row + [(pos[Far(e, side)], TagOf(e.kind))])[..|row|] == row;
    }
  }

  ghost predicate Positioned(pos: map<nat, nat>, es: seq<Edge>) {
    forall i :: 0 <= i < |es| ==> es[i].src in pos && es[i].dst in pos
  }

  lemma PositionedSub(pos: map<nat, nat>, edges: seq<Edge>, es: seq<Edge>)
    requires Positioned(pos, edges) && forall e :: e in es ==> e in edges
    ensures Positioned(pos, es)
  {
    forall i | 0 <= i < |es|
      ensures es[i].src in pos && es[i].dst in pos
    {
      assert es[i] in edges;
    }
  }

  lemma IncidentPositioned(pos: map<nat, nat>, edges: seq<Edge>, x: nat, side: Side)
    requires Positioned(pos, edges)
    ensures Positioned(pos, Incident(edges, x, side))
  {
    forall e | e in Incident(edges, x, side)
      ensures e in edges
    {
      IncidentMembers(edges, x, side, e);
    }
    PositionedSub(pos, edges, Incident(edges, x, side));
  }

  ghost function TripleOf(pos: map<nat, nat>, e: Edge): multiset<Triple>
    requires e.src in pos && e.dst in pos
  {
    multiset{Triple(pos[e.src], pos[e.dst], TagOf(e.kind))}
  }

  /** The relabelled edges whose near end is in `S`. */
  ghost function Touching(pos: map<nat, nat>, edges: seq<Edge>, S: set<nat>, side: Side): multiset<Triple>
    requires Positioned(pos, edges)
  {
    if edges == [] then multiset{}
    else
      var e := edges[|edges| - 1];
      Touching(pos, edges[..|edges| - 1], S, side) + if Near(e, side) in S then TripleOf(pos, e) else multiset{}
  }

  lemma MultisetShift<T>(a: multiset<T>, b: multiset<T>, t: multiset<T>)
    ensures (a + b) + t == a + (b + t) && (a + b) + t == (a + t) + b
  {
  }

  lemma {:induction false} TouchingGrows(pos: map<nat, nat>, edges: seq<Edge>, S: set<nat>, x: nat, side: Side)
    requires Positioned(pos, edges) && x !in S
    ensures Touching(pos, edges, S + {x}, side) == Touching(pos, edges, S, side) + Touching(pos, edges, {x}, side)
  {
    if edges != [] {
      var front, e := edges[..|edges| - 1], edges[|edges| - 1];
      TouchingGrows(pos, front, S, x, side);
      var a, b, t := Touching(pos, front, S, side), Touching(pos, front, {x}, side), TripleOf(pos, e);
      MultisetShift(a, b, t);
    }
  }

  lemma {:induction false} TouchingAll(pos: map<nat, nat>, edges: seq<Edge>, S: set<nat>, side: Side)
    requires Positioned(pos, edges)
    ensures S == {} ==> Touching(pos, edges, S, side) == multiset{}
    ensures (forall i :: 0 <= i < |edges| ==> Near(edges[i], side) in S) ==>
        Touching(pos, edges, S, side) == Relabelled(pos, edges)
  {
    if edges != [] {
      TouchingAll(pos, edges[..|edges| - 1], S, side);
    }
  }

  /** The edges of one slot are those whose near end it is. */
  lemma {:induction false} TouchingOne(pos: map<nat, nat>, edges: seq<Edge>, x: nat, side: Side)
    requires Positioned(pos, edges)
    ensures Positioned(pos, Incident(edges, x, side))
    ensures Relabelled(pos, Incident(edges, x, side)) == Touching(pos, edges, {x}, side)
  {
    IncidentPositioned(pos, edges, x, side);
    if edges != [] {
      var rest, e := edges[..|edges| - 1], edges[|edges| - 1];
      TouchingOne(pos, rest, x, side);
      var es := Incident(rest, x, side);
      if Near(e, side) == x {
        assert (es + [e])[..|es|] == es;
      } else {
        assert es + [] == es;
      }
    }
  }

  // ---------------------------------------------------------------- one half holds every edge once

  /** The row of each vertex: its slot's edges, by far vertex. */
  ghost predicate RowsOf(edges: seq<Edge>, order: seq<nat>, pos: map<nat, nat>, side: Side, rows: seq<Row>) {
    && |rows| <= |order|
    && forall v :: 0 <= v < |rows| ==>
        rows[v] == SortByKey(BY_VERTEX, Entries(pos, Incident(edges, order[v], side), side))
  }

  lemma {:induction false} RowsHoldTouching(edges: seq<Edge>, order: seq<nat>, pos: map<nat, nat>, side: Side,
      rows: seq<Row>)
    requires Positioned(pos, edges) && Ordered(order, pos) && RowsOf(edges, order, pos, side, rows)
    ensures AllTriples(side, rows) == Touching(pos, edges, Members(order[..|rows|]), side)
  {
    if rows == [] {
      TouchingAll(pos, edges, {}, side);
      assert Members(order[..0]) == {};
    } else {
      var r := |rows| - 1;
      RowsHoldTouching(edges, order, pos, side, rows[..r]);
      assert rows[..r][..r] == rows[..r];
      MembersSnoc(order, r);
      TouchingGrows(pos, edges, Members(order[..r]), order[r], side);
      RowHoldsIncident(edges, order, pos, side, r);
    }
  }

  lemma MembersSnoc(order: seq<nat>, r: nat)
    requires Distinct(order) && r < |order|
    ensures Members(order[..r + 1]) == Members(order[..r]) + {order[r]}
    ensures order[r] !in Members(order[..r])
  {
    assert order[..r + 1] == order[..r] + [order[r]];
  }

  lemma RowHoldsIncident(edges: seq<Edge>, order: seq<nat>, pos: map<nat, nat>, side: Side, r: nat)
    requires Positioned(pos, edges) && Ordered(order, pos) && r < |order|
    ensures RowTriples(side, r, SortByKey(BY_VERTEX, Entries(pos, Incident(edges, order[r], side), side))) ==
            Touching(pos, edges, {order[r]}, side)
  {
    var es := Incident(edges, order[r], side);
    forall i | 0 <= i < |es|
      ensures Near(es[i], side) == order[r]
    {
      IncidentMembers(edges, order[r], side, es[i]);
    }
    TouchingOne(pos, edges, order[r], side);
    EntriesTriples(pos, es, side, order[r]);
    SortTriples(side, r, Entries(pos, es, side));
  }

  /** Every edge, under its new numbers and kind, is in exactly one row entry. */
  lemma RowsHoldEdges(edges: seq<Edge>, order: seq<nat>, pos: map<nat, nat>, side: Side, rows: seq<Row>)
    requires Positioned(pos, edges) && Ordered(order, pos) && RowsOf(edges, order, pos, side, rows) && |rows| == |order|
    ensures AllTriples(side, rows) == Relabelled(pos, edges)
  {
    RowsHoldTouching(edges, order, pos, side, rows);
    assert order[..|rows|] == order;
    forall i | 0 <= i < |edges|
      ensures Near(edges[i], side) in Members(order)
    {
      assert order[pos[Near(edges[i], side)]] == Near(edges[i], side);
    }
    TouchingAll(pos, edges, Members(order), side);
  }

  // ---------------------------------------------------------------- rows as a CSR half

  /** The half slices into exactly these rows. */
  ghost predicate Represents(half: Half, rows: seq<Row>) {
    && |half.ptrs| == |rows| + 1 && half.ptrs[0] == 0
    && |half.cols| == |half.kinds| == half.ptrs[|rows|]
    && (forall v :: 0 <= v < |rows| ==> half.ptrs[v + 1] == half.ptrs[v] + |rows[v]|)
    && (forall v, w :: 0 <= v <= w <= |rows| ==> half.ptrs[v] <= half.ptrs[w])
    && forall v: nat, i: nat :: v < |rows| && i < |rows[v]| ==> EntryAt(half, half.ptrs[v] + i, rows[v][i])
  }

  ghost predicate EntryAt(half: Half, k: nat, entry: (nat, Tag)) {
    k < |half.cols| && k < |half.kinds| && half.cols[k] == entry.0 && half.kinds[k] == entry.1
  }

  function AppendRow(half: Half, row: Row): Half {
    Half(half.ptrs + [|half.cols| + |row|],
         half.cols + seq(|row|, i requires 0 <= i < |row| => row[i].0),
         half.kinds + seq(|row|, i requires 0 <= i < |row| => row[i].1))
  }

  lemma AppendRepresents(half: Half, rows: seq<Row>, row: Row)
    requires Represents(half, rows)
    ensures Represents(AppendRow(half, row), rows + [row])
  {
    var h := AppendRow(half, row);
    var rs: seq<Row> := rows + [row];
    forall v: nat, i: nat | v < |rs| && i < |rs[v]|
      ensures EntryAt(h, h.ptrs[v] + i, rs[v][i])
    {
      if v < |rows| {
        assert rs[v] == rows[v] && h.ptrs[v] == half.ptrs[v];
        assert EntryAt(half, half.ptrs[v] + i, rows[v][i]);
      } else {
        assert rs[v] == row && h.ptrs[v] == |half.cols| == |half.kinds|;
      }
    }
    assert Represents(h, rs);
  }

  lemma RepresentedRow(half: Half, rows: seq<Row>, v: nat)
    requires Represents(half, rows) && v < |rows|
    ensures half.ptrs[v] <= half.ptrs[v + 1] <= |half.cols|
    ensures |half.Neighbours(v)| == |half.Kinds(v)| == |rows[v]| == half.Degree(v)
    ensures forall i :: 0 <= i < |rows[v]| ==> half.Neighbours(v)[i] == rows[v][i].0 && half.Kinds(v)[i] == rows[v][i].1
  {
    forall i: nat | i < |rows[v]|
      ensures half.Neighbours(v)[i] == rows[v][i].0 && half.Kinds(v)[i] == rows[v][i].1
    {
      assert EntryAt(half, half.ptrs[v] + i, rows[v][i]);
    }
  }

  lemma {:induction false} RowTriplesMember(side: Side, v: nat, row: Row, t: Triple)
    ensures t in RowTriples(side, v, row) <==> exists i :: 0 <= i < |row| && t == Oriented(side, v, row[i].0, row[i].1)
  {
    if row != [] {
      RowTriplesMember(side, v, row[..|row| - 1], t);
    }
  }

  lemma RowTriplesAt(side: Side, r: nat, row: Row, v: nat, far: nat, k: Tag)
    ensures Oriented(side, v, far, k) in RowTriples(side, r, row) <==>
              v == r && exists i :: 0 <= i < |row| && row[i] == (far, k)
  {
    RowTriplesMember(side, r, row, Oriented(side, v, far, k));
    if i :| 0 <= i < |row| && row[i] == (far, k) {
      assert Oriented(side, v, far, k) == Oriented(side, v, row[i].0, row[i].1);
    }
  }

  lemma {:induction false} AllTriplesMember(side: Side, rows: seq<Row>, v: nat, far: nat, k: Tag)
    ensures Oriented(side, v, far, k) in AllTriples(side, rows) <==>
              v < |rows| && exists i :: 0 <= i < |rows[v]| && rows[v][i] == (far, k)
  {
    if rows != [] {
      var r := |rows| - 1;
      AllTriplesMember(side, rows[..r], v, far, k);
      RowTriplesAt(side, r, rows[r], v, far, k);
      assert v < r ==> rows[..r][v] == rows[v];
    }
  }

  /** A represented half lists exactly its triples. */
  lemma ListsTriples(half: Half, n: nat, rows: seq<Row>, side: Side, v: nat, far: nat, k: Tag)
    requires Represents(half, rows) && |rows| == n && half.Valid(n)
    ensures half.Lists(n, v, far, k) <==> Oriented(side, v, far, k) in AllTriples(side, rows)
  {
    AllTriplesMember(side, rows, v, far, k);
    if v < n {
      RepresentedRow(half, rows, v);
      if i :| 0 <= i < |rows[v]| && rows[v][i] == (far, k) {
        assert half.Neighbours(v)[i] == far && half.Kinds(v)[i] == k;
      }
    }
  }

  lemma RowsOfPush(edges: seq<Edge>, order: seq<nat>, pos: map<nat, nat>, side: Side, rows: seq<Row>, row: Row)
    requires RowsOf(edges, order, pos, side, rows) && |rows| < |order|
    requires row == SortByKey(BY_VERTEX, Entries(pos, Incident(edges, order[|rows|], side), side))
    ensures RowsOf(edges, order, pos, side, rows + [row])
  {
  }

  /** The source collects each row's edges, sorts them by far vertex and appends them. */
  method BuildHalf(g: CodeGraph, order: seq<nat>, pos: map<nat, nat>, side: Side)
      returns (half: Half, ghost rows: seq<Row>)
    requires g.Valid() && Ordered(order, pos)
    ensures Represents(half, rows) && |rows| == |order| && RowsOf(g.edges, order, pos, side, rows)
  {
    half := Half([0], [], []);
    rows := [];
    var v := 0;
    while v < |order|
      invariant 0 <= v <= |order| && |rows| == v
      invariant Represents(half, rows) && RowsOf(g.edges, order, pos, side, rows)
    {
      var row := SortByKey(BY_VERTEX, Entries(pos, Incident(g.edges, order[v], side), side));
      AppendRepresents(half, rows, row);
      RowsOfPush(g.edges, order, pos, side, rows, row);
      half, rows := AppendRow(half, row), rows + [row];
      v := v + 1;
    }
  }

  lemma {:induction false} EntriesBounded(pos: map<nat, nat>, es: seq<Edge>, side: Side, n: nat)
    requires forall s :: s in pos ==> pos[s] < n
    ensures forall i :: 0 <= i < |Entries(pos, es, side)| ==> Entries(pos, es, side)[i].0 < n
  {
    if es != [] {
      EntriesBounded(pos, es[..|es| - 1], side, n);
    }
  }

  /** Rows name vertices, so the half is well formed; and each row ascends. */
  lemma HalfValid(g: CodeGraph, order: seq<nat>, pos: map<nat, nat>, side: Side, half: Half, rows: seq<Row>)
    requires Ordered(order, pos) && Represents(half, rows)
    requires |rows| == |order| && RowsOf(g.edges, order, pos, side, rows)
    ensures half.Valid(|order|)
    ensures forall v: nat :: v < |order| ==> SortedBy((c: nat) => c as int, half.Neighbours(v))
  {
    forall v: nat | v < |rows|
      ensures forall i :: 0 <= i < |rows[v]| ==> rows[v][i].0 < |order|
      ensures SortedBy(BY_VERTEX, rows[v])
    {
      var entries := Entries(pos, Incident(g.edges, order[v], side), side);
      EntriesBounded(pos, Incident(g.edges, order[v], side), side, |order|);
      SortByKeySorted(BY_VERTEX, entries);
      forall i | 0 <= i < |rows[v]|
        ensures rows[v][i].0 < |order|
      {
        assert rows[v][i] in multiset(rows[v]);
        assert rows[v][i] in multiset(entries);
      }
    }
    forall k | 0 <= k < |half.cols|
      ensures half.cols[k] < |order|
    {
      var v := RowOf(half, rows, k);
      assert EntryAt(half, half.ptrs[v] + (k - half.ptrs[v]), rows[v][k - half.ptrs[v]]);
    }
    forall v: nat | v < |order|
      ensures SortedBy((c: nat) => c as int, half.Neighbours(v))
    {
      RepresentedRow(half, rows, v);
      var ns := half.Neighbours(v);
      forall i, j | 0 <= i < j < |ns|
        ensures ns[i] <= ns[j]
      {
        assert BY_VERTEX(rows[v][i]) <= BY_VERTEX(rows[v][j]);
      }
    }
  }

  lemma RowOf(half: Half, rows: seq<Row>, k: nat) returns (v: nat)
    requires Represents(half, rows) && k < |half.cols|
    ensures v < |rows| && half.ptrs[v] <= k < half.ptrs[v] + |rows[v]|
  {
    v := 0;
    while half.ptrs[v + 1] <= k
      invariant v < |rows| && half.ptrs[v] <= k
      decreases |rows| - v
    {
      v := v + 1;
    }
  }

  /** A built half lists exactly the relabelled edges. */
  lemma HalfListsEdges(g: CodeGraph, order: seq<nat>, pos: map<nat, nat>, side: Side, half: Half, rows: seq<Row>,
                       near: nat, far: nat, k: Tag)
    requires Positioned(pos, g.edges) && Ordered(order, pos)
    requires Represents(half, rows) && |rows| == |order| && RowsOf(g.edges, order, pos, side, rows)
    requires half.Valid(|order|)
    ensures half.Lists(|order|, near, far, k) <==> Oriented(side, near, far, k) in Relabelled(pos, g.edges)
  {
    RowsHoldEdges(g.edges, order, pos, side, rows);
    ListsTriples(half, |order|, rows, side, near, far, k);
  }

  lemma {:induction false} RowTriplesSize(side: Side, v: nat, row: Row)
    ensures |RowTriples(side, v, row)| == |row|
  {
    if row != [] {
      RowTriplesSize(side, v, row[..|row| - 1]);
    }
  }

  lemma {:induction false} AllTriplesSize(side: Side, half: Half, rows: seq<Row>, r: nat)
    requires Represents(half, rows) && r <= |rows|
    ensures |AllTriples(side, rows[..r])| == half.ptrs[r]
  {
    if r > 0 {
      AllTriplesSize(side, half, rows, r - 1);
      assert rows[..r][..r - 1] == rows[..r - 1];
      RowTriplesSize(side, r - 1, rows[r - 1]);
    }
  }

  lemma {:induction false} RelabelledSize(pos: map<nat, nat>, es: seq<Edge>)
    requires Positioned(pos, es)
    ensures |Relabelled(pos, es)| == |es|
  {
    if es != [] {
      RelabelledSize(pos, es[..|es| - 1]);
    }
  }

  /** A half has one entry per edge. */
  lemma HalfSize(g: CodeGraph, order: seq<nat>, pos: map<nat, nat>, side: Side, half: Half, rows: seq<Row>)
    requires Positioned(pos, g.edges) && Ordered(order, pos)
    requires Represents(half, rows) && |rows| == |order| && RowsOf(g.edges, order, pos, side, rows)
    ensures |half.cols| == |g.edges|
  {
    RowsHoldEdges(g.edges, order, pos, side, rows);
    AllTriplesSize(side, half, rows, |rows|);
    assert rows[..|rows|] == rows;
    RelabelledSize(pos, g.edges);
  }

  // ---------------------------------------------------------------- the snapshot

  function EmptySnapshot(revision: nat): CsrSnapshot {
    CsrSnapshot(0, 0, Half([0], [], []), Half([0], [], []), [], map[], revision)
  }

  /** Every live slot has an id. */
  ghost predicate Identified(g: CodeGraph) {
    forall v :: v in g.nodes ==> v in g.ids
  }

  /** Number the slots, and look up their ids. */
  method Positions(g: CodeGraph, order: seq<nat>) returns (pos: map<nat, nat>, ids: Option<seq<nat>>)
    requires Distinct(order)
    ensures Ordered(order, pos)
    ensures ids.None? <==> exists i :: 0 <= i < |order| && order[i] !in g.ids
    ensures ids.Some? ==> |ids.value| == |order| && forall i :: 0 <= i < |order| ==>
        order[i] in g.ids && ids.value[i] == g.ids[order[i]]
  {
    pos := map[];
    var found: seq<nat> := [];
    var live := true;
    var i := 0;
    while i < |order|
      invariant 0 <= i <= |order|
      invariant forall v :: 0 <= v < i ==> order[v] in pos && pos[order[v]] == v
      invariant forall s :: s in pos ==> pos[s] < i && order[pos[s]] == s
      invariant live ==> |found| == i && forall j :: 0 <= j < i ==> order[j] in g.ids && found[j] == g.ids[order[j]]
      invariant !live ==> exists j :: 0 <= j < i && order[j] !in g.ids
    {
      pos := pos[order[i] := i];
      if order[i] !in g.ids {
        live := false;
      } else if live {
        found := found + [g.ids[order[i]]];
      }
      i := i + 1;
    }
    ids := if live then Some(found) else None;
  }

  /** Ids back to vertices, a later vertex overriding an earlier one with the same id. */
  method Inverse(ids: seq<nat>) returns (m: map<nat, nat>)
    ensures forall k :: k in m ==> m[k] < |ids| && ids[m[k]] == k
    ensures forall i :: 0 <= i < |ids| ==> ids[i] in m
    ensures Distinct(ids) ==> forall i :: 0 <= i < |ids| ==> m[ids[i]] == i
  {
    m := map[];
    var i := 0;
    while i < |ids|
      invariant 0 <= i <= |ids|
      invariant forall k :: k in m ==> m[k] < i && ids[m[k]] == k
      invariant forall j :: 0 <= j < i ==> ids[j] in m
    {
      m := m[ids[i] := i];
      i := i + 1;
    }
  }

  /** One half: well formed, rows ascending, each edge once under its new numbers. */
  ghost predicate HalfOf(g: CodeGraph, order: seq<nat>, pos: map<nat, nat>, side: Side, half: Half, rows: seq<Row>) {
    && half.Valid(|order|) && Represents(half, rows) && |rows| == |order|
    && Positioned(pos, g.edges) && AllTriples(side, rows) == Relabelled(pos, g.edges)
    && |half.cols| == |g.edges|
    && forall v: nat :: v < |order| ==> SortedBy((c: nat) => c as int, half.Neighbours(v))
  }

  /** Vertex ids both ways. */
  ghost predicate IdsOf(g: CodeGraph, order: seq<nat>, snap: CsrSnapshot) {
    && |snap.vertexToId| == |order|
    && (forall i :: 0 <= i < |order| ==> order[i] in g.ids && snap.vertexToId[i] == g.ids[order[i]])
    && (forall k :: k in snap.idToVertex ==> snap.idToVertex[k] < |order| && snap.vertexToId[snap.idToVertex[k]] == k)
    && (forall i :: 0 <= i < |order| ==> snap.vertexToId[i] in snap.idToVertex)
    && (Distinct(snap.vertexToId) ==> forall i :: 0 <= i < |order| ==> snap.idToVertex[snap.vertexToId[i]] == i)
  }

  lemma OrderPositions(g: CodeGraph, order: seq<nat>, pos: map<nat, nat>)
    requires g.Valid() && Ordered(order, pos) && forall v :: v in order <==> v in g.nodes
    ensures Positioned(pos, g.edges)
  {
    forall i | 0 <= i < |g.edges|
      ensures g.edges[i].src in pos && g.edges[i].dst in pos
    {
      assert g.edges[i].src in order && g.edges[i].dst in order;
    }
  }

  lemma NoNodesNoEdges(g: CodeGraph)
    requires g.Valid()
    ensures g.nodes == [] ==> g.edges == []
  {
    if g.edges != [] {
      assert g.edges[0].src in g.nodes;
    }
  }

  method BuildSide(g: CodeGraph, order: seq<nat>, pos: map<nat, nat>, side: Side)
      returns (half: Half, ghost rows: seq<Row>)
    requires g.Valid() && Ordered(order, pos) && Positioned(pos, g.edges)
    ensures HalfOf(g, order, pos, side, half, rows)
    ensures forall near: nat, far: nat, k: Tag ::
              half.Lists(|order|, near, far, k) <==> Oriented(side, near, far, k) in Relabelled(pos, g.edges)
  {
    half, rows := BuildHalf(g, order, pos, side);
    HalfValid(g, order, pos, side, half, rows);
    HalfSize(g, order, pos, side, half, rows);
    RowsHoldEdges(g.edges, order, pos, side, rows);
    forall near: nat, far: nat, k: Tag
      ensures half.Lists(|order|, near, far, k) <==> Oriented(side, near, far, k) in Relabelled(pos, g.edges)
    {
      HalfListsEdges(g, order, pos, side, half, rows, near, far, k);
    }
  }

  /** Both halves and both id tables, over a given numbering. */
  method Assemble(g: CodeGraph, order: seq<nat>, pos: map<nat, nat>, ids: seq<nat>)
    returns (snap: CsrSnapshot, ghost outRows: seq<Row>, ghost inRows: seq<Row>)
    requires g.Valid() && Ordered(order, pos) && Positioned(pos, g.edges) && |order| == |g.nodes|
    requires |ids| == |order| && forall i :: 0 <= i < |order| ==> order[i] in g.ids && ids[i] == g.ids[order[i]]
    ensures snap.Valid() && snap.sourceRevision == g.revision && snap.n == |order| && snap.m == |g.edges|
    ensures HalfOf(g, order, pos, Out, snap.outgoing, outRows) && HalfOf(g, order, pos, In, snap.incoming, inRows)
    ensures IdsOf(g, order, snap)
  {
    var inverse := Inverse(ids);
    var outgoing, incoming: Half;
    outgoing, outRows := BuildSide(g, order, pos, Out);
    incoming, inRows := BuildSide(g, order, pos, In);
    snap := CsrSnapshot(|g.nodes|, |outgoing.cols|, outgoing, incoming, ids, inverse, g.revision);
    SnapshotTransposed(snap, Relabelled(pos, g.edges));
  }

  /** The snapshot represents the graph: the numbering is the breadth-first relabelling, and both
      halves hold the same multiset of relabelled edges, so the snapshot is a valid input to
      the direction-optimised search. A slot without an id gives the empty snapshot. */
  method Build(g: CodeGraph)
    returns (snap: CsrSnapshot, ghost order: seq<nat>, ghost pos: map<nat, nat>, ghost outRows: seq<Row>,
        ghost inRows: seq<Row>, ghost blocks: seq<seq<nat>>)
    requires g.Valid()
    ensures snap.Valid() && snap.sourceRevision == g.revision
    ensures !Identified(g) ==> snap == EmptySnapshot(g.revision)
    ensures Identified(g) ==>
              && snap.n == |g.nodes| == |order| && snap.m == |g.edges|
              && (forall v :: v in order <==> v in g.nodes) && Ordered(order, pos)
              && Layout(g, order, blocks)
              && HalfOf(g, order, pos, Out, snap.outgoing, outRows)
              && HalfOf(g, order, pos, In, snap.incoming, inRows)
              && IdsOf(g, order, snap)
  {
    order, pos, outRows, inRows, blocks := [], map[], [], [], [];
    if |g.nodes| == 0 {
      snap := EmptySnapshot(g.revision);
      NoNodesNoEdges(g);
      return;
    }
    var numbering;
    numbering, blocks := BfsRelabel(g);
    order := numbering;
    var positions, ids := Positions(g, numbering);
    pos := positions;
    if ids.None? {
      return EmptySnapshot(g.revision), order, pos, outRows, inRows, blocks;
    }
    OrderPositions(g, order, pos);
    assert |numbering| == |g.nodes|;
    snap, outRows, inRows := Assemble(g, numbering, positions, ids.value);
  }

  lemma SnapshotTransposed(snap: CsrSnapshot, triples: multiset<Triple>)
    requires snap.outgoing.Valid(snap.n) && snap.incoming.Valid(snap.n)
    requires forall near: nat, far: nat, k: Tag ::
               snap.outgoing.Lists(snap.n, near, far, k) <==> Oriented(Out, near, far, k) in triples
    requires forall near: nat, far: nat, k: Tag ::
               snap.incoming.Lists(snap.n, near, far, k) <==> Oriented(In, near, far, k) in triples
    ensures snap.Valid()
  {
    forall u: nat, v: nat, k: Tag
      ensures snap.outgoing.Lists(snap.n, u, v, k) <==> snap.incoming.Lists(snap.n, v, u, k)
    {
      assert Oriented(Out, u, v, k) == Oriented(In, v, u, k);
    }
  }
}
