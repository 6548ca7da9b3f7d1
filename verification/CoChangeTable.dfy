/** The concurrent table in place of the pair map: rows of the commits' nodes, mass changes aside,
    counted by the kernel, hold the pairs that changed together. */
module CoChangeTable {
  import opened CoChange
  import opened GpuCochange
  import opened Graphs
  import opened PairCounts
  import opened Sorting
  import opened Wrappers

  // ---------------------------------------------------------------- appending a commit's row

  ghost function Extended(g: Commits, row: seq<nat>): Commits {
    Commits(g.off + [|g.nodes| + |row|], g.nodes + row)
  }

  lemma ExtendedValid(g: Commits, row: seq<nat>)
    requires g.Valid() && Ascending(row) && forall i :: 0 <= i < |row| ==> row[i] < U32
    ensures Extended(g, row).Valid()
  {
    var h := Extended(g, row);
    forall c: nat | c < |h.off| - 1
      ensures h.AscendsIn(c)
    {
      if c < |g.off| - 1 {
        assert g.AscendsIn(c);
      }
    }
  }

  lemma {:induction false} PartPrefix(nodes: seq<nat>, row: seq<nat>, k: nat, lo: nat, hi: nat)
    requires k < |nodes| && lo <= hi <= |nodes|
    ensures Part(nodes + row, k, lo, hi) == Part(nodes, k, lo, hi)
  {
    if lo < hi {
      PartPrefix(nodes, row, k, lo, hi - 1);
    }
  }

  lemma SamePairsAt(g: Commits, row: seq<nat>, h: Commits, k: nat)
    requires g.Valid() && h.Valid() && h == Extended(g, row) && k < |g.nodes|
    ensures PairsAt(h, k) == PairsAt(g, k)
  {
    var c := CommitOf(g, k);
    EndIs(h, k, c);
    PartPrefix(g.nodes, row, k, k + 1, End(g, k));
  }

  /** The pairs below a position, as a function of it. */
  ghost function Pairs(h: Commits): nat -> multiset<Pair> {
    (k: nat) => if h.Valid() && k <= |h.nodes| then PairsBelow(h, k) else multiset{}
  }

  lemma {:induction false} SameSums(f: nat -> multiset<Pair>, e: nat -> multiset<Pair>, d: nat -> multiset<Pair>,
                                    k: nat)
    requires f(0) == e(0)
    requires forall j: nat :: j < k ==> f(j + 1) == f(j) + d(j) && e(j + 1) == e(j) + d(j)
    ensures f(k) == e(k)
  {
    if k > 0 {
      SameSums(f, e, d, k - 1);
      assert f(k - 1 + 1) == f(k - 1) + d(k - 1) && e(k - 1 + 1) == e(k - 1) + d(k - 1);
    }
  }

  ghost function PairsFrom(h: Commits): nat -> multiset<Pair> {
    (k: nat) => if h.Valid() && k < |h.nodes| then PairsAt(h, k) else multiset{}
  }

  lemma PairsStep(h: Commits, k: nat, next: nat)
    requires h.Valid() && k < |h.nodes| && next == k + 1
    ensures Pairs(h)(next) == Pairs(h)(k) + PairsFrom(h)(k)
  {
    PairsBelowNext(h, k);
    assert Pairs(h)(next) == PairsBelow(h, k + 1);
    assert Pairs(h)(k) == PairsBelow(h, k);
    assert PairsFrom(h)(k) == PairsAt(h, k);
  }

  lemma SameFrom(g: Commits, row: seq<nat>, h: Commits, k: nat)
    requires g.Valid() && h.Valid() && h == Extended(g, row) && k < |g.nodes|
    ensures PairsFrom(h)(k) == PairsFrom(g)(k)
  {
    SamePairsAt(g, row, h, k);
  }

  lemma StepBoth(g: Commits, row: seq<nat>, h: Commits, k: nat)
    requires g.Valid() && h.Valid() && h == Extended(g, row) && k < |g.nodes|
    ensures Pairs(g)(k + 1) == Pairs(g)(k) + PairsFrom(g)(k)
    ensures Pairs(h)(k + 1) == Pairs(h)(k) + PairsFrom(g)(k)
  {
    PairsStep(g, k, k + 1);
    PairsStep(h, k, k + 1);
    SameFrom(g, row, h, k);
  }

  /** The pairs of the earlier rows stay. */
  lemma SamePairsBelow(g: Commits, row: seq<nat>, h: Commits)
    requires g.Valid() && h.Valid() && h == Extended(g, row)
    ensures Pairs(h)(|g.nodes|) == Pairs(g)(|g.nodes|)
  {
    forall k: nat | k < |g.nodes|
      ensures Pairs(g)(k + 1) == Pairs(g)(k) + PairsFrom(g)(k)
      ensures Pairs(h)(k + 1) == Pairs(h)(k) + PairsFrom(g)(k)
    {
      StepBoth(g, row, h, k);
    }
    assert Pairs(h)(0) == Pairs(g)(0);
    SameSums(Pairs(h), Pairs(g), PairsFrom(g), |g.nodes|);
  }

  /** The pair formed by position `i` of a row with a later one. */
  ghost predicate StartsAt(row: seq<nat>, i: nat, p: Pair) {
    exists y :: i < y < |row| && p == (row[i], row[y])
  }

  /** The row's positions behind the earlier nodes. */
  lemma StartsBehind(nodes: seq<nat>, row: seq<nat>, i: nat, p: Pair)
    requires i < |row|
    ensures StartsAt(row, i, p) <==>
            exists j :: |nodes| + i + 1 <= j < |nodes| + |row| && p == ((nodes + row)[|nodes| + i], (nodes + row)[j])
  {
    var all := nodes + row;
    if StartsAt(row, i, p) {
      var y :| i < y < |row| && p == (row[i], row[y]);
      assert all[|nodes| + y] == row[y];
    }
    if j :| |nodes| + i + 1 <= j < |nodes| + |row| && p == (all[|nodes| + i], all[j]) {
      assert all[j] == row[j - |nodes|];
    }
  }

  lemma RowEnd(g: Commits, row: seq<nat>, h: Commits, i: nat)
    requires g.Valid() && h.Valid() && h == Extended(g, row) && i < |row|
    ensures PairsAt(h, |g.nodes| + i) == Part(h.nodes, |g.nodes| + i, |g.nodes| + i + 1, |g.nodes| + |row|)
    ensures |g.off| - 1 < |h.off| - 1 && h.off[|g.off| - 1] == |g.nodes| && h.off[|g.off|] == |g.nodes| + |row|
  {
    EndIs(h, |g.nodes| + i, |g.off| - 1);
  }

  /** Position `i` of the new row forms each of its pairs once. */
  lemma RowPairsAt(g: Commits, row: seq<nat>, h: Commits, i: nat, p: Pair)
    requires g.Valid() && h.Valid() && h == Extended(g, row) && i < |row|
    ensures PairsAt(h, |g.nodes| + i)[p] == if StartsAt(row, i, p) then 1 else 0
  {
    var k, end := |g.nodes| + i, |g.nodes| + |row|;
    RowEnd(g, row, h, i);
    PartOnce(h, |g.off| - 1, k, end, p);
    PartMember(h.nodes, k, k + 1, end, p);
    StartsBehind(g.nodes, row, i, p);
  }

  lemma BeforeStarts(row: seq<nat>, i: nat, p: Pair)
    requires Ascending(row) && i < |row|
    ensures Before(row, i + 1, 0, p) <==> Before(row, i, 0, p) || StartsAt(row, i, p)
    ensures !(Before(row, i, 0, p) && StartsAt(row, i, p))
  {
    if Before(row, i + 1, 0, p) {
      var x, y :| 0 <= x < y < |row| && p == (row[x], row[y]) && (x < i + 1 || (x == i + 1 && y < 0));
      assert x < i || x == i;
    }
  }

  /** From position `n + k` of the row to the next the count rises when the pair starts there. */
  ghost predicate RisesAt(f: nat -> nat, n: nat, row: seq<nat>, k: nat, p: Pair) {
    k < |row| && f(n + k + 1) == f(n + k) + if StartsAt(row, k, p) then 1 else 0
  }

  /** One more at every position that starts the pair counts it once if the row holds it. */
  lemma {:induction false} CountsUp(f: nat -> nat, n: nat, row: seq<nat>, i: nat, p: Pair)
    requires Ascending(row) && i <= |row|
    requires forall k: nat {:trigger RisesAt(f, n, row, k, p)} :: k < |row| ==> RisesAt(f, n, row, k, p)
    ensures f(n + i) == f(n) + if Before(row, i, 0, p) then 1 else 0
    decreases i
  {
    if i > 0 {
      var k := i - 1;
      CountsUp(f, n, row, k, p);
      assert RisesAt(f, n, row, k, p);
      BeforeStarts(row, k, p);
    }
  }

  lemma RowStep(g: Commits, row: seq<nat>, h: Commits, k: nat, p: Pair)
    requires g.Valid() && h.Valid() && h == Extended(g, row) && k < |row|
    ensures RisesAt(Counts(h, p), |g.nodes|, row, k, p)
  {
    assert |h.nodes| == |g.nodes| + |row|;
    StepAt(h, |g.nodes|, row, k, p, RowStarts(g, row, h, k, p));
  }

  lemma StepAt(h: Commits, n: nat, row: seq<nat>, k: nat, p: Pair, rise: nat)
    requires h.Valid() && k < |row| && n + k < |h.nodes|
    requires PairsAt(h, n + k)[p] == rise == if StartsAt(row, k, p) then 1 else 0
    ensures RisesAt(Counts(h, p), n, row, k, p)
  {
    CountStep(h, p, n + k, n + k + 1);
  }

  /** How often position `k` of the new row forms the pair. */
  ghost function RowStarts(g: Commits, row: seq<nat>, h: Commits, k: nat, p: Pair): (rise: nat)
    requires g.Valid() && h.Valid() && h == Extended(g, row) && k < |row|
    ensures |g.nodes| + k < |h.nodes|
    ensures PairsAt(h, |g.nodes| + k)[p] == rise == if StartsAt(row, k, p) then 1 else 0
  {
    RowPairsAt(g, row, h, k, p);
    if StartsAt(row, k, p) then 1 else 0
  }

  lemma RowCounts(g: Commits, row: seq<nat>, h: Commits, p: Pair)
    requires g.Valid() && h.Valid() && h == Extended(g, row) && Ascending(row)
    ensures Counts(h, p)(|g.nodes| + |row|) ==
            Counts(h, p)(|g.nodes|) + if p.0 < p.1 && p.0 in row && p.1 in row then 1 else 0
  {
    forall k: nat | k < |row|
      ensures RisesAt(Counts(h, p), |g.nodes|, row, k, p)
    {
      RowStep(g, row, h, k, p);
    }
    CountsUp(Counts(h, p), |g.nodes|, row, |row|, p);
    BeforeAll(row, p);
  }

  /** A row adds each of its ascending pairs once. */
  lemma RowPairs(g: Commits, row: seq<nat>, h: Commits, p: Pair)
    requires g.Valid() && h.Valid() && h == Extended(g, row) && Ascending(row)
    ensures AllPairs(h)[p] == AllPairs(g)[p] + if p.0 < p.1 && p.0 in row && p.1 in row then 1 else 0
  {
    RowCounts(g, row, h, p);
    CountsAt(h, p, |g.nodes| + |row|);
    CountsAt(h, p, |g.nodes|);
    OldPairs(g, row, h);
  }

  lemma OldPairs(g: Commits, row: seq<nat>, h: Commits)
    requires g.Valid() && h.Valid() && h == Extended(g, row)
    ensures PairsBelow(h, |g.nodes|) == AllPairs(g)
  {
    SamePairsBelow(g, row, h);
  }

  // ---------------------------------------------------------------- all commits

  /** The rows form exactly the pairs that changed together, as often as they did. */
  ghost predicate Rowed(fileNodes: map<string, seq<nat>>, commits: seq<seq<string>>, g: Commits) {
    && g.Valid()
    && forall p: Pair {:trigger AllPairs(g)[p]} ::
         AllPairs(g)[p] == if p.0 < p.1 then Together(fileNodes, commits, p) else 0
  }

  /** Node numbers are interned in 32 bits. */
  ghost predicate Interned(fileNodes: map<string, seq<nat>>) {
    forall f, i :: f in fileNodes && 0 <= i < |fileNodes[f]| ==> fileNodes[f][i] < U32
  }

  lemma TouchedInterned(fileNodes: map<string, seq<nat>>, files: seq<string>, nodes: seq<nat>)
    requires Interned(fileNodes) && Members(nodes) == Touched(fileNodes, files)
    ensures forall i :: 0 <= i < |nodes| ==> nodes[i] < U32
  {
    forall i | 0 <= i < |nodes|
      ensures nodes[i] < U32
    {
      assert nodes[i] in Members(nodes);
    }
  }

  lemma RowAdded(fileNodes: map<string, seq<nat>>, commits: seq<seq<string>>, files: seq<string>, g: Commits,
                 row: seq<nat>)
    requires Rowed(fileNodes, commits, g) && Ascending(row) && forall i :: 0 <= i < |row| ==> row[i] < U32
    requires Members(row) == Touched(fileNodes, files) && |row| == |Touched(fileNodes, files)|
    ensures Rowed(fileNodes, commits + [files],
                  if |row| <= 200 then Extended(g, row) else g)
  {
    var after := commits + [files];
    assert after[..|after| - 1] == commits && after[|after| - 1] == files;
    ExtendedValid(g, row);
    forall p: Pair
      ensures AllPairs(Extended(g, row))[p] == AllPairs(g)[p] + if p.0 < p.1 && p.0 in row && p.1 in row then 1 else 0
      ensures p.0 in row <==> p.0 in Touched(fileNodes, files)
      ensures p.1 in row <==> p.1 in Touched(fileNodes, files)
    {
      RowPairs(g, row, Extended(g, row), p);
      assert p.0 in row <==> p.0 in Members(row);
      assert p.1 in row <==> p.1 in Members(row);
    }
  }

  /** The rows of the commits that are not too large: each commit's nodes, sorted and deduplicated. */
  method CommitRows(fileNodes: map<string, seq<nat>>, commits: seq<seq<string>>) returns (g: Commits)
    requires Interned(fileNodes)
    ensures Rowed(fileNodes, commits, g)
  {
    g := Commits([0], []);
    for i := 0 to |commits|
      invariant Rowed(fileNodes, commits[..i], g)
    {
      var nodes := CommitNodes(fileNodes, commits[i]);
      TouchedInterned(fileNodes, commits[i], nodes);
      RowAdded(fileNodes, commits[..i], commits[i], g, nodes);
      assert commits[..i] + [commits[i]] == commits[..i + 1];
      if |nodes| <= MAX_COCHANGE_NODES_PER_COMMIT {
        g := Commits(g.off + [|g.nodes| + |nodes|], g.nodes + nodes);
      }
    }
    assert commits[..|commits|] == commits;
  }

  /** Every pair that changed together once, with how often. */
  ghost predicate ListsTogether(fileNodes: map<string, seq<nat>>, commits: seq<seq<string>>,
                                out: seq<(Pair, nat)>) {
    && (forall i, j :: 0 <= i < j < |out| ==> out[i].0 != out[j].0)
    && (forall i :: 0 <= i < |out| ==>
          out[i].0.0 < out[i].0.1 && 0 < out[i].1 == Together(fileNodes, commits, out[i].0))
    && forall p: Pair :: p.0 < p.1 && Together(fileNodes, commits, p) > 0 ==>
         exists i :: 0 <= i < |out| && out[i].0 == p
  }

  lemma TalliesTogether(fileNodes: map<string, seq<nat>>, commits: seq<seq<string>>, g: Commits,
                        out: seq<(Pair, nat)>)
    requires Rowed(fileNodes, commits, g) && Tallies(out, AllPairs(g))
    ensures ListsTogether(fileNodes, commits, out)
  {
    forall i | 0 <= i < |out|
      ensures out[i].0.0 < out[i].0.1 && 0 < out[i].1 == Together(fileNodes, commits, out[i].0)
    {
      assert AllPairs(g)[out[i].0] > 0;
    }
    forall p: Pair | p.0 < p.1 && Together(fileNodes, commits, p) > 0
      ensures exists i :: 0 <= i < |out| && out[i].0 == p
    {
      assert AllPairs(g)[p] > 0;
    }
  }

  lemma NoNodesNoPairs(g: Commits)
    requires g.Valid() && g.nodes == []
    ensures Tallies([], AllPairs(g))
  {
  }

  /** Rows and table together: the pairs that changed together with their counts, nothing exactly when
      a size is refused. */
  method CountByTable(fileNodes: map<string, seq<nat>>, commits: seq<seq<string>>, maxSlots: nat, mix: nat -> nat)
    returns (out: Option<seq<(Pair, nat)>>, ghost g: Commits)
    requires Interned(fileNodes)
    ensures Rowed(fileNodes, commits, g)
    ensures out.None? <==> g.nodes != [] && Refused(g, maxSlots)
    ensures out.Some? ==> ListsTogether(fileNodes, commits, out.value)
  {
    var rows := CommitRows(fileNodes, commits);
    g := rows;
    out := CooccurrenceGpu(rows, maxSlots, mix);
    if out.Some? {
      if rows.nodes == [] {
        NoNodesNoPairs(rows);
      }
      TalliesTogether(fileNodes, commits, rows, out.value);
    }
  }

  /** The triples are the pair map that the reported pairs are read from. */
  lemma TableIsPairMap(fileNodes: map<string, seq<nat>>, commits: seq<seq<string>>, changes: map<nat, nat>,
                       pairs: map<Pair, nat>, out: seq<(Pair, nat)>)
    requires Totals(fileNodes, commits, changes, pairs) && ListsTogether(fileNodes, commits, out)
    ensures forall p: Pair :: p in pairs <==> exists i :: 0 <= i < |out| && out[i].0 == p
    ensures forall i :: 0 <= i < |out| ==> out[i].0 in pairs && pairs[out[i].0] == out[i].1
    ensures |out| == |pairs|
  {
    forall p: Pair
      ensures p in pairs <==> p in Firsts(out)
      ensures p in pairs <==> exists i :: 0 <= i < |out| && out[i].0 == p
    {
      PairListed(fileNodes, commits, changes, pairs, out, p);
      InFirsts(out, p);
    }
    forall i | 0 <= i < |out|
      ensures out[i].0 in pairs && pairs[out[i].0] == out[i].1
    {
      assert Get(pairs, out[i].0) == Together(fileNodes, commits, out[i].0);
    }
    DistinctCard(Firsts(out));
    assert Members(Firsts(out)) == pairs.Keys;
  }

  lemma PairListed(fileNodes: map<string, seq<nat>>, commits: seq<seq<string>>, changes: map<nat, nat>,
                   pairs: map<Pair, nat>, out: seq<(Pair, nat)>, p: Pair)
    requires Totals(fileNodes, commits, changes, pairs) && ListsTogether(fileNodes, commits, out)
    ensures p in pairs <==> exists i :: 0 <= i < |out| && out[i].0 == p
  {
    assert Get(pairs, p) == if p.0 < p.1 then Together(fileNodes, commits, p) else 0;
  }
}
