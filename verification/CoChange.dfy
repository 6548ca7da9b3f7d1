/** Temporal coupling from commit history: per-node change counts, pair counts, confidence. */
module CoChange {
  import opened Graphs
  import opened PairCounts
  import opened Sorting

  const MAX_COCHANGE_NODES_PER_COMMIT: nat := 200

  datatype CoChangePair = CoChangePair(nodeA: nat, nodeB: nat, times: nat, totalA: nat, totalB: nat, confidence: real)

  /** The nodes living in the files of a commit. */
  ghost function Touched(fileNodes: map<string, seq<nat>>, files: seq<string>): set<nat> {
    set f, n | f in files && f in fileNodes && n in fileNodes[f] :: n
  }

  /** In how many commits `n` changed. */
  ghost function Changes(fileNodes: map<string, seq<nat>>, commits: seq<seq<string>>, n: nat): nat {
    if commits == [] then 0
    else
      Changes(fileNodes, commits[..|commits| - 1], n)
      + if n in Touched(fileNodes, commits[|commits| - 1]) then 1 else 0
  }

  /** In how many commits, those with more than 200 nodes aside, both changed. */
  ghost function Together(fileNodes: map<string, seq<nat>>, commits: seq<seq<string>>, p: Pair): nat {
    if commits == [] then 0
    else
      var t := Touched(fileNodes, commits[|commits| - 1]);
      Together(fileNodes, commits[..|commits| - 1], p)
      + if p.0 in t && p.1 in t && |t| <= 200 then 1 else 0
  }

  lemma {:induction false} TogetherBounded(fileNodes: map<string, seq<nat>>, commits: seq<seq<string>>, p: Pair)
    ensures Together(fileNodes, commits, p) <= Changes(fileNodes, commits, p.0)
    ensures Together(fileNodes, commits, p) <= Changes(fileNodes, commits, p.1)
  {
    if commits != [] {
      TogetherBounded(fileNodes, commits[..|commits| - 1], p);
    }
  }

  // ---------------------------------------------------------------- one commit's nodes

  /** Collect, sort, deduplicate. */
  method CommitNodes(fileNodes: map<string, seq<nat>>, files: seq<string>) returns (nodes: seq<nat>)
    ensures Ascending(nodes) && Members(nodes) == Touched(fileNodes, files) && |nodes| == |Touched(fileNodes, files)|
  {
    var all: seq<nat> := [];
    var i := 0;
    while i < |files|
      invariant 0 <= i <= |files|
      invariant Members(all) == Touched(fileNodes, files[..i])
    {
      assert files[..i + 1] == files[..i] + [files[i]];
      TouchedSnoc(fileNodes, files[..i], files[i]);
      if files[i] in fileNodes {
        MembersConcat(all, fileNodes[files[i]]);
        all := all + fileNodes[files[i]];
      }
      i := i + 1;
    }
    assert files[..i] == files;
    nodes := Dedup(SortByKey(Number, all));
    SortDedup(all);
    DistinctCard(nodes);
  }

  lemma TouchedSnoc(fileNodes: map<string, seq<nat>>, files: seq<string>, f: string)
    ensures Touched(fileNodes, files + [f]) ==
            Touched(fileNodes, files) + if f in fileNodes then Members(fileNodes[f]) else {}
  {
  }

  lemma MembersConcat(a: seq<nat>, b: seq<nat>)
    ensures Members(a + b) == Members(a) + Members(b)
  {
  }

  // ---------------------------------------------------------------- counting maps

  method BumpAll(nodes: seq<nat>, changes0: map<nat, nat>) returns (changes: map<nat, nat>)
    requires Ascending(nodes) && Positive(changes0)
    ensures Positive(changes)
    ensures forall n: nat :: Get(changes, n) == Get(changes0, n) + if n in nodes then 1 else 0
  {
    changes := changes0;
    var i := 0;
    while i < |nodes|
      invariant 0 <= i <= |nodes| && Positive(changes)
      invariant forall n: nat :: Get(changes, n) == Get(changes0, n) + if n in nodes[..i] then 1 else 0
    {
      assert nodes[..i + 1] == nodes[..i] + [nodes[i]];
      changes := Bump(changes, nodes[i]);
      i := i + 1;
    }
    assert nodes[..i] == nodes;
  }

  /** The pair lies at positions before `(i, j)` in the nested loops. */
  ghost predicate Before(nodes: seq<nat>, i: nat, j: nat, p: Pair) {
    exists x, y :: 0 <= x < y < |nodes| && p == (nodes[x], nodes[y]) && (x < i || (x == i && y < j))
  }

  lemma BeforeNext(nodes: seq<nat>, i: nat, j: nat, p: Pair)
    requires Ascending(nodes) && i < j < |nodes|
    ensures Before(nodes, i, j + 1, p) <==> Before(nodes, i, j, p) || p == (nodes[i], nodes[j])
    ensures p == (nodes[i], nodes[j]) ==> !Before(nodes, i, j, p)
  {
    if Before(nodes, i, j, p) {
      var x, y :| 0 <= x < y < |nodes| && p == (nodes[x], nodes[y]) && (x < i || (x == i && y < j));
    }
  }

  lemma BeforeRow(nodes: seq<nat>, i: nat, p: Pair)
    requires i < |nodes|
    ensures Before(nodes, i, |nodes|, p) <==> Before(nodes, i + 1, 0, p)
    ensures Before(nodes, i, i + 1, p) <==> Before(nodes, i, 0, p)
  {
  }

  lemma BeforeAll(nodes: seq<nat>, p: Pair)
    requires Ascending(nodes)
    ensures Before(nodes, |nodes|, 0, p) <==> p.0 < p.1 && p.0 in nodes && p.1 in nodes
    ensures !Before(nodes, 0, 0, p)
  {
    if p.0 < p.1 && p.0 in nodes && p.1 in nodes {
      var x, y :| 0 <= x < |nodes| && 0 <= y < |nodes| && nodes[x] == p.0 && nodes[y] == p.1;
      assert p == (nodes[x], nodes[y]);
    }
  }

  ghost predicate Counting(nodes: seq<nat>, i: nat, j: nat, base: map<Pair, nat>, m: map<Pair, nat>) {
    Positive(m) && forall p: Pair :: Get(m, p) == Get(base, p) + if Before(nodes, i, j, p) then 1 else 0
  }

  lemma CountNext(nodes: seq<nat>, i: nat, j: nat, base: map<Pair, nat>, m: map<Pair, nat>)
    requires Ascending(nodes) && i < j < |nodes| && Counting(nodes, i, j, base, m)
    ensures Counting(nodes, i, j + 1, base, Bump(m, (nodes[i], nodes[j])))
  {
    forall p: Pair
      ensures Get(Bump(m, (nodes[i], nodes[j])), p) == Get(base, p) + if Before(nodes, i, j + 1, p) then 1 else 0
    {
      BeforeNext(nodes, i, j, p);
    }
  }

  lemma CountRowStart(nodes: seq<nat>, i: nat, base: map<Pair, nat>, m: map<Pair, nat>)
    requires i < |nodes| && Counting(nodes, i, 0, base, m)
    ensures Counting(nodes, i, i + 1, base, m)
  {
    forall p: Pair
      ensures Get(m, p) == Get(base, p) + if Before(nodes, i, i + 1, p) then 1 else 0
    {
      BeforeRow(nodes, i, p);
    }
  }

  lemma CountRowEnd(nodes: seq<nat>, i: nat, base: map<Pair, nat>, m: map<Pair, nat>)
    requires i < |nodes| && Counting(nodes, i, |nodes|, base, m)
    ensures Counting(nodes, i + 1, 0, base, m)
  {
    forall p: Pair
      ensures Get(m, p) == Get(base, p) + if Before(nodes, i + 1, 0, p) then 1 else 0
    {
      BeforeRow(nodes, i, p);
    }
  }

  /** Every unordered pair of the commit's nodes once. */
  method BumpPairs(nodes: seq<nat>, pairs0: map<Pair, nat>) returns (pairs: map<Pair, nat>)
    requires Ascending(nodes) && Positive(pairs0)
    ensures Positive(pairs)
    ensures forall p: Pair ::
        Get(pairs, p) == Get(pairs0, p) + if p.0 < p.1 && p.0 in nodes && p.1 in nodes then 1 else 0
  {
    pairs := pairs0;
    forall p: Pair
      ensures !Before(nodes, 0, 0, p)
      ensures Before(nodes, |nodes|, 0, p) <==> p.0 < p.1 && p.0 in nodes && p.1 in nodes
    {
      BeforeAll(nodes, p);
    }
    for i := 0 to |nodes|
      invariant Counting(nodes, i, 0, pairs0, pairs)
    {
      pairs := BumpRow(nodes, i, pairs, pairs0);
    }
  }

  /** The pairs of the `i`-th node with those after it. */
  method BumpRow(nodes: seq<nat>, i: nat, pairs0: map<Pair, nat>, ghost base: map<Pair, nat>)
      returns (pairs: map<Pair, nat>)
    requires Ascending(nodes) && i < |nodes| && Counting(nodes, i, 0, base, pairs0)
    ensures Counting(nodes, i + 1, 0, base, pairs)
  {
    pairs := pairs0;
    CountRowStart(nodes, i, base, pairs);
    for j := i + 1 to |nodes|
      invariant Counting(nodes, i, j, base, pairs)
    {
      CountNext(nodes, i, j, base, pairs);
      pairs := Bump(pairs, (nodes[i], nodes[j]));
    }
    CountRowEnd(nodes, i, base, pairs);
  }

  // ---------------------------------------------------------------- all commits

  ghost predicate Totals(fileNodes: map<string, seq<nat>>, commits: seq<seq<string>>, changes: map<nat, nat>,
      pairs: map<Pair, nat>) {
    && Positive(changes) && Positive(pairs)
    && (forall n: nat :: Get(changes, n) == Changes(fileNodes, commits, n))
    && (forall p: Pair :: Get(pairs, p) == if p.0 < p.1 then Together(fileNodes, commits, p) else 0)
  }

  method CountCommit(fileNodes: map<string, seq<nat>>, ghost before: seq<seq<string>>, files: seq<string>,
                     changes0: map<nat, nat>, pairs0: map<Pair, nat>)
    returns (changes: map<nat, nat>, pairs: map<Pair, nat>)
    requires Totals(fileNodes, before, changes0, pairs0)
    ensures Totals(fileNodes, before + [files], changes, pairs)
  {
    var nodes := CommitNodes(fileNodes, files);
    changes := BumpAll(nodes, changes0);
    pairs := pairs0;
    if |nodes| <= MAX_COCHANGE_NODES_PER_COMMIT {
      pairs := BumpPairs(nodes, pairs0);
    }
    ghost var after := before + [files];
    assert after[..|after| - 1] == before;
    assert forall n: nat :: n in nodes <==> n in Touched(fileNodes, files);
  }

  method CountCommits(fileNodes: map<string, seq<nat>>, commits: seq<seq<string>>)
    returns (changes: map<nat, nat>, pairs: map<Pair, nat>)
    ensures Totals(fileNodes, commits, changes, pairs)
  {
    changes, pairs := map[], map[];
    var i := 0;
    while i < |commits|
      invariant 0 <= i <= |commits|
      invariant Totals(fileNodes, commits[..i], changes, pairs)
    {
      changes, pairs := CountCommit(fileNodes, commits[..i], commits[i], changes, pairs);
      assert commits[..i] + [commits[i]] == commits[..i + 1];
      i := i + 1;
    }
    assert commits[..i] == commits;
  }

  // ---------------------------------------------------------------- the result list

  /** Highest confidence first, ties by count. */
  predicate Precedes(a: CoChangePair, b: CoChangePair) {
    a.confidence > b.confidence || (a.confidence == b.confidence && a.times >= b.times)
  }

  /** No pair is more confident than one before it, nor changed together more often at equal confidence. */
  ghost predicate Ranked(s: seq<CoChangePair>) {
    forall i, j :: 0 <= i < j < |s| ==>
      && s[i].confidence >= s[j].confidence
      && (s[i].confidence == s[j].confidence ==> s[i].times >= s[j].times)
  }

  function InsertRanked(s: seq<CoChangePair>, x: CoChangePair): seq<CoChangePair> {
    if s == [] || Precedes(s[|s| - 1], x) then s + [x]
    else InsertRanked(s[..|s| - 1], x) + [s[|s| - 1]]
  }

  lemma {:induction false} InsertElements(s: seq<CoChangePair>, x: CoChangePair)
    ensures multiset(InsertRanked(s, x)) == multiset(s) + multiset{x}
  {
    if s != [] && !Precedes(s[|s| - 1], x) {
      InsertElements(s[..|s| - 1], x);
      SplitLast(s);
    }
  }

  lemma {:induction false} InsertKeepsRanked(s: seq<CoChangePair>, x: CoChangePair)
    requires Ranked(s)
    ensures Ranked(InsertRanked(s, x))
  {
    if s != [] && !Precedes(s[|s| - 1], x) {
      var rest, last := s[..|s| - 1], s[|s| - 1];
      InsertKeepsRanked(rest, x);
      InsertedPrecede(rest, x, last);
      RankedSnoc(InsertRanked(rest, x), last);
    } else if s != [] {
      forall i | 0 <= i < |s|
        ensures Precedes(s[i], x)
      {
        assert Precedes(s[i], s[|s| - 1]);
      }
      RankedSnoc(s, x);
    }
  }

  lemma RankedSnoc(s: seq<CoChangePair>, x: CoChangePair)
    requires Ranked(s) && forall i :: 0 <= i < |s| ==> Precedes(s[i], x)
    ensures Ranked(s + [x])
  {
  }

  lemma InsertedPrecede(rest: seq<CoChangePair>, x: CoChangePair, last: CoChangePair)
    requires Precedes(x, last) && forall i :: 0 <= i < |rest| ==> Precedes(rest[i], last)
    ensures forall i :: 0 <= i < |InsertRanked(rest, x)| ==> Precedes(InsertRanked(rest, x)[i], last)
  {
    var r := InsertRanked(rest, x);
    InsertElements(rest, x);
    forall i | 0 <= i < |r|
      ensures Precedes(r[i], last)
    {
      assert r[i] in multiset(r);
      assert r[i] == x || r[i] in multiset(rest);
    }
  }

  /** What one reported pair says. */
  ghost predicate Reports(fileNodes: map<string, seq<nat>>, commits: seq<seq<string>>, minSupport: nat,
      c: CoChangePair) {
    && c.nodeA < c.nodeB
    && c.times == Together(fileNodes, commits, (c.nodeA, c.nodeB)) && c.times >= 1 && c.times >= minSupport
    && c.totalA == Changes(fileNodes, commits, c.nodeA) && c.totalB == Changes(fileNodes, commits, c.nodeB)
    && c.times <= c.totalA && c.times <= c.totalB
    && RightConfidence(c.confidence, c.times, c.totalA, c.totalB)
  }

  /** The share of the more often changed node's commits, between zero and one. */
  ghost predicate RightConfidence(confidence: real, times: nat, totalA: nat, totalB: nat) {
    && 0.0 < confidence <= 1.0
    && confidence * (if totalA > totalB then totalA else totalB) as real == times as real
  }

  function Confidence(times: nat, totalA: nat, totalB: nat): real {
    var maxTotal := if totalA > totalB then totalA else totalB;
    if maxTotal > 0 then times as real / maxTotal as real else 0.0
  }

  lemma ConfidenceBounds(times: nat, totalA: nat, totalB: nat)
    requires 0 < times <= totalA && times <= totalB
    ensures RightConfidence(Confidence(times, totalA, totalB), times, totalA, totalB)
  {
    QuotientBounds(times as real, (if totalA > totalB then totalA else totalB) as real);
  }

  lemma QuotientBounds(t: real, m: real)
    requires 0.0 < t <= m
    ensures 0.0 < t / m <= 1.0 && t / m * m == t
  {
    assert t / m * m == t;
  }

  /** Every supported pair exactly once, ranked. */
  ghost predicate ResultOf(fileNodes: map<string, seq<nat>>, commits: seq<seq<string>>, minSupport: nat,
      r: seq<CoChangePair>) {
    && Ranked(r)
    && (forall c :: c in multiset(r) ==> Reports(fileNodes, commits, minSupport, c) && multiset(r)[c] == 1)
    && (forall p: Pair ::
          p.0 < p.1 && Together(fileNodes, commits, p) >= 1 && Together(fileNodes, commits, p) >= minSupport
          ==> exists c :: c in multiset(r) && (c.nodeA, c.nodeB) == p)
  }

  lemma ReportOf(fileNodes: map<string, seq<nat>>, commits: seq<seq<string>>, minSupport: nat,
                 changes: map<nat, nat>, pairs: map<Pair, nat>, p: Pair)
    requires Totals(fileNodes, commits, changes, pairs) && p in pairs && pairs[p] >= minSupport
    ensures Reports(fileNodes, commits, minSupport,
                    CoChangePair(p.0, p.1, pairs[p], Get(changes, p.0), Get(changes, p.1),
                                 Confidence(pairs[p], Get(changes, p.0), Get(changes, p.1))))
  {
    CountsOf(fileNodes, commits, changes, pairs, p);
    var times, a, b := pairs[p], Get(changes, p.0), Get(changes, p.1);
    TogetherBounded(fileNodes, commits, p);
    assert (p.0, p.1) == p;
    ConfidenceBounds(times, a, b);
  }

  lemma CountsOf(fileNodes: map<string, seq<nat>>, commits: seq<seq<string>>, changes: map<nat, nat>,
                 pairs: map<Pair, nat>, p: Pair)
    requires Totals(fileNodes, commits, changes, pairs) && p in pairs
    ensures p.0 < p.1 && 0 < pairs[p] == Together(fileNodes, commits, p)
    ensures Get(changes, p.0) == Changes(fileNodes, commits, p.0)
    ensures Get(changes, p.1) == Changes(fileNodes, commits, p.1)
  {
    assert Get(pairs, p) == pairs[p];
  }

  /** The ranked list of the pairs of `done`. */
  ghost predicate Listing(r: seq<CoChangePair>, done: set<Pair>, minSupport: nat, changes: map<nat, nat>,
      pairs: map<Pair, nat>)
    requires done <= pairs.Keys
  {
    && Ranked(r)
    && (forall c :: c in multiset(r) ==> multiset(r)[c] == 1 && IsEntry(c, done, minSupport, changes, pairs))
    && (forall p :: p in done && pairs[p] >= minSupport ==> Entry(changes, pairs, p) in multiset(r))
  }

  ghost predicate IsEntry(c: CoChangePair, done: set<Pair>, minSupport: nat, changes: map<nat, nat>,
      pairs: map<Pair, nat>)
    requires done <= pairs.Keys
  {
    var p := (c.nodeA, c.nodeB);
    p in done && pairs[p] >= minSupport && c == Entry(changes, pairs, p)
  }

  function Entry(changes: map<nat, nat>, pairs: map<Pair, nat>, p: Pair): CoChangePair
    requires p in pairs
  {
    var a, b := if p.0 in changes then changes[p.0] else 0, if p.1 in changes then changes[p.1] else 0;
    CoChangePair(p.0, p.1, pairs[p], a, b, Confidence(pairs[p], a, b))
  }

  lemma ListNext(r: seq<CoChangePair>, done: set<Pair>, minSupport: nat, changes: map<nat, nat>,
      pairs: map<Pair, nat>, p: Pair)
    requires done <= pairs.Keys && p in pairs && p !in done && Listing(r, done, minSupport, changes, pairs)
    ensures Listing(if pairs[p] >= minSupport then InsertRanked(r, Entry(changes, pairs, p)) else r,
                    done + {p}, minSupport, changes, pairs)
  {
    InsertKeepsRanked(r, Entry(changes, pairs, p));
    InsertElements(r, Entry(changes, pairs, p));
  }

  /** The pairs that changed together, with totals and confidence. */
  method ComputeCoChanges(fileNodes: map<string, seq<nat>>, commits: seq<seq<string>>, minSupport: nat)
      returns (r: seq<CoChangePair>)
    ensures ResultOf(fileNodes, commits, minSupport, r)
    ensures forall i, j :: 0 <= i < j < |r| ==> r[i].confidence >= r[j].confidence
    ensures forall i, j :: 0 <= i < j < |r| && r[i].confidence == r[j].confidence ==> r[i].times >= r[j].times
  {
    if commits == [] {
      return [];
    }
    var changes, pairs := CountCommits(fileNodes, commits);
    r := [];
    var left := pairs.Keys;
    ghost var done: set<Pair> := {};
    while left != {}
      invariant done + left == pairs.Keys && done !! left
      invariant Listing(r, done, minSupport, changes, pairs)
    {
      var p :| p in left;
      ListNext(r, done, minSupport, changes, pairs, p);
      if pairs[p] >= minSupport {
        r := InsertRanked(r, Entry(changes, pairs, p));
      }
      left, done := left - {p}, done + {p};
    }
    assert done == pairs.Keys;
    ListingIsResult(fileNodes, commits, minSupport, changes, pairs, r);
  }

  lemma ListingIsResult(fileNodes: map<string, seq<nat>>, commits: seq<seq<string>>, minSupport: nat,
                        changes: map<nat, nat>, pairs: map<Pair, nat>, r: seq<CoChangePair>)
    requires Totals(fileNodes, commits, changes, pairs) && Listing(r, pairs.Keys, minSupport, changes, pairs)
    ensures ResultOf(fileNodes, commits, minSupport, r)
  {
    forall c | c in multiset(r)
      ensures Reports(fileNodes, commits, minSupport, c)
    {
      ReportOf(fileNodes, commits, minSupport, changes, pairs, (c.nodeA, c.nodeB));
    }
    forall p: Pair | p.0 < p.1 && Together(fileNodes, commits, p) >= 1 && Together(fileNodes, commits, p) >= minSupport
      ensures exists c :: c in multiset(r) && (c.nodeA, c.nodeB) == p
    {
      assert Get(pairs, p) == Together(fileNodes, commits, p);
      assert Entry(changes, pairs, p) in multiset(r);
    }
  }

  predicate Touches(c: CoChangePair, seeds: set<nat>) {
    c.nodeA in seeds || c.nodeB in seeds
  }

  /** The pairs with a seed in them, in the same order. */
  ghost function Touching(s: seq<CoChangePair>, seeds: set<nat>): seq<CoChangePair> {
    if s == [] then []
    else Touching(s[..|s| - 1], seeds) + if Touches(s[|s| - 1], seeds) then [s[|s| - 1]] else []
  }

  lemma {:induction false} TouchingElements(s: seq<CoChangePair>, seeds: set<nat>)
    ensures forall c :: multiset(Touching(s, seeds))[c] ==
                        if c.nodeA in seeds || c.nodeB in seeds then multiset(s)[c] else 0
  {
    if s != [] {
      TouchingElements(s[..|s| - 1], seeds);
      SplitLast(s);
    }
  }

  /** Each touching pair stays as often as it was, no other pair stays, and the ranking is kept. */
  lemma {:induction false} TouchingKeeps(s: seq<CoChangePair>, seeds: set<nat>)
    ensures forall c :: multiset(Touching(s, seeds))[c] ==
                        if c.nodeA in seeds || c.nodeB in seeds then multiset(s)[c] else 0
    ensures Ranked(s) ==> Ranked(Touching(s, seeds))
  {
    TouchingElements(s, seeds);
    if s != [] && Ranked(s) {
      TouchingKeeps(s[..|s| - 1], seeds);
      if Touches(s[|s| - 1], seeds) {
        TouchingLast(s, seeds);
      }
    }
  }

  lemma TouchingLast(s: seq<CoChangePair>, seeds: set<nat>)
    requires s != [] && Ranked(s) && Ranked(Touching(s[..|s| - 1], seeds))
    requires forall c :: multiset(Touching(s[..|s| - 1], seeds))[c] ==
                         if Touches(c, seeds) then multiset(s[..|s| - 1])[c] else 0
    ensures Ranked(Touching(s[..|s| - 1], seeds) + [s[|s| - 1]])
  {
    var front, t := s[..|s| - 1], Touching(s[..|s| - 1], seeds);
    forall k | 0 <= k < |t|
      ensures Precedes(t[k], s[|s| - 1])
    {
      var c := t[k];
      assert c in multiset(t);
      assert multiset(t)[c] == if Touches(c, seeds) then multiset(front)[c] else 0;
      assert t[k] in front;
      var j :| 0 <= j < |front| && front[j] == t[k];
      assert Precedes(s[j], s[|s| - 1]);
    }
  }

  /** Keeps the pairs with a seed in them. */
  method Filter(all: seq<CoChangePair>, seeds: set<nat>) returns (r: seq<CoChangePair>)
    ensures r == Touching(all, seeds)
  {
    r := [];
    for i := 0 to |all|
      invariant r == Touching(all[..i], seeds)
    {
      assert all[..i + 1][..i] == all[..i];
      if Touches(all[i], seeds) {
        r := r + [all[i]];
      }
    }
    assert all[..|all|] == all;
  }

  /** Exactly the reported pairs with a seed in them: the full result with the others dropped. */
  method CoChangesForNodes(fileNodes: map<string, seq<nat>>, commits: seq<seq<string>>, seeds: set<nat>,
      minSupport: nat)
    returns (r: seq<CoChangePair>, ghost full: seq<CoChangePair>)
    ensures ResultOf(fileNodes, commits, minSupport, full)
    ensures r == Touching(full, seeds)
    ensures forall c :: multiset(r)[c] == if c.nodeA in seeds || c.nodeB in seeds then multiset(full)[c] else 0
    ensures forall i, j :: 0 <= i < j < |r| ==> r[i].confidence >= r[j].confidence
    ensures forall i, j :: 0 <= i < j < |r| && r[i].confidence == r[j].confidence ==> r[i].times >= r[j].times
  {
    var all := ComputeCoChanges(fileNodes, commits, minSupport);
    full := all;
    r := Filter(all, seeds);
    TouchingKeeps(all, seeds);
  }
}
