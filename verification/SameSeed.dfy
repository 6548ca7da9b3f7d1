/** One seed, one result: adjacency lists that name the same neighbours with the same weights, in any
    order, give the same moves, levels and labels. */
module SameSeed {
  import opened Coarsening
  import opened Communities
  import opened LocalMoves
  import opened Modularity
  import opened Shuffle
  import opened Sorting
  import opened StoredGraph
  import opened Sums
  import opened Tallies

  /** The lists agree but for the order, and the splitting of weights, within rows. */
  ghost predicate Alike(a: Adj, b: Adj) {
    && ValidAdj(a) && ValidAdj(b) && |a| == |b|
    && (forall i: nat, j: nat {:trigger Weights(a)(i, j)} {:trigger Weights(b)(i, j)} :: i < |a| && j < |a| ==>
          Weights(a)(i, j) == Weights(b)(i, j))
    && forall i: nat, j: nat {:trigger Names(a[i], j)} {:trigger Names(b[i], j)} :: i < |a| && j < |a| ==>
         (Names(a[i], j) <==> Names(b[i], j))
  }

  // ---------------------------------------------------------------- sums

  lemma SameDegree(a: Adj, b: Adj, i: nat)
    requires Alike(a, b)
    ensures Degree(a, i) == Degree(b, i)
  {
    if i < |a| {
      RowTotalSum(a[i], |a|);
      RowTotalSum(b[i], |b|);
      forall j: nat | j < |a|
        ensures RowWeight(a[i], j) == RowWeight(b[i], j)
      {
        assert Weights(a)(i, j) == Weights(b)(i, j);
      }
      SumEq(|a|, (j: nat) => RowWeight(a[i], j), (j: nat) => RowWeight(b[i], j));
    }
  }

  lemma SameTotal(a: Adj, b: Adj)
    requires Alike(a, b)
    ensures TotalWeight(a) == TotalWeight(b)
  {
    forall i: nat
      ensures Degree(a, i) == Degree(b, i)
    {
      SameDegree(a, b, i);
    }
    SumEq(|a|, (i: nat) => Degree(a, i), (i: nat) => Degree(b, i));
  }

  lemma SameTie(a: Adj, b: Adj, c: seq<nat>, x: nat, t: nat)
    requires Alike(a, b) && |c| == |a| && x < |a|
    ensures ToCommunity(Weights(a), c, x, t) == ToCommunity(Weights(b), c, x, t)
  {
    forall j: nat | j < |c|
      ensures Labelled(c, Weights(a), x, t)(j) == Labelled(c, Weights(b), x, t)(j)
    {
      LabelledAt(c, Weights(a), x, t, j);
      LabelledAt(c, Weights(b), x, t, j);
    }
    SumEq(|c|, Labelled(c, Weights(a), x, t), Labelled(c, Weights(b), x, t));
  }

  lemma SameSigma(a: Adj, b: Adj, c: seq<nat>, t: nat)
    requires Alike(a, b)
    ensures Sigma(a, c, t) == Sigma(b, c, t)
  {
    forall i: nat
      ensures Degree(a, i) == Degree(b, i)
    {
      SameDegree(a, b, i);
    }
    SumEq(|c|, (i: nat) => if i < |c| && c[i] == t then Degree(a, i) else 0.0,
          (i: nat) => if i < |c| && c[i] == t then Degree(b, i) else 0.0);
  }

  lemma SamePairSums(a: Adj, b: Adj, c: seq<nat>)
    requires Alike(a, b) && |c| == |a|
    ensures PairSum(Weights(a), c) == PairSum(Weights(b), c)
    ensures PairSum(Degrees(a), c) == PairSum(Degrees(b), c)
  {
    PairSumEq(Weights(a), Weights(b), c);
    forall i: nat, j: nat | i < |c| && j < |c|
      ensures Degrees(a)(i, j) == Degrees(b)(i, j)
    {
      SameDegree(a, b, i);
      SameDegree(a, b, j);
    }
    PairSumEq(Degrees(a), Degrees(b), c);
  }

  lemma SameReport(a: Adj, b: Adj, c: seq<nat>, gamma: real)
    requires Alike(a, b) && |c| == |a| && TotalWeight(a) != 0.0 && TotalWeight(b) != 0.0
    ensures Reported(a, c, gamma) == Reported(b, c, gamma)
  {
    SameTotal(a, b);
    SamePairSums(a, b, c);
  }

  // ---------------------------------------------------------------- moves

  lemma SameGain(a: Adj, b: Adj, c: seq<nat>, gamma: real, x: nat, t: nat)
    requires Alike(a, b) && |c| == |a| && x < |a| && TotalWeight(a) != 0.0 && TotalWeight(b) != 0.0
    ensures Gains(a, c, gamma, x)(t) == Gains(b, c, gamma, x)(t)
  {
    SameTotal(a, b);
    SameTie(a, b, c, x, t);
    SameTie(a, b, c, x, c[x]);
    SameSigma(a, b, c, t);
    SameSigma(a, b, c, c[x]);
    SameDegree(a, b, x);
  }

  lemma CandidateNamed(adj: Adj, c: seq<nat>, x: nat, t: nat)
    requires ValidAdj(adj) && |c| == |adj| && x < |adj|
    ensures t in Candidates(adj, c, x) <==> t != c[x] && exists j: nat :: j < |c| && Names(adj[x], j) && c[j] == t
  {
    if t in Candidates(adj, c, x) {
      var e: nat :| e < |adj[x]| && adj[x][e].0 < |c| && c[adj[x][e].0] == t;
      assert Names(adj[x], adj[x][e].0);
    }
    if t != c[x] && exists j: nat :: j < |c| && Names(adj[x], j) && c[j] == t {
      var j: nat :| j < |c| && Names(adj[x], j) && c[j] == t;
      var e: nat :| e < |adj[x]| && adj[x][e].0 == j;
      assert c[adj[x][e].0] == t;
    }
  }

  lemma SameCandidates(a: Adj, b: Adj, c: seq<nat>, x: nat)
    requires Alike(a, b) && |c| == |a| && x < |a|
    ensures Candidates(a, c, x) == Candidates(b, c, x)
  {
    forall t: nat
      ensures t in Candidates(a, c, x) <==> t in Candidates(b, c, x)
    {
      CandidateNamed(a, c, x, t);
      CandidateNamed(b, c, x, t);
    }
  }

  lemma SameChoice(candidates: set<nat>, f: nat -> real, g: nat -> real, own: nat)
    requires forall t: nat :: f(t) == g(t)
    ensures Attracted(candidates, f, own) <==> Attracted(candidates, g, own)
    ensures forall t: nat :: IsBest(candidates, f, t) <==> IsBest(candidates, g, t)
  {
    forall t: nat
      ensures Attracts(candidates, f, own, t) <==> Attracts(candidates, g, own, t)
    {
    }
    forall t: nat
      ensures IsBest(candidates, f, t) <==> IsBest(candidates, g, t)
    {
      SameBest(candidates, f, g, t);
      SameBest(candidates, g, f, t);
    }
  }

  lemma SameBest(candidates: set<nat>, f: nat -> real, g: nat -> real, t: nat)
    requires forall u: nat :: f(u) == g(u)
    ensures IsBest(candidates, f, t) ==> IsBest(candidates, g, t)
  {
    if IsBest(candidates, f, t) {
      forall u: nat | u in candidates
        ensures g(u) <= g(t) && (u < t ==> g(u) < g(t))
      {
        assert f(u) <= f(t);
      }
    }
  }

  lemma SameMoves(a: Adj, b: Adj, c: seq<nat>, gamma: real, x: nat)
    requires Alike(a, b) && |c| == |a| && x < |a| && TotalWeight(a) != 0.0 && TotalWeight(b) != 0.0
    ensures Restless(a, c, gamma, x) <==> Restless(b, c, gamma, x)
    ensures forall t: nat :: Target(a, c, gamma, x, t) <==> Target(b, c, gamma, x, t)
  {
    SameCandidates(a, b, c, x);
    forall t: nat
      ensures Gains(a, c, gamma, x)(t) == Gains(b, c, gamma, x)(t)
    {
      SameGain(a, b, c, gamma, x, t);
    }
    SameChoice(Candidates(a, c, x), Gains(a, c, gamma, x), Gains(b, c, gamma, x), c[x]);
    forall t: nat
      ensures Target(a, c, gamma, x, t) <==> Target(b, c, gamma, x, t)
    {
    }
  }

  lemma SameVisit(a: Adj, b: Adj, gamma: real, x: nat, c: seq<nat>, next: seq<nat>)
    requires Alike(a, b) && |c| == |a| && x < |a| && TotalWeight(a) != 0.0 && TotalWeight(b) != 0.0
    requires Visited(a, gamma, x, c, next)
    ensures Visited(b, gamma, x, c, next)
  {
    SameMoves(a, b, c, gamma, x);
    if Restless(a, c, gamma, x) {
      var t: nat :| Target(a, c, gamma, x, t) && next == c[x := t];
      assert Target(b, c, gamma, x, t);
    }
  }

  ghost predicate Below(order: seq<nat>, n: nat) {
    forall k :: 0 <= k < |order| ==> order[k] < n
  }

  lemma {:induction false} SamePass(a: Adj, b: Adj, gamma: real, order: seq<nat>, c: seq<nat>, next: seq<nat>,
                                    moved: bool)
    requires Alike(a, b) && |c| == |a| && TotalWeight(a) != 0.0 && TotalWeight(b) != 0.0 && Below(order, |a|)
    requires PassOf(a, gamma, order, c, next, moved)
    ensures PassOf(b, gamma, order, c, next, moved)
  {
    if order != [] {
      var front, x := order[..|order| - 1], order[|order| - 1];
      var mid: seq<nat>, m: bool :| PassOf(a, gamma, front, c, mid, m) && |mid| == |a|
                                    && Visited(a, gamma, x, mid, next) && moved == (m || Restless(a, mid, gamma, x));
      SamePass(a, b, gamma, front, c, mid, m);
      SameVisit(a, b, gamma, x, mid, next);
      SameMoves(a, b, mid, gamma, x);
    }
  }

  lemma {:induction false} TraceLengths(a: Adj, gamma: real, order: seq<nat>, c: seq<nat>, next: seq<nat>,
                                        trace: seq<seq<nat>>, i: nat)
    requires |c| == |a| && TotalWeight(a) != 0.0 && Below(order, |a|) && Chain(a, gamma, order, c, next, trace)
    requires i < |trace|
    ensures |trace[i]| == |a|
  {
    if i > 0 {
      TraceLengths(a, gamma, order, c, next, trace, i - 1);
      assert MovesAt(a, gamma, order, trace, i - 1);
      PassUnique(a, gamma, order, trace[i - 1], trace[i], true, trace[i], true);
    }
  }

  lemma SameChain(a: Adj, b: Adj, gamma: real, order: seq<nat>, c: seq<nat>, next: seq<nat>, trace: seq<seq<nat>>)
    requires Alike(a, b) && |c| == |a| && TotalWeight(a) != 0.0 && TotalWeight(b) != 0.0 && Below(order, |a|)
    requires Chain(a, gamma, order, c, next, trace)
    ensures Chain(b, gamma, order, c, next, trace)
  {
    forall i: nat | i + 1 < |trace|
      ensures MovesAt(b, gamma, order, trace, i)
    {
      assert MovesAt(a, gamma, order, trace, i);
      TraceLengths(a, gamma, order, c, next, trace, i);
      SamePass(a, b, gamma, order, trace[i], trace[i + 1], true);
    }
  }

  lemma SameSettled(a: Adj, b: Adj, gamma: real, c: seq<nat>)
    requires Alike(a, b) && |c| == |a| && TotalWeight(a) != 0.0 && TotalWeight(b) != 0.0 && Settled(a, c, gamma)
    ensures Settled(b, c, gamma)
  {
    forall x: nat | x < |b|
      ensures !Restless(b, c, gamma, x)
    {
      SameMoves(a, b, c, gamma, x);
    }
  }

  /** The phase on one list is the phase on the other. */
  lemma SamePhase(a: Adj, b: Adj, gamma: real, order: seq<nat>, c: seq<nat>, next: seq<nat>, improved: bool)
    requires Alike(a, b) && PhaseOf(a, gamma, order, c, next, improved)
    ensures PhaseOf(b, gamma, order, c, next, improved)
  {
    SameTotal(a, b);
    if TotalWeight(a) != 0.0 {
      var trace: seq<seq<nat>> :| Chain(a, gamma, order, c, next, trace) && Stopped(a, gamma, next, |trace| - 1)
          && improved == (|trace| > 1);
      SameChain(a, b, gamma, order, c, next, trace);
      if |trace| - 1 < MAX_PASSES {
        SameSettled(a, b, gamma, next);
      }
      assert Stopped(b, gamma, next, |trace| - 1);
    }
  }

  /** Hence phases on lists that agree have one outcome. */
  lemma PhasesAgree(a: Adj, b: Adj, gamma: real, seed: nat, c: seq<nat>, i: bool, d: seq<nat>, j: bool)
    requires Alike(a, b) && Phase(a, gamma, seed, c, i) && Phase(b, gamma, seed, d, j)
    ensures c == d && i == j
  {
    var order := Shuffled(Identity(|a|), seed);
    SamePhase(a, b, gamma, order, Identity(|a|), c, i);
    PhaseDeterministic(b, gamma, order, Identity(|a|), c, i, d, j);
  }

  // ---------------------------------------------------------------- levels

  lemma SameGrouped(a: Adj, b: Adj, mapping: seq<nat>, s: nat, t: nat)
    requires Alike(a, b) && |mapping| == |a|
    ensures Grouped(Weights(a), mapping)(s, t) == Grouped(Weights(b), mapping)(s, t)
  {
    Sum2Eq(|mapping|, |mapping|, Block(Weights(a), mapping, s, t), Block(Weights(b), mapping, s, t));
  }

  lemma ListsNamed(row: Row, c: seq<nat>, t: nat)
    ensures Lists(row, c, t) <==> exists j: nat :: j < |c| && Names(row, j) && c[j] == t
  {
    if Lists(row, c, t) {
      var e: nat :| e < |row| && row[e].0 < |c| && c[row[e].0] == t;
      assert Names(row, row[e].0);
    }
    if j: nat :| j < |c| && Names(row, j) && c[j] == t {
      var e: nat :| e < |row| && row[e].0 == j;
      assert c[row[e].0] == t;
    }
  }

  lemma SameLinked(a: Adj, b: Adj, mapping: seq<nat>, s: nat, t: nat)
    requires Alike(a, b) && |mapping| == |a| && Linked(a, mapping, |a|, s, t)
    ensures Linked(b, mapping, |b|, s, t)
  {
    var i: nat :| i < |a| && LinkAt(a, mapping, i, s, t);
    ListsNamed(a[i], mapping, t);
    ListsNamed(b[i], mapping, t);
    assert LinkAt(b, mapping, i, s, t);
  }

  lemma AlikeBack(a: Adj, b: Adj)
    requires Alike(a, b)
    ensures Alike(b, a)
  {
  }

  /** Super-graphs of lists that agree, by one mapping, agree. */
  lemma CoarseAlike(a: Adj, b: Adj, mapping: seq<nat>, p: Adj, q: Adj)
    requires Alike(a, b) && Represents(p, a, mapping) && Represents(q, b, mapping) && |p| == |q|
    ensures Alike(p, q)
  {
    forall s: nat, t: nat | s < |p| && t < |p|
      ensures Weights(p)(s, t) == Weights(q)(s, t)
    {
      SameGrouped(a, b, mapping, s, t);
    }
    AlikeBack(a, b);
    forall s: nat, t: nat | s < |p| && t < |p|
      ensures Names(p[s], t) <==> Names(q[s], t)
    {
      assert Names(p[s], t) <==> Linked(a, mapping, |a|, s, t);
      assert Names(q[s], t) <==> Linked(b, mapping, |b|, s, t);
      if Names(p[s], t) {
        SameLinked(a, b, mapping, s, t);
      }
      if Names(q[s], t) {
        SameLinked(b, a, mapping, s, t);
      }
    }
  }

  ghost predicate AlikeStates(s: LevelState, t: LevelState) {
    Alike(s.current, t.current) && s.owner == t.owner && s.community == t.community
  }

  lemma LevelsAgree(gamma: real, seed: nat, s: LevelState, s': LevelState, t: LevelState, t': LevelState)
    requires AlikeStates(s, t) && LevelStep(gamma, seed, s, s') && LevelStep(gamma, seed, t, t')
    ensures AlikeStates(s', t')
  {
    var c: seq<nat>, m: seq<nat> :| StepBy(gamma, seed, s, s', c, m);
    var d: seq<nat>, n: seq<nat> :| StepBy(gamma, seed, t, t', d, n);
    PhasesAgree(s.current, t.current, gamma, seed, c, true, d, true);
    RenumbersUnique(c, m, |s'.current|, n, |t'.current|);
    CoarseAlike(s.current, t.current, m, s'.current, t'.current);
  }

  /** A level that ends a run on one list does not go on on the other. */
  lemma NotBoth(gamma: real, seed: nat, s: LevelState, found: seq<nat>, t: LevelState, t': LevelState)
    requires AlikeStates(s, t) && LastLevel(gamma, seed, s, found)
    ensures !LevelStep(gamma, seed, t, t')
  {
    if LevelStep(gamma, seed, t, t') {
      var d: seq<nat>, n: seq<nat> :| StepBy(gamma, seed, t, t', d, n);
      if Phase(s.current, gamma, seed, Identity(|s.current|), false) {
        PhasesAgree(s.current, t.current, gamma, seed, Identity(|s.current|), false, d, true);
      } else {
        var c: seq<nat>, m: seq<nat> :| LastBy(gamma, seed, s, found, c, m);
        PhasesAgree(s.current, t.current, gamma, seed, c, true, d, true);
        RenumbersUnique(c, m, |s.current|, n, |t'.current|);
      }
    }
  }

  lemma LastAgree(gamma: real, seed: nat, s: LevelState, found: seq<nat>, t: LevelState, found': seq<nat>)
    requires AlikeStates(s, t) && LastLevel(gamma, seed, s, found) && LastLevel(gamma, seed, t, found')
    ensures found == found'
  {
    var single := Identity(|s.current|);
    if Phase(s.current, gamma, seed, single, false) && found == s.community {
      if !(Phase(t.current, gamma, seed, single, false) && found' == t.community) {
        var d: seq<nat>, n: seq<nat> :| LastBy(gamma, seed, t, found', d, n);
        PhasesAgree(s.current, t.current, gamma, seed, single, false, d, true);
      }
    } else {
      var c: seq<nat>, m: seq<nat> :| LastBy(gamma, seed, s, found, c, m);
      if Phase(t.current, gamma, seed, single, false) && found' == t.community {
        PhasesAgree(s.current, t.current, gamma, seed, c, true, single, false);
      } else {
        var d: seq<nat>, n: seq<nat> :| LastBy(gamma, seed, t, found', d, n);
        PhasesAgree(s.current, t.current, gamma, seed, c, true, d, true);
      }
    }
  }

  /** The states that agree with `s`. */
  ghost function Likes(s: LevelState): iset<LevelState> {
    iset t: LevelState | AlikeStates(s, t)
  }

  lemma StartsAgree(a: Adj, b: Adj, s: LevelState, t: LevelState)
    requires Alike(a, b) && s == LevelState(a, Identity(|a|), Identity(|a|))
    requires t == LevelState(b, Identity(|b|), Identity(|b|))
    ensures t in Likes(s)
  {
  }

  lemma StepOf(adj: Adj, gamma: real, seed: nat, trace: seq<LevelState>, i: nat)
    requires LevelsFrom(adj, gamma, seed, trace) && i + 1 < |trace|
    ensures LevelStep(gamma, seed, trace[i], trace[i + 1])
  {
    assert StepAt(gamma, seed, trace, i);
  }

  lemma StepsAgree(a: Adj, b: Adj, gamma: real, seed: nat, ta: seq<LevelState>, tb: seq<LevelState>, i: nat)
    requires LevelsFrom(a, gamma, seed, ta) && LevelsFrom(b, gamma, seed, tb)
    requires i + 1 < |ta| && i + 1 < |tb| && tb[i] in Likes(ta[i])
    ensures tb[i + 1] in Likes(ta[i + 1])
  {
    StepOf(a, gamma, seed, ta, i);
    StepOf(b, gamma, seed, tb, i);
    LevelsAgree(gamma, seed, ta[i], ta[i + 1], tb[i], tb[i + 1]);
  }

  /** Runs on lists that agree go through states that agree, as long as both last. */
  lemma {:induction false} TracesAgree(a: Adj, b: Adj, gamma: real, seed: nat, ta: seq<LevelState>,
                                       tb: seq<LevelState>, i: nat)
    requires Alike(a, b) && LevelsFrom(a, gamma, seed, ta) && LevelsFrom(b, gamma, seed, tb)
    requires i < |ta| && i < |tb|
    ensures tb[i] in Likes(ta[i])
    decreases i
  {
    if i == 0 {
      StartsAgree(a, b, ta[0], tb[0]);
    } else {
      TracesAgree(a, b, gamma, seed, ta, tb, i - 1);
      StepsAgree(a, b, gamma, seed, ta, tb, i - 1);
    }
  }

  /** No run goes on where the other ended. */
  lemma NoLongerRun(a: Adj, b: Adj, gamma: real, seed: nat, ta: seq<LevelState>, fa: seq<nat>,
                    tb: seq<LevelState>, fb: seq<nat>)
    requires Alike(a, b) && RunOf(a, gamma, seed, ta, fa) && RunOf(b, gamma, seed, tb, fb)
    ensures |tb| <= |ta|
  {
    if |tb| > |ta| {
      var i := |ta| - 1;
      TracesAgree(a, b, gamma, seed, ta, tb, i);
      StopsThere(b, gamma, seed, ta[i], fa, tb, i);
    }
  }

  lemma StopsThere(b: Adj, gamma: real, seed: nat, s: LevelState, found: seq<nat>, tb: seq<LevelState>, i: nat)
    requires LevelsFrom(b, gamma, seed, tb) && i < |tb| && tb[i] in Likes(s) && LastLevel(gamma, seed, s, found)
    ensures |tb| <= i + 1
  {
    if i + 1 < |tb| {
      StepOf(b, gamma, seed, tb, i);
      NotBoth(gamma, seed, s, found, tb[i], tb[i + 1]);
    }
  }

  /** Runs on lists that agree, with one seed, find the same labels, in whatever order the maps of
      every level are read. */
  lemma RunsAgree(a: Adj, b: Adj, gamma: real, seed: nat, ta: seq<LevelState>, fa: seq<nat>,
                  tb: seq<LevelState>, fb: seq<nat>)
    requires Alike(a, b) && RunOf(a, gamma, seed, ta, fa) && RunOf(b, gamma, seed, tb, fb)
    ensures fa == fb
  {
    NoLongerRun(a, b, gamma, seed, ta, fa, tb, fb);
    AlikeBack(a, b);
    NoLongerRun(b, a, gamma, seed, tb, fb, ta, fa);
    TracesAgree(a, b, gamma, seed, ta, tb, |ta| - 1);
    if |ta| - 1 < MAX_LEVELS {
      LastAgree(gamma, seed, ta[|ta| - 1], fa, tb[|tb| - 1], fb);
    }
  }

  // ---------------------------------------------------------------- whole calls

  lemma ProjectionsAgree(nodes: seq<nat>, edges: seq<Edge>, edges': seq<Edge>, a: Adj, b: Adj)
    requires ValidAdj(a) && ValidAdj(b) && Projects(nodes, edges, a) && Projects(nodes, edges', b)
    requires CallEdges(edges) == CallEdges(edges')
    ensures Alike(a, b)
  {
    forall i: nat, j: nat | i < |a| && j < |a|
      ensures Weights(a)(i, j) == Weights(b)(i, j)
      ensures Names(a[i], j) <==> Names(b[i], j)
    {
      CallsCarryWeights(edges, nodes[i], nodes[j]);
      CallsCarryWeights(edges', nodes[i], nodes[j]);
      assert Weights(a)(i, j) == Between(edges, nodes[i], nodes[j]);
      assert Names(a[i], j) <==> Joined(edges, nodes[i], nodes[j]);
    }
  }

  lemma OrderAgrees(s: seq<nat>, t: seq<nat>)
    requires Ascending(s) && Ascending(t) && multiset(s) == multiset(t)
    ensures s == t
  {
    forall x
      ensures x in s <==> x in t
    {
      assert x in multiset(s) <==> x in multiset(t);
    }
    SameAscending(Number, s, t);
  }

  /** Two calls on graphs with the same slots and the same call edges, with one resolution and one seed,
      return the same assignment, the same count and the same score: nothing else about the graph counts. */
  lemma CallsDecide(g: CodeGraph, h: CodeGraph, gamma: real, seed: nat,
                    nodes: seq<nat>, c: seq<nat>, k: nat, q: real, a: Adj, ta: seq<LevelState>, fa: seq<nat>,
                    nodes': seq<nat>, c': seq<nat>, k': nat, q': real, b: Adj, tb: seq<LevelState>, fb: seq<nat>)
    requires multiset(g.nodes) == multiset(h.nodes) && CallEdges(g.edges) == CallEdges(h.edges)
    requires Finds(g, gamma, seed, nodes, c, k, q, a, ta, fa)
    requires Finds(h, gamma, seed, nodes', c', k', q', b, tb, fb)
    ensures nodes == nodes' && c == c' && k == k' && q == q'
  {
    OrderAgrees(nodes, nodes');
    ProjectionsAgree(nodes, g.edges, h.edges, a, b);
    if nodes != [] {
      RunsAgree(a, b, gamma, seed, ta, fa, tb, fb);
    }
    RenumbersUnique(fa, c, k, c', k');
    SameTotal(a, b);
    if TotalWeight(a) != 0.0 {
      SameReport(a, b, c, gamma);
    }
  }

  /** Dropping the edges of the eight kinds that are not calls changes nothing. */
  lemma OtherKindsIgnored(g: CodeGraph, h: CodeGraph, gamma: real, seed: nat,
                          nodes: seq<nat>, c: seq<nat>, k: nat, q: real, a: Adj, ta: seq<LevelState>, fa: seq<nat>,
                          nodes': seq<nat>, c': seq<nat>, k': nat, q': real, b: Adj, tb: seq<LevelState>,
                          fb: seq<nat>)
    requires h == g.(edges := CallEdges(g.edges))
    requires Finds(g, gamma, seed, nodes, c, k, q, a, ta, fa)
    requires Finds(h, gamma, seed, nodes', c', k', q', b, tb, fb)
    ensures nodes == nodes' && c == c' && k == k' && q == q'
  {
    CallsOfCalls(g.edges);
    CallsDecide(g, h, gamma, seed, nodes, c, k, q, a, ta, fa, nodes', c', k', q', b, tb, fb);
  }

  /** Two calls on one graph with one resolution and one seed return the same. */
  lemma SameResult(g: CodeGraph, gamma: real, seed: nat,
                   nodes: seq<nat>, c: seq<nat>, k: nat, q: real, a: Adj, ta: seq<LevelState>, fa: seq<nat>,
                   nodes': seq<nat>, c': seq<nat>, k': nat, q': real, b: Adj, tb: seq<LevelState>, fb: seq<nat>)
    requires Finds(g, gamma, seed, nodes, c, k, q, a, ta, fa)
    requires Finds(g, gamma, seed, nodes', c', k', q', b, tb, fb)
    ensures nodes == nodes' && c == c' && k == k' && q == q'
  {
    CallsDecide(g, g, gamma, seed, nodes, c, k, q, a, ta, fa, nodes', c', k', q', b, tb, fb);
  }
}
