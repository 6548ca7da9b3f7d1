/** PageRank as a constant plus a sum over predecessors, over the reals, and the rows it runs on. */
module GpuPagerank {
  import opened Graphs
  import opened Rows
  import opened Sorting
  import opened StoredGraph
  import opened Sums
  import opened Walks
  import opened Wrappers

  /** Predecessor rows and out-degrees. */
  datatype Links = Links(n: nat, off: seq<nat>, preds: seq<nat>, outDeg: seq<real>) {
    function Row(v: nat): seq<nat>
      requires v + 1 < |off| && off[v] <= off[v + 1] <= |preds|
    {
      preds[off[v]..off[v + 1]]
    }

    ghost predicate RowDistinct(v: nat)
      requires v + 1 < |off| && off[v] <= off[v + 1] <= |preds|
    {
      Distinct(Row(v))
    }

    /** The out-degree of `w` is zero exactly when no row lists it. */
    ghost predicate DegreeFits(w: nat)
      requires ValidRows(n, off, preds) && w < |outDeg|
    {
      && outDeg[w] >= 0.0
      && (outDeg[w] == 0.0 <==> forall v: nat :: v < n ==> w !in Row(v))
    }

    /** Each predecessor is listed once, and exactly the nodes without successors have out-degree
        zero. Parallel edges may count several times in an out-degree. */
    ghost predicate Valid() {
      && ValidRows(n, off, preds)
      && |outDeg| == n
      && (forall v: nat {:trigger RowDistinct(v)} :: v < n ==> RowDistinct(v))
      && (forall w: nat {:trigger DegreeFits(w)} :: w < n ==> DegreeFits(w))
    }
  }

  /** A listed predecessor has a successor, so its out-degree is positive. */
  lemma ListedHasDegree(g: Links, w: nat, v: nat)
    requires g.Valid() && w < g.n && v < g.n
    ensures w in g.Row(v) ==> g.outDeg[w] > 0.0
    ensures g.outDeg[w] >= 0.0 && Distinct(g.Row(v))
    ensures forall k :: 0 <= k < |g.Row(v)| ==> g.Row(v)[k] < g.n
  {
    assert g.DegreeFits(w) && g.RowDistinct(v);
  }

  // ---------------------------------------------------------------- the three-case update

  /** What a node of rank `x` sends: a share of its rank along an edge, an even share when it has
      no successors, the random jump otherwise. */
  function Sent(edge: bool, d: real, x: real, out: real, n: real): real
    requires n > 0.0 && (edge ==> out > 0.0)
  {
    if edge then d * x / out
    else if out == 0.0 then d * x / n
    else (1.0 - d) * x / n
  }

  ghost function Term(g: Links, d: real, r: seq<real>, w: nat, v: nat): real
    requires g.Valid() && |r| == g.n && w < g.n && v < g.n
  {
    ListedHasDegree(g, w, v);
    Sent(w in g.Row(v), d, r[w], g.outDeg[w], g.n as real)
  }

  ghost function Terms(g: Links, d: real, r: seq<real>, v: nat): nat -> real
    requires g.Valid() && |r| == g.n && v < g.n
  {
    (w: nat) => if w < g.n && g.Valid() then Term(g, d, r, w, v) else 0.0
  }

  /** The update of one target. */
  ghost function Pi(g: Links, d: real, r: seq<real>, v: nat): real
    requires g.Valid() && |r| == g.n && v < g.n
  {
    Sum(g.n, Terms(g, d, r, v))
  }

  /** A node of rank `x` and out-degree `out` sends `a`: its damped rank divided by its out-degree along an
      edge, an even part of its damped rank when it has no successors, and an even part of what damping
      leaves when it has some, but no edge there. */
  ghost predicate SendsAmount(edge: bool, d: real, x: real, out: real, n: real, a: real) {
    if edge then a * out == d * x else a * n == if out == 0.0 then d * x else (1.0 - d) * x
  }

  /** `amount` says what every node sends to `v`. */
  ghost predicate SentTo(g: Links, d: real, r: seq<real>, v: nat, amount: nat -> real)
    requires g.Valid() && |r| == g.n && v < g.n
  {
    forall w: nat {:trigger amount(w)} :: w < g.n ==>
      SendsAmount(w in g.Row(v), d, r[w], g.outDeg[w], g.n as real, amount(w))
  }

  lemma SentIsAmount(edge: bool, d: real, x: real, out: real, n: real, a: real)
    requires n > 0.0 && (edge ==> out > 0.0) && SendsAmount(edge, d, x, out, n, a)
    ensures Sent(edge, d, x, out, n) == a
  {
  }

  /** The update adds up what every node sends. */
  lemma PiAddsUp(g: Links, d: real, r: seq<real>, v: nat, amount: nat -> real)
    requires g.Valid() && |r| == g.n && v < g.n && SentTo(g, d, r, v, amount)
    ensures Pi(g, d, r, v) == Sum(g.n, amount)
  {
    forall w: nat | w < g.n
      ensures Terms(g, d, r, v)(w) == amount(w)
    {
      ListedHasDegree(g, w, v);
      SentIsAmount(w in g.Row(v), d, r[w], g.outDeg[w], g.n as real, amount(w));
    }
    SumEq(g.n, Terms(g, d, r, v), amount);
  }

  ghost function PiTotal(g: Links, d: real, r: seq<real>): real
    requires g.Valid() && |r| == g.n
  {
    Sum(g.n, (v: nat) => if v < g.n then Pi(g, d, r, v) else 0.0)
  }

  /** A probability distribution over the nodes. */
  ghost predicate Distribution(r: seq<real>) {
    && (forall w: nat :: w < |r| ==> r[w] >= 0.0)
    && Sum(|r|, (w: nat) => if w < |r| then r[w] else 0.0) == 1.0
  }

  /** One round: the update of every node, divided by its total. */
  ghost function Next(g: Links, d: real, r: seq<real>): seq<real>
    requires g.Valid() && |r| == g.n && PiTotal(g, d, r) != 0.0
  {
    seq(g.n, v requires 0 <= v < g.n => Pi(g, d, r, v) / PiTotal(g, d, r))
  }

  lemma Share(a: real, x: real, n: real)
    requires n > 0.0
    ensures a / n * x == a * x / n
    ensures a >= 0.0 && x >= 0.0 ==> a * x / n >= 0.0
    ensures a > 0.0 && x > 0.0 ==> a * x / n > 0.0
  {
    assert a / n == a * (1.0 / n);
    assert a * x / n == a * x * (1.0 / n);
    assert 1.0 / n > 0.0;
  }

  /** Whether a node with some rank sends anything: along edges and from nodes without successors
      when the damping is positive, at random when it is below one. */
  predicate Sends(edge: bool, d: real, out: real) {
    if edge || out == 0.0 then d > 0.0 else d < 1.0
  }

  lemma SentPositive(edge: bool, d: real, x: real, out: real, n: real)
    requires n > 0.0 && (edge ==> out > 0.0) && 0.0 <= d <= 1.0 && x >= 0.0
    ensures Sent(edge, d, x, out, n) >= 0.0
    ensures Sent(edge, d, x, out, n) > 0.0 <==> x > 0.0 && Sends(edge, d, out)
  {
    if edge {
      ShareSign(d, x, out);
    } else if out == 0.0 {
      ShareSign(d, x, n);
    } else {
      ShareSign(1.0 - d, x, n);
    }
  }

  lemma ShareSign(a: real, x: real, n: real)
    requires n > 0.0 && a >= 0.0 && x >= 0.0
    ensures a * x / n >= 0.0 && (a * x / n > 0.0 <==> a > 0.0 && x > 0.0)
  {
    Share(a, x, n);
  }

  lemma TermPositive(g: Links, d: real, r: seq<real>, w: nat, v: nat)
    requires g.Valid() && |r| == g.n && w < g.n && v < g.n && 0.0 <= d <= 1.0 && r[w] >= 0.0
    ensures Term(g, d, r, w, v) >= 0.0
    ensures Term(g, d, r, w, v) > 0.0 <==> r[w] > 0.0 && Sends(w in g.Row(v), d, g.outDeg[w])
  {
    ListedHasDegree(g, w, v);
    SentPositive(w in g.Row(v), d, r[w], g.outDeg[w], g.n as real);
  }

  /** The update is never negative, although the kernel subtracts a term for each predecessor. */
  lemma PiNonNegative(g: Links, d: real, r: seq<real>, v: nat)
    requires g.Valid() && |r| == g.n && v < g.n && 0.0 <= d <= 1.0 && Distribution(r)
    ensures Pi(g, d, r, v) >= 0.0
    ensures forall w: nat :: w < g.n ==> Pi(g, d, r, v) >= Term(g, d, r, w, v)
  {
    var f := Terms(g, d, r, v);
    forall w: nat | w < g.n
      ensures f(w) == Term(g, d, r, w, v) && f(w) >= 0.0
    {
      TermPositive(g, d, r, w, v);
    }
    SumNonNegative(g.n, f);
  }

  lemma {:induction false} SomePositive(n: nat, f: nat -> real)
    requires Sum(n, f) > 0.0
    ensures exists w: nat :: w < n && f(w) > 0.0
  {
    if n > 0 && f(n - 1) <= 0.0 {
      SomePositive(n - 1, f);
    }
  }

  ghost function Updates(g: Links, d: real, r: seq<real>): nat -> real
    requires g.Valid() && |r| == g.n
  {
    (v: nat) => if v < g.n && g.Valid() then Pi(g, d, r, v) else 0.0
  }

  lemma TotalOfUpdates(g: Links, d: real, r: seq<real>)
    requires g.Valid() && |r| == g.n
    ensures PiTotal(g, d, r) == Sum(g.n, Updates(g, d, r))
  {
    SumEq(g.n, (v: nat) => if v < g.n then Pi(g, d, r, v) else 0.0, Updates(g, d, r));
  }

  /** `w` has rank and some target receives part of it. */
  ghost predicate Gives(g: Links, d: real, r: seq<real>, w: nat, v: nat)
    requires g.Valid() && |r| == g.n
  {
    w < g.n && v < g.n && r[w] > 0.0 && Sends(w in g.Row(v), d, g.outDeg[w])
  }

  lemma GivesTotal(g: Links, d: real, r: seq<real>, w: nat, v: nat)
    requires g.Valid() && |r| == g.n && 0.0 <= d <= 1.0 && Distribution(r) && Gives(g, d, r, w, v)
    ensures PiTotal(g, d, r) > 0.0
  {
    TermPositive(g, d, r, w, v);
    PiNonNegative(g, d, r, v);
    TotalNonNegative(g, d, r);
    assert Updates(g, d, r)(v) > 0.0;
  }

  lemma TotalNonNegative(g: Links, d: real, r: seq<real>)
    requires g.Valid() && |r| == g.n && 0.0 <= d <= 1.0 && Distribution(r)
    ensures PiTotal(g, d, r) >= 0.0
    ensures forall v: nat :: v < g.n ==> Updates(g, d, r)(v) >= 0.0 && PiTotal(g, d, r) >= Updates(g, d, r)(v)
  {
    var f := Updates(g, d, r);
    TotalOfUpdates(g, d, r);
    forall v: nat | v < g.n
      ensures f(v) >= 0.0
    {
      PiNonNegative(g, d, r, v);
    }
    SumNonNegative(g.n, f);
  }

  lemma TotalGives(g: Links, d: real, r: seq<real>)
    requires g.Valid() && |r| == g.n && 0.0 <= d <= 1.0 && Distribution(r) && PiTotal(g, d, r) > 0.0
    ensures exists w: nat, v: nat :: Gives(g, d, r, w, v)
  {
    TotalOfUpdates(g, d, r);
    SomePositive(g.n, Updates(g, d, r));
    var v: nat :| v < g.n && Updates(g, d, r)(v) > 0.0;
    SomePositive(g.n, Terms(g, d, r, v));
    var w: nat :| w < g.n && Terms(g, d, r, v)(w) > 0.0;
    TermPositive(g, d, r, w, v);
    assert Gives(g, d, r, w, v);
  }

  /** `w` has rank and successors, but some node is not among them. */
  ghost predicate Jumps(g: Links, r: seq<real>, w: nat, v: nat)
    requires g.Valid() && |r| == g.n
  {
    w < g.n && v < g.n && r[w] > 0.0 && g.outDeg[w] > 0.0 && w !in g.Row(v)
  }

  /** When the division is defined: for every positive damping, and for damping zero exactly when
      some node with rank has successors but not all nodes among them. */
  lemma PiTotalPositive(g: Links, d: real, r: seq<real>)
    requires g.Valid() && |r| == g.n && 0.0 <= d <= 1.0 && Distribution(r)
    ensures PiTotal(g, d, r) >= 0.0
    ensures PiTotal(g, d, r) > 0.0 <==> d > 0.0 || exists w: nat, v: nat :: Jumps(g, r, w, v)
  {
    TotalNonNegative(g, d, r);
    if d > 0.0 {
      var w := Holder(r);
      var v := Receiver(g, w);
      GivesTotal(g, d, r, w, v);
    } else if w: nat, v: nat :| Jumps(g, r, w, v) {
      GivesTotal(g, d, r, w, v);
    } else if PiTotal(g, d, r) > 0.0 {
      TotalGives(g, d, r);
      var w: nat, v: nat :| Gives(g, d, r, w, v);
      ListedHasDegree(g, w, v);
      assert Jumps(g, r, w, v);
      assert false;
    }
  }

  /** A node with rank. */
  ghost function Holder(r: seq<real>): (w: nat)
    requires Distribution(r)
    ensures w < |r| && r[w] > 0.0
  {
    var ranks := (w: nat) => if w < |r| then r[w] else 0.0;
    SomePositive(|r|, ranks);
    var w: nat :| w < |r| && ranks(w) > 0.0;
    w
  }

  /** A node that `w` sends rank to whenever the damping is positive. */
  ghost function Receiver(g: Links, w: nat): (v: nat)
    requires g.Valid() && w < g.n
    ensures v < g.n && (w in g.Row(v) || g.outDeg[w] == 0.0)
  {
    assert g.DegreeFits(w);
    if g.outDeg[w] == 0.0 then w else var v: nat :| v < g.n && w in g.Row(v); v
  }

  lemma NormalisedIsDistribution(n: nat, pis: nat -> real, total: real, next: seq<real>)
    requires total > 0.0 && Sum(n, pis) == total && |next| == n
    requires forall v: nat :: v < n ==> pis(v) >= 0.0 && next[v] == pis(v) / total
    ensures Distribution(next)
  {
    var shares := (v: nat) => if v < |next| then next[v] else 0.0;
    forall v: nat | v < n
      ensures shares(v) == 1.0 / total * pis(v) && next[v] >= 0.0
    {
      Share(1.0, pis(v), total);
    }
    SumScale(n, 1.0 / total, pis, shares);
  }

  /** Ranks stay a probability distribution, for every damping from zero to one. */
  lemma NextIsDistribution(g: Links, d: real, r: seq<real>)
    requires g.Valid() && |r| == g.n && 0.0 <= d <= 1.0 && Distribution(r) && PiTotal(g, d, r) != 0.0
    ensures PiTotal(g, d, r) > 0.0 && Distribution(Next(g, d, r))
  {
    TotalNonNegative(g, d, r);
    TotalOfUpdates(g, d, r);
    NormalisedIsDistribution(g.n, Updates(g, d, r), PiTotal(g, d, r), Next(g, d, r));
  }

  // ---------------------------------------------------------------- the decomposition

  ghost function ListSum(row: seq<nat>, f: nat -> real): real {
    if row == [] then 0.0 else ListSum(row[..|row| - 1], f) + f(row[|row| - 1])
  }

  ghost function Over(row: seq<nat>, f: nat -> real): nat -> real {
    (w: nat) => if w in row then f(w) else 0.0
  }

  /** Adding up a list without repetition is adding up over its members. */
  lemma {:induction false} ListSumIsSum(row: seq<nat>, f: nat -> real, n: nat)
    requires Distinct(row) && forall k :: 0 <= k < |row| ==> row[k] < n
    ensures ListSum(row, f) == Sum(n, Over(row, f))
  {
    var h := Over(row, f);
    if row == [] {
      SumZero(n, h);
    } else {
      var front, last := row[..|row| - 1], row[|row| - 1];
      SplitLast(row);
      DistinctSnoc(front, last);
      ListSumIsSum(front, f, n);
      SumChange(n, Over(front, f), h, last);
    }
  }

  /** What the kernel adds for a predecessor of rank `x`. */
  function Correction(d: real, x: real, out: real, jump: real): real
    requires out > 0.0
  {
    d * x / out - jump * x
  }

  /** The factors of the constant: even shares and random jumps. */
  function Even(d: real, n: nat): real
    requires n > 0
  {
    d / n as real
  }

  ghost function Delta(g: Links, d: real, r: seq<real>): nat -> real
    requires g.n > 0
  {
    var jump := Even(1.0 - d, g.n);
    (w: nat) => if w < |r| && w < |g.outDeg| && g.outDeg[w] > 0.0 then Correction(d, r[w], g.outDeg[w], jump) else 0.0
  }

  ghost function Dangling(g: Links, r: seq<real>): nat -> real {
    (w: nat) => if w < |r| && w < |g.outDeg| && g.outDeg[w] == 0.0 then r[w] else 0.0
  }

  ghost function Live(g: Links, r: seq<real>): nat -> real {
    (w: nat) => if w < |r| && w < |g.outDeg| && g.outDeg[w] != 0.0 then r[w] else 0.0
  }

  /** What each node sends where it has no edge. */
  ghost function Elsewhere(g: Links, d: real, r: seq<real>): nat -> real
    requires g.n > 0
  {
    (w: nat) => if w < |r| && w < |g.outDeg| && g.n > 0 then Sent(false, d, r[w], g.outDeg[w], g.n as real) else 0.0
  }

  /** The constant every target receives. */
  ghost function Base(g: Links, d: real, r: seq<real>): real
    requires g.n > 0
  {
    Sum(g.n, Elsewhere(g, d, r))
  }

  lemma ElsewhereSplits(d: real, x: real, out: real, n: nat, a: real, b: real)
    requires n > 0 && a == Even(d, n) && b == Even(1.0 - d, n)
    ensures Sent(false, d, x, out, n as real) == if out == 0.0 then a * x else b * x
  {
    Share(d, x, n as real);
    Share(1.0 - d, x, n as real);
  }

  lemma ElsewhereCombines(g: Links, d: real, r: seq<real>, a: real, b: real)
    requires g.n > 0 && |r| == g.n == |g.outDeg| && a == Even(d, g.n) && b == Even(1.0 - d, g.n)
    ensures Combines(g.n, a, Dangling(g, r), b, Live(g, r), Elsewhere(g, d, r))
  {
    forall w: nat | w < g.n
      ensures Elsewhere(g, d, r)(w) == a * Dangling(g, r)(w) + b * Live(g, r)(w)
    {
      ElsewhereSplits(d, r[w], g.outDeg[w], g.n, a, b);
    }
  }

  /** The constant from the ranks of the nodes without and with successors, as the host computes it. */
  lemma BaseFromMasses(g: Links, d: real, r: seq<real>, a: real, b: real, dangling: real, live: real)
    requires g.n > 0 && |r| == g.n == |g.outDeg| && a == Even(d, g.n) && b == Even(1.0 - d, g.n)
    requires dangling == Sum(g.n, Dangling(g, r)) && live == Sum(g.n, Live(g, r))
    ensures Base(g, d, r) == a * dangling + b * live
  {
    ElsewhereCombines(g, d, r, a, b);
    SumCombination(g.n, a, Dangling(g, r), b, Live(g, r), Elsewhere(g, d, r));
  }

  /** What an edge sends is what is sent elsewhere, corrected. */
  lemma SentSplits(d: real, x: real, out: real, n: nat)
    requires n > 0 && out > 0.0
    ensures Sent(true, d, x, out, n as real) == Sent(false, d, x, out, n as real)
        + Correction(d, x, out, Even(1.0 - d, n))
  {
    Share(1.0 - d, x, n as real);
  }

  /** `whole` is `even` everywhere, corrected at listed nodes. */
  ghost predicate Corrected(n: nat, even: nat -> real, row: seq<nat>, delta: nat -> real, whole: nat -> real) {
    forall w: nat {:trigger whole(w)} :: w < n ==> whole(w) == even(w) + Over(row, delta)(w)
  }

  lemma SumCorrected(n: nat, even: nat -> real, row: seq<nat>, delta: nat -> real, whole: nat -> real)
    requires Distinct(row) && forall k :: 0 <= k < |row| ==> row[k] < n
    requires Corrected(n, even, row, delta, whole)
    ensures Sum(n, even) + ListSum(row, delta) == Sum(n, whole)
  {
    SumAdd(n, even, Over(row, delta), whole);
    ListSumIsSum(row, delta, n);
  }

  lemma TermsCorrected(g: Links, d: real, r: seq<real>, v: nat)
    requires g.Valid() && |r| == g.n && v < g.n
    ensures Corrected(g.n, Elsewhere(g, d, r), g.Row(v), Delta(g, d, r), Terms(g, d, r, v))
    ensures Distinct(g.Row(v)) && forall k :: 0 <= k < |g.Row(v)| ==> g.Row(v)[k] < g.n
  {
    ListedHasDegree(g, v, v);
    forall w: nat | w < g.n
      ensures Terms(g, d, r, v)(w) == Elsewhere(g, d, r)(w) + Over(g.Row(v), Delta(g, d, r))(w)
    {
      ListedHasDegree(g, w, v);
      if w in g.Row(v) {
        SentSplits(d, r[w], g.outDeg[w], g.n);
      }
    }
  }

  /** For every graph the constant plus the sum over predecessors is the three-case update. */
  lemma Decomposition(g: Links, d: real, r: seq<real>, v: nat)
    requires g.Valid() && |r| == g.n && v < g.n
    ensures Base(g, d, r) + ListSum(g.Row(v), Delta(g, d, r)) == Pi(g, d, r, v)
  {
    TermsCorrected(g, d, r, v);
    SumCorrected(g.n, Elsewhere(g, d, r), g.Row(v), Delta(g, d, r), Terms(g, d, r, v));
  }

  // ---------------------------------------------------------------- kernel and host loop

  /** One thread: the constant plus a term for each predecessor. */
  method Thread(g: Links, d: real, r: seq<real>, base: real, v: nat) returns (acc: real)
    requires g.Valid() && |r| == g.n && v < g.n && base == Base(g, d, r)
    ensures acc == Pi(g, d, r, v)
    ensures forall amount :: SentTo(g, d, r, v, amount) ==> acc == Sum(g.n, amount)
  {
    forall amount | SentTo(g, d, r, v, amount)
      ensures Pi(g, d, r, v) == Sum(g.n, amount)
    {
      PiAddsUp(g, d, r, v, amount);
    }
    acc := base;
    var jump := Even(1.0 - d, g.n);
    var row := g.Row(v);
    for k := 0 to |row|
      invariant acc == base + ListSum(row[..k], Delta(g, d, r))
    {
      var w := row[k];
      assert w in g.Row(v);
      ListedHasDegree(g, w, v);
      assert row[..k + 1][..k] == row[..k];
      acc := acc + Correction(d, r[w], g.outDeg[w], jump);
    }
    assert row[..|row|] == row;
    Decomposition(g, d, r, v);
  }

  /** A launch: every thread once or more, in any order. */
  method Launch(g: Links, d: real, r: seq<real>, base: real, order: seq<nat>, pi: array<real>)
    requires g.Valid() && |r| == g.n == pi.Length && g.n > 0 && base == Base(g, d, r)
    requires forall v: nat :: v in order <==> v < g.n
    modifies pi
    ensures forall v: nat :: v < g.n ==> pi[v] == Pi(g, d, r, v)
  {
    for k := 0 to |order|
      invariant forall v: nat :: v < g.n && v in order[..k] ==> pi[v] == Pi(g, d, r, v)
    {
      assert order[k] in order;
      assert order[..k + 1] == order[..k] + [order[k]];
      pi[order[k]] := Thread(g, d, r, base, order[k]);
    }
    assert order[..|order|] == order;
  }

  /** The ranks of nodes without and with successors, added up on the host. */
  method Masses(g: Links, r: array<real>) returns (dangling: real, live: real)
    requires r.Length == g.n == |g.outDeg|
    ensures dangling == Sum(g.n, Dangling(g, r[..])) && live == Sum(g.n, Live(g, r[..]))
  {
    dangling, live := 0.0, 0.0;
    for i := 0 to g.n
      invariant dangling == Sum(i, Dangling(g, r[..])) && live == Sum(i, Live(g, r[..]))
    {
      if g.outDeg[i] == 0.0 {
        dangling := dangling + r[i];
      } else {
        live := live + r[i];
      }
    }
  }

  /** Divides every value by their total, when it is not zero. */
  method Normalise(g: Links, d: real, pi: array<real>, ranks: array<real>) returns (defined: bool)
    requires g.Valid() && ranks.Length == g.n == pi.Length && ranks != pi
    requires forall v: nat :: v < g.n ==> pi[v] == Pi(g, d, ranks[..], v)
    modifies ranks
    ensures defined == (PiTotal(g, d, old(ranks[..])) != 0.0)
    ensures defined ==> ranks[..] == Next(g, d, old(ranks[..]))
  {
    ghost var r := ranks[..];
    var sum := 0.0;
    for v := 0 to g.n
      invariant sum == Sum(v, (u: nat) => if u < g.n then Pi(g, d, r, u) else 0.0)
    {
      sum := sum + pi[v];
    }
    defined := sum != 0.0;
    if !defined {
      return;
    }
    for v := 0 to g.n
      invariant forall u: nat :: u < v ==> ranks[u] == Pi(g, d, r, u) / sum
    {
      ranks[v] := pi[v] / sum;
    }
  }

  lemma UniformIsDistribution(n: nat, r: seq<real>)
    requires n > 0 && |r| == n && forall v: nat :: v < n ==> r[v] == 1.0 / n as real
    ensures Distribution(r)
  {
    var f := (w: nat) => if w < |r| then r[w] else 0.0;
    ConstantSum(n, f, 1.0 / n as real);
    assert n as real * (1.0 / n as real) == 1.0;
  }

  lemma {:induction false} ConstantSum(n: nat, f: nat -> real, a: real)
    requires forall i: nat :: i < n ==> f(i) == a
    ensures Sum(n, f) == n as real * a
  {
    if n > 0 {
      ConstantSum(n - 1, f, a);
      assert n as real * a == (n - 1) as real * a + a;
    }
  }

  /** `k` rounds from the uniform ranks; none once a total is zero. */
  ghost function Ranks(g: Links, d: real, k: nat): (r: Option<seq<real>>)
    requires g.Valid() && g.n > 0
    ensures r.Some? ==> |r.value| == g.n
  {
    if k == 0 then Some(seq(g.n, _ => 1.0 / g.n as real))
    else
      match Ranks(g, d, k - 1)
      case None => None
      case Some(r) => if PiTotal(g, d, r) == 0.0 then None else Some(Next(g, d, r))
  }

  /** For damping between zero and one ranks are a probability distribution, and for positive damping
      they are always defined. */
  lemma {:induction false} RanksAreDistribution(g: Links, d: real, k: nat)
    requires g.Valid() && g.n > 0 && 0.0 <= d <= 1.0
    ensures Ranks(g, d, k).Some? ==> Distribution(Ranks(g, d, k).value)
    ensures d > 0.0 ==> Ranks(g, d, k).Some?
  {
    if k == 0 {
      UniformIsDistribution(g.n, Ranks(g, d, 0).value);
    } else {
      RanksAreDistribution(g, d, k - 1);
      if Ranks(g, d, k - 1).Some? {
        var r := Ranks(g, d, k - 1).value;
        PiTotalPositive(g, d, r);
        if PiTotal(g, d, r) != 0.0 {
          NextIsDistribution(g, d, r);
        }
      }
    }
  }

  // ---------------------------------------------------------------- damping zero

  /** The random jumps: from a node with successors to every node not among them. */
  ghost function JumpEdges(g: Links): (E: Edges)
    requires g.Valid()
    ensures Bounded(E, g.n)
    ensures forall w: nat, v: nat :: (w, v) in E <==> w < g.n && v < g.n && g.outDeg[w] > 0.0 && w !in g.Row(v)
  {
    set w, v | w in Below(g.n) && v in Below(g.n) && g.outDeg[w] > 0.0 && w !in g.Row(v) :: (w, v)
  }

  lemma PiPositive(g: Links, d: real, r: seq<real>, v: nat)
    requires g.Valid() && |r| == g.n && v < g.n && 0.0 <= d <= 1.0 && Distribution(r)
    ensures Pi(g, d, r, v) > 0.0 <==> exists w: nat :: Gives(g, d, r, w, v)
  {
    PiNonNegative(g, d, r, v);
    if Pi(g, d, r, v) > 0.0 {
      SomePositive(g.n, Terms(g, d, r, v));
      var w: nat :| w < g.n && Terms(g, d, r, v)(w) > 0.0;
      TermPositive(g, d, r, w, v);
      assert Gives(g, d, r, w, v);
    }
    if w: nat :| Gives(g, d, r, w, v) {
      TermPositive(g, d, r, w, v);
    }
  }

  /** With damping zero rank travels along jumps only. */
  lemma GivesIsJump(g: Links, r: seq<real>, w: nat, v: nat)
    requires g.Valid() && |r| == g.n
    ensures Gives(g, 0.0, r, w, v) <==> w < g.n && r[w] > 0.0 && (w, v) in JumpEdges(g)
  {
    if w < g.n && v < g.n {
      ListedHasDegree(g, w, v);
    }
  }

  /** The nodes with positive rank are those at which walks of `k` jumps end. */
  ghost predicate RankedByWalks(E: Edges, r: seq<real>, k: nat) {
    forall v: nat :: v < |r| ==> (r[v] > 0.0 <==> WalkTo(E, |r|, v, k))
  }

  lemma WalkNext(g: Links, E: Edges, r: seq<real>, k: nat, v: nat)
    requires g.Valid() && E == JumpEdges(g) && |r| == g.n && RankedByWalks(E, r, k) && v < g.n
    ensures WalkTo(E, g.n, v, k + 1) <==> exists w: nat :: Gives(g, 0.0, r, w, v)
  {
    if w: nat :| (w, v) in E && WalkTo(E, g.n, w, k) {
      GivesIsJump(g, r, w, v);
    }
    if w: nat :| Gives(g, 0.0, r, w, v) {
      GivesIsJump(g, r, w, v);
      assert (w, v) in E && WalkTo(E, g.n, w, k);
    }
  }

  lemma NextPositive(g: Links, r: seq<real>, v: nat)
    requires g.Valid() && |r| == g.n && v < g.n && Distribution(r) && PiTotal(g, 0.0, r) > 0.0
    ensures Next(g, 0.0, r)[v] > 0.0 <==> exists w: nat :: Gives(g, 0.0, r, w, v)
  {
    PiPositive(g, 0.0, r, v);
    PiNonNegative(g, 0.0, r, v);
    ShareSign(1.0, Pi(g, 0.0, r, v), PiTotal(g, 0.0, r));
  }

  /** One round more: ranks stay defined when a walk goes on, and travel with it. */
  lemma WalksOn(g: Links, E: Edges, r: seq<real>, k: nat)
    requires g.Valid() && E == JumpEdges(g) && |r| == g.n && Distribution(r) && RankedByWalks(E, r, k)
    ensures PiTotal(g, 0.0, r) > 0.0 <==> HasWalk(E, g.n, k + 1)
    ensures PiTotal(g, 0.0, r) > 0.0 ==> RankedByWalks(E, Next(g, 0.0, r), k + 1)
  {
    if PiTotal(g, 0.0, r) > 0.0 {
      TotalGives(g, 0.0, r);
      var w: nat, v: nat :| Gives(g, 0.0, r, w, v);
      WalkNext(g, E, r, k, v);
      RanksTravel(g, E, r, k);
    }
    if HasWalk(E, g.n, k + 1) {
      WalkGives(g, E, r, k);
    }
  }

  lemma RanksTravel(g: Links, E: Edges, r: seq<real>, k: nat)
    requires g.Valid() && E == JumpEdges(g) && |r| == g.n && Distribution(r) && RankedByWalks(E, r, k)
    requires PiTotal(g, 0.0, r) > 0.0
    ensures RankedByWalks(E, Next(g, 0.0, r), k + 1)
  {
    forall u: nat | u < g.n
      ensures Next(g, 0.0, r)[u] > 0.0 <==> WalkTo(E, g.n, u, k + 1)
    {
      WalkNext(g, E, r, k, u);
      NextPositive(g, r, u);
    }
  }

  lemma WalkGives(g: Links, E: Edges, r: seq<real>, k: nat)
    requires g.Valid() && E == JumpEdges(g) && |r| == g.n && Distribution(r) && RankedByWalks(E, r, k)
    requires HasWalk(E, g.n, k + 1)
    ensures PiTotal(g, 0.0, r) > 0.0
  {
    var v: nat :| WalkTo(E, g.n, v, k + 1);
    WalkNext(g, E, r, k, v);
    var w: nat :| Gives(g, 0.0, r, w, v);
    GivesTotal(g, 0.0, r, w, v);
  }

  /** The ranks are defined exactly when there is a walk of `k` edges, and positive exactly where such a
      walk ends. */
  ghost predicate WalksDecide(E: Edges, n: nat, k: nat, ranks: Option<seq<real>>) {
    && (ranks.Some? <==> HasWalk(E, n, k))
    && (ranks.Some? ==> |ranks.value| == n && RankedByWalks(E, ranks.value, k))
  }

  lemma DecideNext(g: Links, E: Edges, k: nat, r: seq<real>)
    requires g.Valid() && E == JumpEdges(g) && Distribution(r) && WalksDecide(E, g.n, k, Some(r))
    ensures WalksDecide(E, g.n, k + 1, if PiTotal(g, 0.0, r) == 0.0 then None else Some(Next(g, 0.0, r)))
  {
    TotalNonNegative(g, 0.0, r);
    WalksOn(g, E, r, k);
  }

  lemma DecideNone(E: Edges, n: nat, k: nat)
    requires WalksDecide(E, n, k, None)
    ensures WalksDecide(E, n, k + 1, None)
  {
    if HasWalk(E, n, k + 1) {
      ShorterWalk(E, n, k);
    }
  }

  lemma DecideStep(g: Links, E: Edges, k: nat, ranks: Option<seq<real>>, next: Option<seq<real>>)
    requires g.Valid() && E == JumpEdges(g) && WalksDecide(E, g.n, k, ranks)
    requires ranks.Some? ==> Distribution(ranks.value)
    requires next == if ranks.None? || PiTotal(g, 0.0, ranks.value) == 0.0 then None
                     else Some(Next(g, 0.0, ranks.value))
    ensures WalksDecide(E, g.n, k + 1, next)
  {
    if ranks.None? {
      DecideNone(E, g.n, k);
    } else {
      DecideNext(g, E, k, ranks.value);
    }
  }

  /** With damping zero the ranks after `k` rounds are decided by the walks of `k` jumps. */
  lemma {:induction false} RanksAtZero(g: Links, E: Edges, k: nat)
    requires g.Valid() && g.n > 0 && E == JumpEdges(g)
    ensures WalksDecide(E, g.n, k, Ranks(g, 0.0, k))
    decreases k
  {
    if k == 0 {
      DecideStart(g, E);
    } else {
      RanksAtZero(g, E, k - 1);
      DecideRound(g, E, k - 1, Ranks(g, 0.0, k - 1), Ranks(g, 0.0, k));
    }
  }

  lemma DecideRound(g: Links, E: Edges, k: nat, ranks: Option<seq<real>>, next: Option<seq<real>>)
    requires g.Valid() && g.n > 0 && ranks == Ranks(g, 0.0, k) && next == Ranks(g, 0.0, k + 1)
    requires E == JumpEdges(g) && WalksDecide(E, g.n, k, ranks)
    ensures WalksDecide(E, g.n, k + 1, next)
  {
    RanksAreDistribution(g, 0.0, k);
    RanksUnfold(g, 0.0, k, ranks, next);
    DecideStep(g, E, k, ranks, next);
  }

  lemma DecideStart(g: Links, E: Edges)
    requires g.Valid() && g.n > 0
    ensures WalksDecide(E, g.n, 0, Ranks(g, 0.0, 0))
  {
    assert WalkTo(E, g.n, 0, 0);
    assert 1.0 / g.n as real > 0.0;
  }

  lemma RanksUnfold(g: Links, d: real, k: nat, ranks: Option<seq<real>>, next: Option<seq<real>>)
    requires g.Valid() && g.n > 0 && ranks == Ranks(g, d, k) && next == Ranks(g, d, k + 1)
    ensures ranks.Some? ==> |ranks.value| == g.n
    ensures next == if ranks.None? || PiTotal(g, d, ranks.value) == 0.0 then None else Some(Next(g, d, ranks.value))
  {
  }

  /** For damping from zero to one: when the ranks are defined. */
  lemma RanksDefined(g: Links, d: real, k: nat)
    requires g.Valid() && g.n > 0 && 0.0 <= d <= 1.0
    ensures Ranks(g, d, k).Some? <==> d > 0.0 || HasWalk(JumpEdges(g), g.n, k)
  {
    if d > 0.0 {
      RanksAreDistribution(g, d, k);
    } else {
      RanksAtZero(g, JumpEdges(g), k);
    }
  }

  /** From as many rounds as nodes on: with damping zero the ranks are defined exactly when some jumps
      form a cycle, and with a cycle they always are. */
  lemma CycleDecides(g: Links, k: nat)
    requires g.Valid() && g.n > 0
    ensures k >= g.n ==> (Ranks(g, 0.0, k).Some? <==> HasCycle(JumpEdges(g)))
    ensures HasCycle(JumpEdges(g)) ==> Ranks(g, 0.0, k).Some?
  {
    RanksAtZero(g, JumpEdges(g), k);
    LongWalks(JumpEdges(g), g.n, k);
  }

  /** Where each node has no successors or all nodes as successors there are no jumps, so no ranks
      after a round. */
  lemma NoJumps(g: Links, k: nat)
    requires g.Valid() && g.n > 0 && k > 0
    requires forall w: nat, v: nat :: w < g.n && v < g.n && g.outDeg[w] > 0.0 ==> w in g.Row(v)
    ensures Ranks(g, 0.0, k).None?
  {
    RanksAtZero(g, JumpEdges(g), k);
    assert JumpEdges(g) == {};
    NoEdgesNoWalk({}, g.n, k);
  }

  /** Node 0 with an edge to itself, and node 1 alone. */
  const LOOP_AND_ALONE: Links := Links(2, [0, 1, 1], [0], [1.0, 0.0])

  lemma LoopValid()
    ensures LOOP_AND_ALONE.Valid()
    ensures LOOP_AND_ALONE.Row(0) == [0] && LOOP_AND_ALONE.Row(1) == []
  {
    var g := LOOP_AND_ALONE;
    assert g.Row(0) == [0] && g.Row(1) == [];
    assert 0 in g.Row(0);
  }

  lemma LoopJumps(g: Links)
    requires g.Valid() && g.n == 2 && g.outDeg[0] > 0.0 && g.outDeg[1] == 0.0
    requires g.Row(0) == [0] && g.Row(1) == []
    ensures JumpEdges(g) == {(0, 1)}
  {
  }

  /** There the only jump leads from node 0 to node 1: one round is defined, two are not. */
  lemma LoopAndAlone()
    ensures LOOP_AND_ALONE.Valid()
    ensures Ranks(LOOP_AND_ALONE, 0.0, 1).Some? && Ranks(LOOP_AND_ALONE, 0.0, 2).None?
  {
    LoopValid();
    LoopJumps(LOOP_AND_ALONE);
    RanksAtZero(LOOP_AND_ALONE, {(0, 1)}, 1);
    RanksAtZero(LOOP_AND_ALONE, {(0, 1)}, 2);
    OneEdgeWalks({(0, 1)}, 2, 0, 1);
  }

  // ---------------------------------------------------------------- the host loop

  /** One iteration of the host loop. */
  method Round(g: Links, d: real, ranks: array<real>, pi: array<real>, order: seq<nat>) returns (defined: bool)
    requires g.Valid() && g.n > 0 && ranks.Length == g.n == pi.Length && ranks != pi
    requires forall v: nat :: v in order <==> v < g.n
    modifies ranks, pi
    ensures defined == (PiTotal(g, d, old(ranks[..])) != 0.0)
    ensures defined ==> ranks[..] == Next(g, d, old(ranks[..]))
  {
    var dangling, live := Masses(g, ranks);
    var base := Even(d, g.n) * dangling + Even(1.0 - d, g.n) * live;
    BaseFromMasses(g, d, ranks[..], Even(d, g.n), Even(1.0 - d, g.n), dangling, live);
    Launch(g, d, ranks[..], base, order, pi);
    defined := Normalise(g, d, pi, ranks);
  }

  /** The kernel iteration is the three-case iteration, for any thread order in each launch and any
      damping; it is undefined exactly when some total is zero: for damping from zero to one, when
      the damping is zero and there is no walk of as many jumps as iterations. */
  method PagerankGpu(g: Links, d: real, iters: nat, orders: seq<seq<nat>>)
      returns (defined: bool, ranks: array<real>)
    requires g.Valid()
    requires |orders| == iters && forall t, v: nat :: 0 <= t < iters ==> (v in orders[t] <==> v < g.n)
    ensures fresh(ranks) && ranks.Length == g.n
    ensures g.n == 0 ==> defined
    ensures g.n > 0 && 0.0 <= d <= 1.0 ==> (defined <==> d > 0.0 || HasWalk(JumpEdges(g), g.n, iters))
    ensures g.n > 0 ==> defined == Ranks(g, d, iters).Some? && (defined ==> Ranks(g, d, iters) == Some(ranks[..]))
  {
    defined := true;
    if g.n == 0 {
      ranks := new real[0];
      return;
    }
    var nb := g.n as real;
    ranks := new real[g.n](_ => 1.0 / nb);
    var pi := new real[g.n](_ => 0.0);
    assert ranks[..] == Ranks(g, d, 0).value;
    for t := 0 to iters
      invariant Computed(g, d, t, defined, ranks[..])
    {
      if defined {
        ghost var r := ranks[..];
        defined := Round(g, d, ranks, pi, orders[t]);
        ComputedNext(g, d, t, r, defined, ranks[..]);
      }
    }
    if 0.0 <= d <= 1.0 {
      RanksDefined(g, d, iters);
    }
  }

  /** The ranks after `t` rounds, when they are defined. */
  ghost predicate Computed(g: Links, d: real, t: nat, defined: bool, r: seq<real>)
    requires g.Valid() && g.n > 0
  {
    defined == Ranks(g, d, t).Some? && (defined ==> Ranks(g, d, t) == Some(r))
  }

  lemma ComputedNext(g: Links, d: real, t: nat, r: seq<real>, defined: bool, next: seq<real>)
    requires g.Valid() && g.n > 0 && |r| == g.n && Computed(g, d, t, true, r)
    requires defined == (PiTotal(g, d, r) != 0.0) && (defined ==> next == Next(g, d, r))
    ensures Computed(g, d, t + 1, defined, next)
  {
  }

  // ---------------------------------------------------------------- building the rows

  /** Some edge leads from slot `u` to slot `v`. */
  ghost predicate Linked(edges: seq<Edge>, u: nat, v: nat) {
    exists e :: e in edges && e.src == u && e.dst == v
  }

  /** The number of edges leaving `w`, parallel edges counted each. */
  function OutCount(edges: seq<Edge>, w: nat): nat {
    |FarEnds(edges, w, Out)|
  }

  lemma OutCountZero(edges: seq<Edge>, w: nat)
    ensures OutCount(edges, w) == 0 <==> forall v: nat :: !Linked(edges, w, v)
  {
    var es := Incident(edges, w, Out);
    if OutCount(edges, w) > 0 {
      IncidentMembers(edges, w, Out, es[0]);
      assert Linked(edges, w, es[0].dst);
    }
    if v: nat :| Linked(edges, w, v) {
      var e :| e in edges && e.src == w && e.dst == v;
      IncidentMembers(edges, w, Out, e);
    }
  }

  /** The predecessors of `v`, each once, ascending. */
  function PredecessorRow(edges: seq<Edge>, v: nat): (row: seq<nat>) {
    Dedup(SortByKey(Number, FarEnds(edges, v, In)))
  }

  lemma PredecessorsOnce(edges: seq<Edge>, v: nat)
    ensures Distinct(PredecessorRow(edges, v))
    ensures forall w: nat :: w in PredecessorRow(edges, v) <==> Linked(edges, w, v)
  {
    SortDedup(FarEnds(edges, v, In));
    forall w: nat
      ensures w in PredecessorRow(edges, v) <==> Linked(edges, w, v)
    {
      FarEndsMembers(edges, v, In, w);
      assert w in Members(PredecessorRow(edges, v)) <==> w in Members(FarEnds(edges, v, In));
    }
  }

  /** Row `v` lists, once each, the slots with an edge to the `v`-th live slot. */
  ghost predicate RowIs(g: CodeGraph, off: seq<nat>, preds: seq<nat>, v: nat) {
    && v + 1 < |off| && v < |g.nodes| && off[v] <= off[v + 1] <= |preds|
    && Distinct(preds[off[v]..off[v + 1]])
    && forall w: nat :: w in preds[off[v]..off[v + 1]] <==> Linked(g.edges, w, g.nodes[v])
  }

  /** Offsets rise to the number of predecessors listed, all of them live. */
  ghost predicate Placed(g: CodeGraph, off: seq<nat>, preds: seq<nat>) {
    && 1 <= |off| <= |g.nodes| + 1 && off[|off| - 1] == |preds|
    && (forall a, b :: 0 <= a <= b < |off| ==> off[a] <= off[b] <= |preds|)
    && (forall k :: 0 <= k < |preds| ==> preds[k] in g.nodes)
  }

  lemma PlacesAppended(g: CodeGraph, off: seq<nat>, preds: seq<nat>, row: seq<nat>, o: nat)
    requires Placed(g, off, preds) && |off| <= |g.nodes| && o == |preds| + |row|
    requires forall k :: 0 <= k < |row| ==> row[k] in g.nodes
    ensures Placed(g, off + [o], preds + row)
  {
  }

  /** Rows written so far, each between its offsets. */
  ghost predicate Written(g: CodeGraph, off: seq<nat>, preds: seq<nat>) {
    && Placed(g, off, preds)
    && forall v: nat {:trigger RowIs(g, off, preds, v)} :: v + 1 < |off| ==> RowIs(g, off, preds, v)
  }

  lemma RowStays(g: CodeGraph, off: seq<nat>, preds: seq<nat>, v: nat, o: nat, row: seq<nat>)
    requires RowIs(g, off, preds, v)
    ensures RowIs(g, off + [o], preds + row, v)
  {
    assert (preds + row)[off[v]..off[v + 1]] == preds[off[v]..off[v + 1]];
  }

  lemma RowAppended(g: CodeGraph, off: seq<nat>, preds: seq<nat>, row: seq<nat>)
    requires g.Valid() && Written(g, off, preds) && |off| <= |g.nodes|
    requires row == PredecessorRow(g.edges, g.nodes[|off| - 1])
    ensures Written(g, off + [|preds + row|], preds + row)
  {
    var o := |preds + row|;
    PredecessorsOnce(g.edges, g.nodes[|off| - 1]);
    RowLive(g, g.nodes[|off| - 1]);
    PlacesAppended(g, off, preds, row, o);
    forall v: nat | v + 1 < |off + [o]|
      ensures RowIs(g, off + [o], preds + row, v)
    {
      if v + 1 < |off| {
        RowStays(g, off, preds, v, o, row);
      } else {
        assert (preds + row)[|preds|..o] == row;
      }
    }
  }

  lemma RowLive(g: CodeGraph, v: nat)
    requires g.Valid()
    ensures forall k :: 0 <= k < |PredecessorRow(g.edges, v)| ==> PredecessorRow(g.edges, v)[k] in g.nodes
  {
    var row := PredecessorRow(g.edges, v);
    PredecessorsOnce(g.edges, v);
    forall k | 0 <= k < |row|
      ensures row[k] in g.nodes
    {
      assert row[k] in row;
      var e :| e in g.edges && e.src == row[k] && e.dst == v;
    }
  }

  /** Every live slot is below the number of live slots. */
  predicate SlotsFit(nodes: seq<nat>) {
    forall w :: w in nodes ==> w < |nodes|
  }

  /** Distinct slots below their number are all the numbers below it. */
  lemma FitAreAll(nodes: seq<nat>)
    requires Distinct(nodes) && SlotsFit(nodes)
    ensures forall w: nat :: w < |nodes| ==> w in nodes
  {
    DistinctCard(nodes);
    assert Members(nodes) <= Below(|nodes|);
    SubsetCard(Members(nodes), Below(|nodes|));
    forall w: nat | w < |nodes|
      ensures w in nodes
    {
      assert w in Below(|nodes|) && w in Members(nodes);
    }
  }

  /** The first `k` live slots have their out-degrees. */
  ghost predicate Filled(g: CodeGraph, degrees: seq<real>, k: nat)
    requires k <= |g.nodes|
  {
    && |degrees| == |g.nodes|
    && forall i {:trigger g.nodes[i]} :: 0 <= i < k ==>
         g.nodes[i] < |degrees| && degrees[g.nodes[i]] == OutCount(g.edges, g.nodes[i]) as real
  }

  lemma AllFilled(g: CodeGraph, degrees: seq<real>)
    requires g.Valid() && Filled(g, degrees, |g.nodes|)
    ensures SlotsFit(g.nodes)
    ensures forall w: nat :: w < |g.nodes| ==> degrees[w] == OutCount(g.edges, w) as real
  {
    FitAreAll(g.nodes);
    forall w: nat | w < |g.nodes|
      ensures degrees[w] == OutCount(g.edges, w) as real
    {
      assert w in g.nodes;
      var i :| 0 <= i < |g.nodes| && g.nodes[i] == w;
    }
  }

  /** Out-degrees by raw slot number, in an array as long as there are live slots; none when a slot
      number is out of range. */
  method OutDegrees(g: CodeGraph) returns (outDeg: Option<seq<real>>)
    requires g.Valid()
    ensures outDeg.None? <==> !SlotsFit(g.nodes)
    ensures outDeg.Some? ==> |outDeg.value| == |g.nodes|
    ensures outDeg.Some? ==> forall w: nat :: w < |g.nodes| ==> outDeg.value[w] == OutCount(g.edges, w) as real
  {
    var degrees := seq(|g.nodes|, _ => 0.0);
    for k := 0 to |g.nodes|
      invariant Filled(g, degrees, k)
    {
      var w := g.nodes[k];
      assert w in g.nodes;
      if w >= |degrees| {
        return None;
      }
      degrees := degrees[w := OutCount(g.edges, w) as real];
    }
    AllFilled(g, degrees);
    outDeg := Some(degrees);
  }

  /** Predecessor rows by raw slot number, sorted without repetition, and out-degrees counting every
      edge: none exactly when some live slot is not below the live count, else what the kernel needs. */
  method ReverseCsr(g: CodeGraph) returns (links: Option<Links>)
    requires g.Valid()
    ensures links.None? <==> !SlotsFit(g.nodes)
    ensures links.Some? ==> links.value.n == |g.nodes| && links.value.Valid()
    ensures links.Some? ==> forall w: nat, v: nat :: v < |g.nodes| ==>
              (w in links.value.Row(v) <==> Linked(g.edges, w, g.nodes[v]))
    ensures links.Some? ==> forall w: nat :: w < |g.nodes| ==> links.value.outDeg[w] == OutCount(g.edges, w) as real
  {
    var off: seq<nat>, preds: seq<nat> := [0], [];
    for v := 0 to |g.nodes|
      invariant |off| == v + 1 && Written(g, off, preds)
    {
      var row := PredecessorRow(g.edges, g.nodes[v]);
      RowAppended(g, off, preds, row);
      off, preds := off + [|preds + row|], preds + row;
    }
    var outDeg := OutDegrees(g);
    if outDeg.None? {
      return None;
    }
    links := Some(Links(|g.nodes|, off, preds, outDeg.value));
    LinksValid(g, links.value);
  }

  lemma LinksValid(g: CodeGraph, links: Links)
    requires g.Valid() && SlotsFit(g.nodes) && links.n == |g.nodes|
    requires Written(g, links.off, links.preds) && |links.off| == links.n + 1 && |links.outDeg| == links.n
    requires forall w: nat :: w < links.n ==> links.outDeg[w] == OutCount(g.edges, w) as real
    ensures links.Valid()
    ensures forall w: nat, v: nat :: v < links.n ==> (w in links.Row(v) <==> Linked(g.edges, w, g.nodes[v]))
  {
    forall v: nat | v < links.n
      ensures links.RowDistinct(v) && forall w: nat :: w in links.Row(v) <==> Linked(g.edges, w, g.nodes[v])
    {
      assert RowIs(g, links.off, links.preds, v);
    }
    forall w: nat | w < links.n
      ensures links.DegreeFits(w)
    {
      DegreeIsRight(g, links, w);
    }
  }

  lemma DegreeIsRight(g: CodeGraph, links: Links, w: nat)
    requires g.Valid() && ValidRows(links.n, links.off, links.preds) && links.n == |g.nodes| == |links.outDeg|
    requires w < links.n && links.outDeg[w] == OutCount(g.edges, w) as real
    requires forall v: nat :: v < links.n ==> (w in links.Row(v) <==> Linked(g.edges, w, g.nodes[v]))
    ensures links.DegreeFits(w)
  {
    OutCountZero(g.edges, w);
    if v: nat :| Linked(g.edges, w, v) {
      var e :| e in g.edges && e.src == w && e.dst == v;
      assert e.dst in g.nodes;
      var p: int :| 0 <= p < |g.nodes| && g.nodes[p] == v;
      var row: nat := p;
      assert w in links.Row(row);
    }
  }

  // ---------------------------------------------------------------- graphs with removed nodes

  /** No slot is missing below the live ones. */
  ghost predicate Compact(nodes: seq<nat>) {
    forall p: nat :: p < |nodes| ==> nodes[p] == p
  }

  /** In slot order the live slots fit exactly when none is missing: rows are then by raw slot on
      both sides. */
  lemma {:induction false} FitIsCompact(nodes: seq<nat>)
    requires Ascending(nodes)
    ensures SlotsFit(nodes) <==> Compact(nodes)
  {
    if SlotsFit(nodes) {
      forall p: nat | p < |nodes|
        ensures nodes[p] == p
      {
        AtLeastPlace(nodes, p);
        AtMostPlace(nodes, p);
      }
    }
  }

  lemma {:induction false} AtLeastPlace(nodes: seq<nat>, p: nat)
    requires Ascending(nodes) && p < |nodes|
    ensures nodes[p] >= p
  {
    if p > 0 {
      AtLeastPlace(nodes, p - 1);
    }
  }

  lemma {:induction false} AtMostPlace(nodes: seq<nat>, p: nat)
    requires Ascending(nodes) && SlotsFit(nodes) && p < |nodes|
    ensures nodes[p] <= p
    decreases |nodes| - p
  {
    if p + 1 < |nodes| {
      AtMostPlace(nodes, p + 1);
    } else {
      assert nodes[p] in nodes;
    }
  }

  /** The live slots after removing slot `x` of a graph without missing slots. */
  function Without(nodes: seq<nat>, x: nat): seq<nat>
    requires x < |nodes|
  {
    nodes[..x] + nodes[x + 1..]
  }

  /** Removing a node keeps the slots in range exactly when it is the last one. */
  lemma RemovalFits(nodes: seq<nat>, x: nat)
    requires Compact(nodes) && x < |nodes|
    ensures SlotsFit(Without(nodes, x)) <==> x == |nodes| - 1
  {
    var left := Without(nodes, x);
    if x < |nodes| - 1 {
      assert left[|left| - 1] == |nodes| - 1;
      assert left[|left| - 1] in left;
    }
  }

  /** The smallest case: of two nodes the first is removed, and slot 1 is out of range. */
  lemma FirstRemoved()
    ensures Compact([0, 1]) && !SlotsFit(Without([0, 1], 0))
  {
    RemovalFits([0, 1], 0);
  }
}
