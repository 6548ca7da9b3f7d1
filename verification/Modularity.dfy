/** Modularity of a partition of a weighted graph, over the reals, and how it changes when a
    node moves or a partition is coarsened. */
module Modularity {
  import opened Sums

  /** The terms of `A` between nodes with one label. */
  ghost function Same(c: seq<nat>, A: Matrix): Matrix {
    (i: nat, j: nat) => if i < |c| && j < |c| && c[i] == c[j] then A(i, j) else 0.0
  }

  /** The terms of row `x` at nodes labelled `t`. */
  ghost function Labelled(c: seq<nat>, A: Matrix, x: nat, t: nat): nat -> real {
    (j: nat) => if j < |c| && c[j] == t then A(x, j) else 0.0
  }

  /** The sum of `A` over all pairs of nodes in one community. */
  ghost function PairSum(A: Matrix, c: seq<nat>): real {
    Sum2(|c|, |c|, Same(c, A))
  }

  /** The sum of row `x` over the community `t`. */
  ghost function ToCommunity(A: Matrix, c: seq<nat>, x: nat, t: nat): real {
    Sum(|c|, Labelled(c, A, x, t))
  }

  ghost predicate Symmetric(A: Matrix, n: nat) {
    forall i: nat, j: nat :: i < n && j < n ==> A(i, j) == A(j, i)
  }

  lemma SameAt(c: seq<nat>, A: Matrix, i: nat, j: nat)
    requires i < |c| && j < |c|
    ensures Same(c, A)(i, j) == if c[i] == c[j] then A(i, j) else 0.0
  {
  }

  lemma LabelledAt(c: seq<nat>, A: Matrix, x: nat, t: nat, j: nat)
    requires j < |c|
    ensures Labelled(c, A, x, t)(j) == if c[j] == t then A(x, j) else 0.0
  {
  }

  /** Row `i` when only node `x` changes label. */
  lemma OtherRow(A: Matrix, c: seq<nat>, x: nat, t: nat, i: nat)
    requires x < |c| && i < |c| && i != x && c[x] != t && Symmetric(A, |c|)
    ensures RowSum(|c|, Same(c[x := t], A), i) ==
            RowSum(|c|, Same(c, A), i) + Labelled(c, A, x, t)(i) - Labelled(c, A, x, c[x])(i)
  {
    var c' := c[x := t];
    var f, g := (j: nat) => Same(c, A)(i, j), (j: nat) => Same(c', A)(i, j);
    forall j: nat | j < |c|
      ensures f(j) == (if c[i] == c[j] then A(i, j) else 0.0) && g(j) == if c'[i] == c'[j] then A(i, j) else 0.0
    {
      SameAt(c, A, i, j);
      SameAt(c', A, i, j);
    }
    SumChange(|c|, f, g, x);
    LabelledAt(c, A, x, t, i);
    LabelledAt(c, A, x, c[x], i);
  }

  lemma MovedRow(A: Matrix, c: seq<nat>, x: nat, t: nat)
    requires x < |c| && c[x] != t
    ensures RowSum(|c|, Same(c[x := t], A), x) == ToCommunity(A, c, x, t) + A(x, x)
    ensures RowSum(|c|, Same(c, A), x) == ToCommunity(A, c, x, c[x])
  {
    var c' := c[x := t];
    var f, g := (j: nat) => Same(c, A)(x, j), (j: nat) => Same(c', A)(x, j);
    forall j: nat | j < |c|
      ensures f(j) == Labelled(c, A, x, c[x])(j)
      ensures g(j) == if j == x then A(x, x) else Labelled(c, A, x, t)(j)
      ensures j == x ==> Labelled(c, A, x, t)(j) == 0.0
    {
      SameAt(c, A, x, j);
      SameAt(c', A, x, j);
      LabelledAt(c, A, x, t, j);
      LabelledAt(c, A, x, c[x], j);
    }
    SumChange(|c|, Labelled(c, A, x, t), g, x);
    SumEq(|c|, f, Labelled(c, A, x, c[x]));
  }

  /** Moving `x` to `t` adds twice its tie to `t`, removes twice its tie to its old community,
      and keeps its own term. */
  lemma MoveSum(A: Matrix, c: seq<nat>, x: nat, t: nat)
    requires x < |c| && c[x] != t && Symmetric(A, |c|)
    ensures PairSum(A, c[x := t]) ==
            PairSum(A, c) + 2.0 * ToCommunity(A, c, x, t) - 2.0 * ToCommunity(A, c, x, c[x]) + 2.0 * A(x, x)
  {
    var n, c' := |c|, c[x := t];
    var before := (i: nat) => RowSum(n, Same(c, A), i);
    var after := (i: nat) => RowSum(n, Same(c', A), i);
    var gain, loss := Labelled(c, A, x, t), Labelled(c, A, x, c[x]);
    forall i: nat | i < n && i != x
      ensures after(i) == before(i) + gain(i) - loss(i)
    {
      OtherRow(A, c, x, t, i);
    }
    SumMoved(n, before, after, gain, loss, x);
    MovedRow(A, c, x, t);
    LabelledAt(c, A, x, t, x);
    LabelledAt(c, A, x, c[x], x);
  }

  /** A sum whose terms, but one, change by `gain` less `loss`. */
  lemma SumMoved(n: nat, before: nat -> real, after: nat -> real, gain: nat -> real, loss: nat -> real, x: nat)
    requires x < n && forall i: nat :: i < n && i != x ==> after(i) == before(i) + gain(i) - loss(i)
    ensures Sum(n, after) ==
            Sum(n, before) + Sum(n, gain) - Sum(n, loss) + after(x) - before(x) - gain(x) + loss(x)
  {
    var negated := (i: nat) => -1.0 * loss(i);
    var change := (i: nat) => gain(i) + negated(i);
    var predicted := (i: nat) => before(i) + change(i);
    SumScale(n, -1.0, loss, negated);
    SumAdd(n, gain, negated, change);
    SumAdd(n, before, change, predicted);
    SumChange(n, predicted, after, x);
  }

  // ---------------------------------------------------------------- weighted graphs

  /** Each row lists neighbours with weights; an undirected edge is listed at both ends. */
  type Row = seq<(nat, real)>
  type Adj = seq<Row>

  ghost predicate ValidAdj(adj: Adj) {
    && (forall i, k :: 0 <= i < |adj| && 0 <= k < |adj[i]| ==> adj[i][k].0 < |adj|)
    && Symmetric(Weights(adj), |adj|)
  }

  ghost predicate RowNonNegative(row: Row) {
    forall k :: 0 <= k < |row| ==> row[k].1 >= 0.0
  }

  ghost predicate NonNegative(adj: Adj) {
    forall i: nat :: i < |adj| ==> RowNonNegative(adj[i])
  }

  /** The row lists the neighbour `j`, with whatever weight. */
  ghost predicate Names(row: Row, j: nat) {
    exists e: nat :: e < |row| && row[e].0 == j
  }

  ghost function RowWeight(row: Row, j: nat): real {
    if row == [] then 0.0
    else RowWeight(row[..|row| - 1], j) + if row[|row| - 1].0 == j then row[|row| - 1].1 else 0.0
  }

  ghost function Weights(adj: Adj): Matrix {
    (i: nat, j: nat) => if i < |adj| then RowWeight(adj[i], j) else 0.0
  }

  ghost function RowTotal(row: Row): real {
    if row == [] then 0.0 else RowTotal(row[..|row| - 1]) + row[|row| - 1].1
  }

  ghost function Degree(adj: Adj, i: nat): real {
    if i < |adj| then RowTotal(adj[i]) else 0.0
  }

  ghost function Degrees(adj: Adj): Matrix {
    (i: nat, j: nat) => Degree(adj, i) * Degree(adj, j)
  }

  /** Half of all listed weight. */
  ghost function TotalWeight(adj: Adj): real {
    Sum(|adj|, (i: nat) => Degree(adj, i)) / 2.0
  }

  /** The total degree of a community. */
  ghost function Sigma(adj: Adj, c: seq<nat>, t: nat): real {
    Sum(|c|, (i: nat) => if i < |c| && c[i] == t then Degree(adj, i) else 0.0)
  }

  /** Modularity: internal weight, each edge in both directions, against expected weight. */
  ghost function Quality(adj: Adj, c: seq<nat>, gamma: real): real
    requires TotalWeight(adj) != 0.0
  {
    Score(PairSum(Weights(adj), c), PairSum(Degrees(adj), c), gamma, TotalWeight(adj))
  }

  ghost function Score(internal: real, squares: real, gamma: real, m: real): real
    requires m != 0.0
  {
    internal / (2.0 * m) - gamma * squares / (4.0 * m * m)
  }

  /** The gain the move phase computes: insertion into `t` less the cost of leaving. */
  function Gain(kIn: real, kOut: real, sigmaT: real, sigmaS: real, k: real, m: real, gamma: real): real
    requires m != 0.0
  {
    (kIn / m - gamma * sigmaT * k / (2.0 * m * m)) - (kOut / m - gamma * (sigmaS - k) * k / (2.0 * m * m))
  }

  ghost function MoveGain(adj: Adj, c: seq<nat>, gamma: real, x: nat, t: nat): real
    requires TotalWeight(adj) != 0.0 && x < |c|
  {
    Gain(ToCommunity(Weights(adj), c, x, t), ToCommunity(Weights(adj), c, x, c[x]),
         Sigma(adj, c, t), Sigma(adj, c, c[x]), Degree(adj, x), TotalWeight(adj), gamma)
  }

  lemma DegreesToCommunity(adj: Adj, c: seq<nat>, x: nat, t: nat)
    ensures ToCommunity(Degrees(adj), c, x, t) == Degree(adj, x) * Sigma(adj, c, t)
  {
    var f := (i: nat) => if i < |c| && c[i] == t then Degree(adj, i) else 0.0;
    var g := Labelled(c, Degrees(adj), x, t);
    forall j: nat | j < |c|
      ensures g(j) == Degree(adj, x) * f(j)
    {
      LabelledAt(c, Degrees(adj), x, t, j);
    }
    SumScale(|c|, Degree(adj, x), f, g);
  }

  lemma DivideBy(a: real, m: real)
    requires m != 0.0
    ensures a / m == a * (1.0 / m)
  {
  }

  lemma Inverses(m: real)
    requires m != 0.0
    ensures 1.0 / (2.0 * m) == (1.0 / m) / 2.0
    ensures 1.0 / (2.0 * m * m) == (1.0 / m) * (1.0 / m) / 2.0
    ensures 1.0 / (4.0 * m * m) == (1.0 / m) * (1.0 / m) / 4.0
  {
    var u := 1.0 / m;
    assert u * m == 1.0;
    assert (2.0 * m) * (u / 2.0) == 1.0;
    assert (2.0 * m * m) * (u * u / 2.0) == (u * m) * (u * m) == 1.0;
    assert (4.0 * m * m) * (u * u / 4.0) == (u * m) * (u * m) == 1.0;
  }

  /** The algebra of one move: `p` internal weight, `d` degree products, `w` the self-loop. */
  lemma MoveAlgebra(p: real, d: real, p': real, d': real, kIn: real, kOut: real, w: real, k: real,
                    sigmaT: real, sigmaS: real, gamma: real, m: real)
    requires m != 0.0
    requires p' == p + 2.0 * kIn - 2.0 * kOut + 2.0 * w
    requires d' == d + 2.0 * (k * sigmaT) - 2.0 * (k * sigmaS) + 2.0 * (k * k)
    ensures Score(p', d', gamma, m) == Score(p, d, gamma, m) + Gain(kIn, kOut, sigmaT, sigmaS, k, m, gamma) + w / m
  {
    var u := 1.0 / m;
    Inverses(m);
    ScoreForm(p', d', gamma, m);
    ScoreForm(p, d, gamma, m);
    GainForm(kIn, kOut, sigmaT, sigmaS, k, m, gamma);
    DivideBy(w, m);
    assert p' * (u / 2.0) == p * (u / 2.0) + kIn * u - kOut * u + w * u;
    assert gamma * d' * (u * u / 4.0) ==
           gamma * d * (u * u / 4.0) + gamma * (k * sigmaT - k * sigmaS + k * k) * (u * u / 2.0);
  }

  lemma ScoreForm(p: real, d: real, gamma: real, m: real)
    requires m != 0.0
    ensures Score(p, d, gamma, m) == p * ((1.0 / m) / 2.0) - gamma * d * ((1.0 / m) * (1.0 / m) / 4.0)
  {
    Inverses(m);
    DivideBy(p, 2.0 * m);
    DivideBy(gamma * d, 4.0 * m * m);
  }

  lemma GainForm(kIn: real, kOut: real, sigmaT: real, sigmaS: real, k: real, m: real, gamma: real)
    requires m != 0.0
    ensures Gain(kIn, kOut, sigmaT, sigmaS, k, m, gamma) ==
            kIn * (1.0 / m) - kOut * (1.0 / m)
            - gamma * (k * sigmaT - k * sigmaS + k * k) * ((1.0 / m) * (1.0 / m) / 2.0)
  {
    Inverses(m);
    DivideBy(kIn, m);
    DivideBy(kOut, m);
    DivideBy(gamma * sigmaT * k, 2.0 * m * m);
    DivideBy(gamma * (sigmaS - k) * k, 2.0 * m * m);
  }

  /** What a move changes in the sum of degree products. */
  lemma MoveDegrees(adj: Adj, c: seq<nat>, x: nat, t: nat, k: real, sigmaT: real, sigmaS: real)
    requires |c| == |adj| && x < |c| && c[x] != t
    requires k == Degree(adj, x) && sigmaT == Sigma(adj, c, t) && sigmaS == Sigma(adj, c, c[x])
    ensures PairSum(Degrees(adj), c[x := t]) ==
            PairSum(Degrees(adj), c) + 2.0 * (k * sigmaT) - 2.0 * (k * sigmaS) + 2.0 * (k * k)
  {
    var D := Degrees(adj);
    MoveSum(D, c, x, t);
    DegreesToCommunity(adj, c, x, t);
    DegreesToCommunity(adj, c, x, c[x]);
    assert D(x, x) == k * k;
  }

  /** A move changes modularity by the computed gain plus the node's self-loop weight over m: the
      gain is exact for nodes without a self-loop, whatever the signs of weights. */
  lemma MoveChange(adj: Adj, c: seq<nat>, gamma: real, x: nat, t: nat)
    requires ValidAdj(adj) && TotalWeight(adj) != 0.0 && |c| == |adj| && x < |c| && c[x] != t
    ensures Quality(adj, c[x := t], gamma) ==
            Quality(adj, c, gamma) + MoveGain(adj, c, gamma, x, t) + Weights(adj)(x, x) / TotalWeight(adj)
  {
    var W, D, m := Weights(adj), Degrees(adj), TotalWeight(adj);
    MoveSum(W, c, x, t);
    MoveDegrees(adj, c, x, t, Degree(adj, x), Sigma(adj, c, t), Sigma(adj, c, c[x]));
    MoveAlgebra(PairSum(W, c), PairSum(D, c), PairSum(W, c[x := t]), PairSum(D, c[x := t]),
                ToCommunity(W, c, x, t), ToCommunity(W, c, x, c[x]), W(x, x),
                Degree(adj, x), Sigma(adj, c, t), Sigma(adj, c, c[x]), gamma, m);
  }

  lemma QuotientNonNegative(a: real, m: real)
    requires a >= 0.0 && m > 0.0
    ensures a / m >= 0.0
  {
  }

  lemma {:induction false} RowWeightNonNegative(row: Row, j: nat)
    requires RowNonNegative(row)
    ensures RowWeight(row, j) >= 0.0
  {
    if row != [] {
      RowWeightNonNegative(row[..|row| - 1], j);
    }
  }

  lemma {:induction false} RowTotalNonNegative(row: Row)
    requires RowNonNegative(row)
    ensures RowTotal(row) >= 0.0
  {
    if row != [] {
      RowTotalNonNegative(row[..|row| - 1]);
    }
  }

  lemma TotalNonNegative(adj: Adj)
    requires NonNegative(adj)
    ensures TotalWeight(adj) >= 0.0
  {
    var f := (i: nat) => Degree(adj, i);
    forall i: nat | i < |adj|
      ensures f(i) >= 0.0
    {
      RowTotalNonNegative(adj[i]);
    }
    SumNonNegative(|adj|, f);
  }

  /** No self-loop weighs against the total: what a move adds beyond its gain is not a loss. */
  ghost predicate LoopsHelp(adj: Adj)
    requires TotalWeight(adj) != 0.0
  {
    forall x: nat {:trigger Weights(adj)(x, x)} :: x < |adj| ==> Weights(adj)(x, x) / TotalWeight(adj) >= 0.0
  }

  lemma NonNegativeLoops(adj: Adj)
    requires NonNegative(adj) && TotalWeight(adj) != 0.0
    ensures LoopsHelp(adj)
  {
    TotalNonNegative(adj);
    forall x: nat | x < |adj|
      ensures Weights(adj)(x, x) / TotalWeight(adj) >= 0.0
    {
      RowWeightNonNegative(adj[x], x);
      QuotientNonNegative(RowWeight(adj[x], x), TotalWeight(adj));
    }
  }

  /** The maintained community totals after a move. */
  lemma SigmaMove(adj: Adj, c: seq<nat>, x: nat, t: nat, k: nat)
    requires x < |c| && c[x] != t
    ensures Sigma(adj, c[x := t], k) == Sigma(adj, c, k)
              + (if k == t then Degree(adj, x) else 0.0) - (if k == c[x] then Degree(adj, x) else 0.0)
  {
    var c' := c[x := t];
    var f := (i: nat) => if i < |c| && c[i] == k then Degree(adj, i) else 0.0;
    var g := (i: nat) => if i < |c'| && c'[i] == k then Degree(adj, i) else 0.0;
    SumChange(|c|, f, g, x);
  }

  // ---------------------------------------------------------------- per-community form

  /** The part of row sums that lies in community `k`. */
  ghost function Inner(A: Matrix, c: seq<nat>, k: nat): real {
    Sum(|c|, (i: nat) => if i < |c| && c[i] == k then ToCommunity(A, c, i, k) else 0.0)
  }

  /** Summing over communities counts each node's community once. */
  lemma PairSumByCommunity(A: Matrix, c: seq<nat>, labels: nat)
    requires forall i :: 0 <= i < |c| ==> c[i] < labels
    ensures PairSum(A, c) == Sum(labels, Inners(A, c))
  {
    var F := (k: nat, i: nat) => if i < |c| && c[i] == k then ToCommunity(A, c, i, k) else 0.0;
    forall k: nat | k < labels
      ensures RowSum(|c|, F, k) == Inner(A, c, k)
    {
      SumEq(|c|, (i: nat) => F(k, i), (i: nat) => if i < |c| && c[i] == k then ToCommunity(A, c, i, k) else 0.0);
    }
    SumEq(labels, (k: nat) => RowSum(|c|, F, k), Inners(A, c));
    SumSwap(labels, |c|, F);
    forall i: nat | i < |c|
      ensures RowSum(labels, Transpose(F), i) == RowSum(|c|, Same(c, A), i)
    {
      SumSingle(labels, (k: nat) => Transpose(F)(i, k), c[i]);
      var f := (j: nat) => Same(c, A)(i, j);
      forall j: nat | j < |c|
        ensures f(j) == Labelled(c, A, i, c[i])(j)
      {
        SameAt(c, A, i, j);
        LabelledAt(c, A, i, c[i], j);
      }
      SumEq(|c|, f, Labelled(c, A, i, c[i]));
    }
    SumEq(|c|, (i: nat) => RowSum(labels, Transpose(F), i), (i: nat) => RowSum(|c|, Same(c, A), i));
  }

  /** For degree products a community's part is its total degree squared. */
  lemma InnerDegrees(adj: Adj, c: seq<nat>, k: nat)
    ensures Inner(Degrees(adj), c, k) == Sigma(adj, c, k) * Sigma(adj, c, k)
  {
    var s := Sigma(adj, c, k);
    var f := (i: nat) => if i < |c| && c[i] == k then Degree(adj, i) else 0.0;
    var g := (i: nat) => if i < |c| && c[i] == k then ToCommunity(Degrees(adj), c, i, k) else 0.0;
    forall i: nat | i < |c|
      ensures g(i) == s * f(i)
    {
      DegreesToCommunity(adj, c, i, k);
    }
    SumScale(|c|, s, f, g);
  }

  /** The textbook form: over communities, internal weight (both directions) over 2m, less the
      resolution times the square of total degree over 2m. */
  lemma ModularityByCommunity(adj: Adj, c: seq<nat>, gamma: real, labels: nat)
    requires TotalWeight(adj) != 0.0 && forall i :: 0 <= i < |c| ==> c[i] < labels
    ensures Quality(adj, c, gamma) == Sum(labels, CommunityTerms(adj, c, gamma))
  {
    var m := TotalWeight(adj);
    PairSumByCommunity(Weights(adj), c, labels);
    PairSumByCommunity(Degrees(adj), c, labels);
    TermsCombine(adj, c, gamma, m, labels);
    CombineSums(labels, 1.0 / (2.0 * m), Inners(Weights(adj), c), -gamma * (1.0 / (4.0 * m * m)),
        Inners(Degrees(adj), c),
                CommunityTerms(adj, c, gamma), PairSum(Weights(adj), c), PairSum(Degrees(adj), c), gamma, m);
  }

  /** Community parts as a function of the label. */
  ghost function Inners(A: Matrix, c: seq<nat>): nat -> real {
    (k: nat) => Inner(A, c, k)
  }

  lemma TermsCombine(adj: Adj, c: seq<nat>, gamma: real, m: real, labels: nat)
    requires m != 0.0 && m == TotalWeight(adj)
    ensures Combines(labels, 1.0 / (2.0 * m), Inners(Weights(adj), c), -gamma * (1.0 / (4.0 * m * m)),
                     Inners(Degrees(adj), c), CommunityTerms(adj, c, gamma))
  {
    forall k: nat
      ensures CommunityTerms(adj, c, gamma)(k) ==
              1.0 / (2.0 * m) * Inners(Weights(adj), c)(k) + -gamma * (1.0 / (4.0 * m * m)) * Inners(Degrees(adj), c)(k)
    {
      InnerDegrees(adj, c, k);
      TermAlgebra(Inner(Weights(adj), c, k), Sigma(adj, c, k), gamma, m);
    }
  }

  lemma CombineSums(n: nat, a: real, f: nat -> real, b: real, g: nat -> real, h: nat -> real, p: real, d: real,
      gamma: real, m: real)
    requires Combines(n, a, f, b, g, h) && p == Sum(n, f) && d == Sum(n, g)
    requires m != 0.0 && a == 1.0 / (2.0 * m) && b == -gamma * (1.0 / (4.0 * m * m))
    ensures Score(p, d, gamma, m) == Sum(n, h)
  {
    SumCombination(n, a, f, b, g, h);
    QuotientForm(p, d, gamma, m);
  }

  lemma QuotientForm(p: real, d: real, gamma: real, m: real)
    requires m != 0.0
    ensures Score(p, d, gamma, m) == 1.0 / (2.0 * m) * p + -gamma * (1.0 / (4.0 * m * m)) * d
  {
    DivideBy(p, 2.0 * m);
    DivideBy(gamma * d, 4.0 * m * m);
  }

  /** A community's internal share, less the square of its share of all degree. */
  function Share(internal: real, degree: real, gamma: real, m: real): real
    requires m != 0.0
  {
    internal / (2.0 * m) - gamma * (degree / (2.0 * m)) * (degree / (2.0 * m))
  }

  ghost function CommunityTerms(adj: Adj, c: seq<nat>, gamma: real): nat -> real {
    (k: nat) => if TotalWeight(adj) != 0.0 then Share(Inner(Weights(adj), c, k), Sigma(adj, c, k), gamma,
        TotalWeight(adj)) else 0.0
  }

  lemma TermAlgebra(i: real, d: real, gamma: real, m: real)
    requires m != 0.0
    ensures Share(i, d, gamma, m) ==
            1.0 / (2.0 * m) * i + -gamma * (1.0 / (4.0 * m * m)) * (d * d)
  {
    Inverses(m);
    DivideBy(i, 2.0 * m);
    DivideBy(d, 2.0 * m);
  }
}
