/** Collapsing communities into super-nodes. */
module Coarsening {
  import opened Modularity
  import opened Sums
  import opened Tallies

  // ---------------------------------------------------------------- renumbering

  /** `r` numbers the labels of `c` by first appearance, using exactly the numbers below `count`. */
  ghost predicate Renumbers(c: seq<nat>, r: seq<nat>, count: nat) {
    && |r| == |c|
    && (forall i, j :: 0 <= i < |c| && 0 <= j < |c| ==> (r[i] == r[j] <==> c[i] == c[j]))
    && (forall i :: 0 <= i < |r| ==> r[i] < count)
    && (forall k: nat :: k < count ==> k in r)
    && FirstAppearances(r)
  }

  /** A number appears after all smaller ones. */
  ghost predicate FirstAppearances(r: seq<nat>) {
    forall i, k: nat {:trigger k in r[..i]} :: 0 <= i < |r| && k < r[i] ==> k in r[..i]
  }

  lemma NextAppearance(r: seq<nat>, x: nat, count: nat)
    requires FirstAppearances(r) && x <= count && forall k: nat :: k < count ==> k in r
    ensures FirstAppearances(r + [x])
  {
    var next := r + [x];
    forall h, k: nat | 0 <= h < |next| && k < next[h]
      ensures k in next[..h]
    {
      if h < |r| {
        assert next[..h] == r[..h];
      } else {
        assert next[..h] == r;
      }
    }
  }

  /** Two labellings in order of first appearance agree. */
  lemma {:induction false} RenumberedAgree(c: seq<nat>, r: seq<nat>, m: nat, q: seq<nat>, n: nat, i: nat)
    requires Renumbers(c, r, m) && Renumbers(c, q, n) && i <= |c|
    ensures r[..i] == q[..i]
  {
    if i > 0 {
      RenumberedAgree(c, r, m, q, n, i - 1);
      NotLess(c, r, m, q, n, i - 1);
      NotLess(c, q, n, r, m, i - 1);
      assert r[..i] == r[..i - 1] + [r[i - 1]] && q[..i] == q[..i - 1] + [q[i - 1]];
    }
  }

  lemma NotLess(c: seq<nat>, r: seq<nat>, m: nat, q: seq<nat>, n: nat, i: nat)
    requires Renumbers(c, r, m) && Renumbers(c, q, n) && i < |c| && r[..i] == q[..i]
    ensures r[i] >= q[i]
  {
    if r[i] in r[..i] {
      var j :| 0 <= j < i && r[..i][j] == r[i];
      assert r[..i][j] == r[j] && q[..i][j] == q[j];
      assert c[j] == c[i];
    } else {
      assert r[i] !in q[..i];
    }
  }

  /** Numbering by first appearance has one outcome. */
  lemma RenumbersUnique(c: seq<nat>, r: seq<nat>, m: nat, q: seq<nat>, n: nat)
    requires Renumbers(c, r, m) && Renumbers(c, q, n)
    ensures r == q && m == n
  {
    RenumberedAgree(c, r, m, q, n, |c|);
    assert r[..|c|] == r && q[..|c|] == q;
    CountNotLess(c, r, m, n);
    CountNotLess(c, r, n, m);
  }

  lemma CountNotLess(c: seq<nat>, r: seq<nat>, m: nat, n: nat)
    requires Renumbers(c, r, m) && Renumbers(c, r, n)
    ensures m >= n
  {
    assert m < n ==> m in r;
  }

  /** The table of labels met so far. */
  ghost predicate TableOf(table: map<nat, nat>, c: seq<nat>, r: seq<nat>, count: nat) {
    && |r| <= |c|
    && (forall i :: 0 <= i < |r| ==> c[i] in table && table[c[i]] == r[i])
    && (forall k :: k in table ==> table[k] < count && k in c[..|r|])
    && (forall k, l :: k in table && l in table && table[k] == table[l] ==> k == l)
  }

  lemma TableGrows(table: map<nat, nat>, c: seq<nat>, r: seq<nat>, count: nat)
    requires TableOf(table, c, r, count) && |r| < |c|
    ensures var l := c[|r|];
            if l in table then TableOf(table, c, r + [table[l]], count)
            else TableOf(table[l := count], c, r + [count], count + 1)
  {
    assert c[..|r| + 1] == c[..|r|] + [c[|r|]];
  }

  method Renumber(c: seq<nat>) returns (r: seq<nat>, count: nat)
    ensures Renumbers(c, r, count)
    ensures |c| > 0 ==> 0 < count
    ensures count <= |c|
  {
    var table: map<nat, nat> := map[];
    r, count := [], 0;
    for i := 0 to |c|
      invariant |r| == i && TableOf(table, c, r, count)
      invariant count <= i && (i > 0 ==> 0 < count)
      invariant forall k: nat :: k < count ==> k in r
      invariant FirstAppearances(r)
    {
      TableGrows(table, c, r, count);
      ghost var was, countWas := r, count;
      if c[i] !in table {
        table := table[c[i] := count];
        count := count + 1;
      }
      r := r + [table[c[i]]];
      NextAppearance(was, table[c[i]], countWas);
    }
    assert c[..|c|] == c;
  }

  // ---------------------------------------------------------------- grouped sums

  /** The terms of `A` from nodes labelled `a` to nodes labelled `b`. */
  ghost function Block(A: Matrix, c: seq<nat>, a: nat, b: nat): Matrix {
    (i: nat, j: nat) => if i < |c| && j < |c| && c[i] == a && c[j] == b then A(i, j) else 0.0
  }

  /** The total of `A` between communities. */
  ghost function Grouped(A: Matrix, c: seq<nat>): Matrix {
    (a: nat, b: nat) => Sum2(|c|, |c|, Block(A, c, a, b))
  }

  ghost function Part(A: Matrix, c: seq<nat>, a: nat, b: nat): nat -> real {
    (i: nat) => if i < |c| && c[i] == a then ToCommunity(A, c, i, b) else 0.0
  }

  /** A block summed row by row. */
  lemma GroupedByRow(A: Matrix, c: seq<nat>, a: nat, b: nat)
    ensures Grouped(A, c)(a, b) == Sum(|c|, Part(A, c, a, b))
  {
    var B := Block(A, c, a, b);
    forall i: nat | i < |c|
      ensures RowSum(|c|, B, i) == Part(A, c, a, b)(i)
    {
      var f := (j: nat) => B(i, j);
      if c[i] == a {
        forall j: nat | j < |c|
          ensures f(j) == Labelled(c, A, i, b)(j)
        {
          LabelledAt(c, A, i, b, j);
        }
        SumEq(|c|, f, Labelled(c, A, i, b));
      } else {
        SumZero(|c|, f);
      }
    }
    SumEq(|c|, (i: nat) => RowSum(|c|, B, i), Part(A, c, a, b));
  }

  lemma GroupedSymmetric(A: Matrix, c: seq<nat>, a: nat, b: nat)
    requires Symmetric(A, |c|)
    ensures Grouped(A, c)(a, b) == Grouped(A, c)(b, a)
  {
    SumSwap(|c|, |c|, Block(A, c, a, b));
    Sum2Eq(|c|, |c|, Transpose(Block(A, c, a, b)), Block(A, c, b, a));
  }

  /** Terms of the pairs whose first index is the node's label. */
  ghost function Matching(c: seq<nat>, V: Matrix): Matrix {
    (a: nat, i: nat) => if i < |c| && c[i] == a then V(a, i) else 0.0
  }

  /** Summing over labels and then over the nodes of each label meets every node once. */
  lemma PickLabels(c: seq<nat>, count: nat, V: Matrix)
    requires forall i :: 0 <= i < |c| ==> c[i] < count
    ensures Sum2(count, |c|, Matching(c, V)) == Sum(|c|, (i: nat) => if i < |c| then V(c[i], i) else 0.0)
  {
    SumSwap(count, |c|, Matching(c, V));
    var f := (i: nat) => RowSum(count, Transpose(Matching(c, V)), i);
    var g := (i: nat) => if i < |c| then V(c[i], i) else 0.0;
    forall i: nat | i < |c|
      ensures f(i) == g(i)
    {
      SumSingle(count, (a: nat) => Transpose(Matching(c, V))(i, a), c[i]);
    }
    SumEq(|c|, f, g);
  }

  /** The partition of nodes that a partition of super-nodes stands for. */
  ghost function Lift(c: seq<nat>, p: seq<nat>): (q: seq<nat>)
    requires forall i :: 0 <= i < |c| ==> c[i] < |p|
    ensures |q| == |c| && forall i :: 0 <= i < |c| ==> q[i] == p[c[i]]
  {
    seq(|c|, i requires 0 <= i < |c| => p[c[i]])
  }

  /** Row `i` of `A` over the nodes whose super-node shares a community with super-node `a`. */
  ghost function Outward(A: Matrix, c: seq<nat>, p: seq<nat>): Matrix
    requires forall i :: 0 <= i < |c| ==> c[i] < |p|
  {
    (a: nat, i: nat) => if a < |p| then ToCommunity(A, Lift(c, p), i, p[a]) else 0.0
  }

  /** Row `i` summed over super-nodes in the community of `a` is row `i` summed over their nodes. */
  lemma RegroupRow(A: Matrix, c: seq<nat>, p: seq<nat>, i: nat, t: nat)
    requires forall j :: 0 <= j < |c| ==> c[j] < |p|
    ensures Sum(|p|, (b: nat) => if b < |p| && p[b] == t then ToCommunity(A, c, i, b) else 0.0) ==
            ToCommunity(A, Lift(c, p), i, t)
  {
    var V := (b: nat, j: nat) => if b < |p| && p[b] == t then A(i, j) else 0.0;
    PickLabels(c, |p|, V);
    var f := (b: nat) => if b < |p| && p[b] == t then ToCommunity(A, c, i, b) else 0.0;
    forall b: nat | b < |p|
      ensures RowSum(|c|, Matching(c, V), b) == f(b)
    {
      var row := (j: nat) => Matching(c, V)(b, j);
      if p[b] == t {
        forall j: nat | j < |c|
          ensures row(j) == Labelled(c, A, i, b)(j)
        {
          LabelledAt(c, A, i, b, j);
        }
        SumEq(|c|, row, Labelled(c, A, i, b));
      } else {
        SumZero(|c|, row);
      }
    }
    SumEq(|p|, (b: nat) => RowSum(|c|, Matching(c, V), b), f);
    var picked := (j: nat) => if j < |c| then V(c[j], j) else 0.0;
    forall j: nat | j < |c|
      ensures picked(j) == Labelled(Lift(c, p), A, i, t)(j)
    {
      LabelledAt(Lift(c, p), A, i, t, j);
    }
    SumEq(|c|, picked, Labelled(Lift(c, p), A, i, t));
  }

  /** A row of the grouped matrix, restricted to one community, in terms of nodes. */
  lemma GroupedRow(A: Matrix, c: seq<nat>, p: seq<nat>, a: nat, t: nat)
    requires forall j :: 0 <= j < |c| ==> c[j] < |p|
    ensures ToCommunity(Grouped(A, c), p, a, t) ==
            Sum(|c|, (i: nat) => if i < |c| && c[i] == a then ToCommunity(A, Lift(c, p), i, t) else 0.0)
  {
    var F := (b: nat, i: nat) => if b < |p| && p[b] == t && i < |c| && c[i] == a then ToCommunity(A, c, i, b) else 0.0;
    var left := Labelled(p, Grouped(A, c), a, t);
    forall b: nat | b < |p|
      ensures left(b) == RowSum(|c|, F, b)
    {
      LabelledAt(p, Grouped(A, c), a, t, b);
      GroupedByRow(A, c, a, b);
      var row := (i: nat) => F(b, i);
      if p[b] == t {
        SumEq(|c|, row, Part(A, c, a, b));
      } else {
        SumZero(|c|, row);
      }
    }
    SumEq(|p|, left, (b: nat) => RowSum(|c|, F, b));
    SumSwap(|p|, |c|, F);
    var right := (i: nat) => if i < |c| && c[i] == a then ToCommunity(A, Lift(c, p), i, t) else 0.0;
    forall i: nat | i < |c|
      ensures RowSum(|p|, Transpose(F), i) == right(i)
    {
      var row := (b: nat) => Transpose(F)(i, b);
      if c[i] == a {
        RegroupRow(A, c, p, i, t);
        SumEq(|p|, row, (b: nat) => if b < |p| && p[b] == t then ToCommunity(A, c, i, b) else 0.0);
      } else {
        SumZero(|p|, row);
      }
    }
    SumEq(|c|, (i: nat) => RowSum(|p|, Transpose(F), i), right);
  }

  /** A row of `Same` is the row summed over its own community. */
  lemma SameRow(A: Matrix, c: seq<nat>, i: nat)
    requires i < |c|
    ensures RowSum(|c|, Same(c, A), i) == ToCommunity(A, c, i, c[i])
  {
    var f := (j: nat) => Same(c, A)(i, j);
    forall j: nat | j < |c|
      ensures f(j) == Labelled(c, A, i, c[i])(j)
    {
      SameAt(c, A, i, j);
      LabelledAt(c, A, i, c[i], j);
    }
    SumEq(|c|, f, Labelled(c, A, i, c[i]));
  }

  /** For any matrix, a partition of the groups sums the same pairs as its lift. */
  lemma GroupedPairSum(A: Matrix, c: seq<nat>, p: seq<nat>)
    requires forall j :: 0 <= j < |c| ==> c[j] < |p|
    ensures PairSum(Grouped(A, c), p) == PairSum(A, Lift(c, p))
  {
    var V := Outward(A, c, p);
    PickLabels(c, |p|, V);
    forall a: nat | a < |p|
      ensures RowSum(|p|, Same(p, Grouped(A, c)), a) == RowSum(|c|, Matching(c, V), a)
    {
      SameRow(Grouped(A, c), p, a);
      GroupedRow(A, c, p, a, p[a]);
      SumEq(|c|, (i: nat) => Matching(c, V)(a, i),
            (i: nat) => if i < |c| && c[i] == a then ToCommunity(A, Lift(c, p), i, p[a]) else 0.0);
    }
    SumEq(|p|, (a: nat) => RowSum(|p|, Same(p, Grouped(A, c)), a), (a: nat) => RowSum(|c|, Matching(c, V), a));
    var picked := (i: nat) => if i < |c| then V(c[i], i) else 0.0;
    forall i: nat | i < |c|
      ensures picked(i) == RowSum(|c|, Same(Lift(c, p), A), i)
    {
      SameRow(A, Lift(c, p), i);
    }
    SumEq(|c|, picked, (i: nat) => RowSum(|c|, Same(Lift(c, p), A), i));
  }

  // ---------------------------------------------------------------- the coarse graph

  /** `coarse` has one node a community, and the weight between communities between its nodes. */
  ghost predicate Represents(coarse: Adj, adj: Adj, mapping: seq<nat>) {
    && ValidAdj(coarse) && |mapping| == |adj|
    && (forall i :: 0 <= i < |mapping| ==> mapping[i] < |coarse|)
    && (forall a: nat, b: nat :: a < |coarse| && b < |coarse| ==>
          Weights(coarse)(a, b) == Grouped(Weights(adj), mapping)(a, b))
    && forall a: nat, b: nat {:trigger Names(coarse[a], b)} :: a < |coarse| ==>
         (Names(coarse[a], b) <==> Linked(adj, mapping, |adj|, a, b))
  }

  /** Node `i` of community `a` lists a node of community `b`. */
  ghost predicate LinkAt(adj: Adj, mapping: seq<nat>, i: nat, a: nat, b: nat) {
    i < |adj| && i < |mapping| && mapping[i] == a && Lists(adj[i], mapping, b)
  }

  ghost predicate Linked(adj: Adj, mapping: seq<nat>, n: nat, a: nat, b: nat) {
    exists i: nat {:trigger LinkAt(adj, mapping, i, a, b)} :: i < n && LinkAt(adj, mapping, i, a, b)
  }

  lemma LinkedNext(adj: Adj, mapping: seq<nat>, n: nat, a: nat, b: nat)
    ensures Linked(adj, mapping, n + 1, a, b) <==> Linked(adj, mapping, n, a, b) || LinkAt(adj, mapping, n, a, b)
  {
    if i: nat :| i < n + 1 && LinkAt(adj, mapping, i, a, b) {
      assert i < n || i == n;
    }
  }

  lemma {:induction false} RowTotalSum(row: Row, n: nat)
    requires RowValid(row, n)
    ensures RowTotal(row) == Sum(n, (j: nat) => RowWeight(row, j))
  {
    var f := (j: nat) => RowWeight(row, j);
    if row == [] {
      SumZero(n, f);
    } else {
      var front, last := row[..|row| - 1], row[|row| - 1];
      RowTotalSum(front, n);
      SumChange(n, (j: nat) => RowWeight(front, j), f, last.0);
    }
  }

  /** With one community a row sums to the degree. */
  lemma WholeRow(adj: Adj, one: seq<nat>, i: nat)
    requires ValidAdj(adj) && |one| == |adj| && i < |adj| && forall j :: 0 <= j < |one| ==> one[j] == 0
    ensures ToCommunity(Weights(adj), one, i, 0) == Degree(adj, i)
  {
    RowTotalSum(adj[i], |adj|);
    var f := Labelled(one, Weights(adj), i, 0);
    forall j: nat | j < |adj|
      ensures f(j) == RowWeight(adj[i], j)
    {
      LabelledAt(one, Weights(adj), i, 0, j);
    }
    SumEq(|adj|, f, (j: nat) => RowWeight(adj[i], j));
  }

  /** The degree of a super-node is the total degree of its community. */
  lemma CoarseDegree(coarse: Adj, adj: Adj, mapping: seq<nat>, a: nat)
    requires ValidAdj(adj) && Represents(coarse, adj, mapping) && a < |coarse|
    ensures Degree(coarse, a) == Sigma(adj, mapping, a)
  {
    var one := seq(|coarse|, _ => 0);
    WholeRow(coarse, one, a);
    var W, G := Weights(coarse), Grouped(Weights(adj), mapping);
    forall b: nat | b < |coarse|
      ensures Labelled(one, W, a, 0)(b) == Labelled(one, G, a, 0)(b)
    {
      LabelledAt(one, W, a, 0, b);
      LabelledAt(one, G, a, 0, b);
    }
    SumEq(|coarse|, Labelled(one, W, a, 0), Labelled(one, G, a, 0));
    GroupedRow(Weights(adj), mapping, one, a, 0);
    var f := (i: nat) =>
        if i < |mapping| && mapping[i] == a then ToCommunity(Weights(adj), Lift(mapping, one), i, 0) else 0.0;
    var g := (i: nat) => if i < |mapping| && mapping[i] == a then Degree(adj, i) else 0.0;
    forall i: nat | i < |adj|
      ensures f(i) == g(i)
    {
      WholeRow(adj, Lift(mapping, one), i);
    }
    SumEq(|adj|, f, g);
  }

  /** Coarsening keeps the total weight. */
  lemma CoarseTotal(coarse: Adj, adj: Adj, mapping: seq<nat>)
    requires ValidAdj(adj) && Represents(coarse, adj, mapping)
    ensures TotalWeight(coarse) == TotalWeight(adj)
  {
    var V := (a: nat, i: nat) => Degree(adj, i);
    PickLabels(mapping, |coarse|, V);
    forall a: nat | a < |coarse|
      ensures Degree(coarse, a) == RowSum(|mapping|, Matching(mapping, V), a)
    {
      CoarseDegree(coarse, adj, mapping, a);
      SumEq(|mapping|, (i: nat) => Matching(mapping, V)(a, i),
            (i: nat) => if i < |mapping| && mapping[i] == a then Degree(adj, i) else 0.0);
    }
    SumEq(|coarse|, (a: nat) => Degree(coarse, a), (a: nat) => RowSum(|mapping|, Matching(mapping, V), a));
    SumEq(|adj|, (i: nat) => if i < |mapping| then V(mapping[i], i) else 0.0, (i: nat) => Degree(adj, i));
  }

  lemma DegreesPart(adj: Adj, mapping: seq<nat>, a: nat, b: nat, s: real)
    requires s == Sigma(adj, mapping, b)
    ensures Sum(|mapping|, Part(Degrees(adj), mapping, a, b)) == s * Sigma(adj, mapping, a)
  {
    var f := (i: nat) => if i < |mapping| && mapping[i] == a then Degree(adj, i) else 0.0;
    var g := Part(Degrees(adj), mapping, a, b);
    forall i: nat | i < |mapping|
      ensures g(i) == s * f(i)
    {
      DegreesToCommunity(adj, mapping, i, b);
    }
    SumScale(|mapping|, s, f, g);
  }

  lemma GroupedDegrees(adj: Adj, mapping: seq<nat>, a: nat, b: nat)
    ensures Grouped(Degrees(adj), mapping)(a, b) == Sigma(adj, mapping, a) * Sigma(adj, mapping, b)
  {
    GroupedByRow(Degrees(adj), mapping, a, b);
    DegreesPart(adj, mapping, a, b, Sigma(adj, mapping, b));
  }

  lemma PairSumEq(A: Matrix, B: Matrix, p: seq<nat>)
    requires forall a: nat, b: nat :: a < |p| && b < |p| ==> A(a, b) == B(a, b)
    ensures PairSum(A, p) == PairSum(B, p)
  {
    forall a: nat, b: nat | a < |p| && b < |p|
      ensures Same(p, A)(a, b) == Same(p, B)(a, b)
    {
      SameAt(p, A, a, b);
      SameAt(p, B, a, b);
    }
    Sum2Eq(|p|, |p|, Same(p, A), Same(p, B));
  }

  /** Every partition of the super-nodes has the modularity of its lift to the fine graph. */
  lemma CoarseQuality(coarse: Adj, adj: Adj, mapping: seq<nat>, p: seq<nat>, gamma: real)
    requires ValidAdj(adj) && Represents(coarse, adj, mapping) && TotalWeight(adj) != 0.0 && |p| == |coarse|
    ensures TotalWeight(coarse) == TotalWeight(adj)
    ensures Quality(coarse, p, gamma) == Quality(adj, Lift(mapping, p), gamma)
  {
    CoarseTotal(coarse, adj, mapping);
    CoarseSums(coarse, adj, mapping, p);
  }

  lemma CoarseSums(coarse: Adj, adj: Adj, mapping: seq<nat>, p: seq<nat>)
    requires ValidAdj(adj) && Represents(coarse, adj, mapping) && |p| == |coarse|
    ensures PairSum(Weights(coarse), p) == PairSum(Weights(adj), Lift(mapping, p))
    ensures PairSum(Degrees(coarse), p) == PairSum(Degrees(adj), Lift(mapping, p))
  {
    PairSumEq(Weights(coarse), Grouped(Weights(adj), mapping), p);
    GroupedPairSum(Weights(adj), mapping, p);
    forall a: nat, b: nat | a < |p| && b < |p|
      ensures Degrees(coarse)(a, b) == Grouped(Degrees(adj), mapping)(a, b)
    {
      CoarseDegree(coarse, adj, mapping, a);
      CoarseDegree(coarse, adj, mapping, b);
      GroupedDegrees(adj, mapping, a, b);
    }
    PairSumEq(Degrees(coarse), Grouped(Degrees(adj), mapping), p);
    GroupedPairSum(Degrees(adj), mapping, p);
  }

  // ---------------------------------------------------------------- building it

  /** What the first `n` rows add between super-nodes. */
  ghost function Partial(adj: Adj, mapping: seq<nat>, n: nat, a: nat, b: nat): real {
    Sum(n, (i: nat) => if i < |adj| && i < |mapping| && mapping[i] == a then RowTo(adj[i], mapping, b) else 0.0)
  }

  lemma PartialIsGrouped(adj: Adj, mapping: seq<nat>, a: nat, b: nat)
    requires ValidAdj(adj) && |mapping| == |adj|
    ensures Partial(adj, mapping, |adj|, a, b) == Grouped(Weights(adj), mapping)(a, b)
  {
    GroupedByRow(Weights(adj), mapping, a, b);
    var f := (i: nat) => if i < |adj| && i < |mapping| && mapping[i] == a then RowTo(adj[i], mapping, b) else 0.0;
    forall i: nat | i < |adj|
      ensures f(i) == Part(Weights(adj), mapping, a, b)(i)
    {
      RowToCommunity(adj, mapping, i, b);
    }
    SumEq(|adj|, f, Part(Weights(adj), mapping, a, b));
  }

  ghost predicate TallyValid(m: Tally, count: nat) {
    forall k :: k in m ==> k < count
  }

  /** Each tally has the labels that the first `n` rows of its community list. */
  ghost predicate KeysLinked(adj: Adj, mapping: seq<nat>, n: nat, tallies: seq<Tally>) {
    forall a: nat, b: nat {:trigger b in tallies[a]} :: a < |tallies| ==>
      (b in tallies[a] <==> Linked(adj, mapping, n, a, b))
  }

  lemma KeysNext(adj: Adj, mapping: seq<nat>, x: nat, tallies: seq<Tally>, tally: Tally)
    requires x < |adj| == |mapping| && mapping[x] < |tallies| && KeysLinked(adj, mapping, x, tallies)
    requires forall k: nat :: k in tally <==> k in tallies[mapping[x]] || Lists(adj[x], mapping, k)
    ensures KeysLinked(adj, mapping, x + 1, tallies[mapping[x] := tally])
  {
    var next := tallies[mapping[x] := tally];
    forall a: nat, b: nat | a < |next|
      ensures b in next[a] <==> Linked(adj, mapping, x + 1, a, b)
    {
      assert b in tallies[a] <==> Linked(adj, mapping, x, a, b);
      LinkedNext(adj, mapping, x, a, b);
    }
  }

  /** What the first `n` rows add to the tallies of super-nodes. */
  ghost predicate Tallied(adj: Adj, mapping: seq<nat>, n: nat, tallies: seq<Tally>) {
    && (forall a: nat :: a < |tallies| ==> TallyValid(tallies[a], |tallies|))
    && (NonNegative(adj) ==> forall a: nat :: a < |tallies| ==> TallyNonNegative(tallies[a]))
    && (forall a: nat, b: nat {:trigger At(tallies[a], b)} :: a < |tallies| ==>
          At(tallies[a], b) == Partial(adj, mapping, n, a, b))
  }

  lemma TalliedNext(adj: Adj, mapping: seq<nat>, x: nat, tallies: seq<Tally>, tally: Tally)
    requires ValidAdj(adj) && x < |adj| == |mapping| && Tallied(adj, mapping, x, tallies)
    requires forall i :: 0 <= i < |mapping| ==> mapping[i] < |tallies|
    requires forall k: nat :: At(tally, k) == At(tallies[mapping[x]], k) + RowTo(adj[x], mapping, k)
    requires forall k: nat :: k in tally <==> k in tallies[mapping[x]] || Lists(adj[x], mapping, k)
    requires RowNonNegative(adj[x]) && TallyNonNegative(tallies[mapping[x]]) ==> TallyNonNegative(tally)
    ensures Tallied(adj, mapping, x + 1, tallies[mapping[x] := tally])
  {
    var next := tallies[mapping[x] := tally];
    forall a: nat, b: nat | a < |next|
      ensures At(next[a], b) == Partial(adj, mapping, x + 1, a, b)
    {
      assert At(tallies[a], b) == Partial(adj, mapping, x, a, b);
    }
  }

  /** The rows of super-nodes, as label tallies. */
  method SuperTallies(adj: Adj, mapping: seq<nat>, count: nat) returns (tallies: seq<Tally>)
    requires ValidAdj(adj) && |mapping| == |adj| && forall i :: 0 <= i < |mapping| ==> mapping[i] < count
    ensures |tallies| == count && Tallied(adj, mapping, |adj|, tallies) && KeysLinked(adj, mapping, |adj|, tallies)
  {
    tallies := seq(count, _ => map[]);
    for x := 0 to |adj|
      invariant |tallies| == count && Tallied(adj, mapping, x, tallies) && KeysLinked(adj, mapping, x, tallies)
    {
      var tally := Accumulate(adj[x], mapping, tallies[mapping[x]]);
      TalliedNext(adj, mapping, x, tallies, tally);
      KeysNext(adj, mapping, x, tallies, tally);
      tallies := tallies[mapping[x] := tally];
    }
  }

  lemma RowWeightSnoc(row: Row, j: nat, w: real, k: nat)
    ensures RowWeight(row + [(j, w)], k) == RowWeight(row, k) + if j == k then w else 0.0
  {
    var next := row + [(j, w)];
    assert next[..|next| - 1] == row;
  }

  lemma NamesSnoc(row: Row, j: nat, w: real, k: nat)
    ensures Names(row + [(j, w)], k) <==> Names(row, k) || j == k
  {
    var next := row + [(j, w)];
    if e: nat :| e < |row| && row[e].0 == k {
      assert next[e].0 == k;
    }
    assert next[|row|].0 == j;
  }

  /** The row lists the entries of the tally outside `rest`. */
  ghost predicate Listing(m: Tally, count: nat, rest: set<nat>, row: Row) {
    && RowValid(row, count) && (TallyNonNegative(m) ==> RowNonNegative(row))
    && (forall k: nat :: RowWeight(row, k) == if k in rest then 0.0 else At(m, k))
    && (forall k: nat :: Names(row, k) <==> k in m && k !in rest)
  }

  lemma ListingNext(m: Tally, count: nat, rest: set<nat>, row: Row, k: nat)
    requires TallyValid(m, count) && Listing(m, count, rest, row) && k in rest && k in m
    ensures Listing(m, count, rest - {k}, row + [(k, m[k])])
  {
    forall j: nat
      ensures RowWeight(row + [(k, m[k])], j) == if j in rest - {k} then 0.0 else At(m, j)
      ensures Names(row + [(k, m[k])], j) <==> j in m && j !in rest - {k}
    {
      RowWeightSnoc(row, k, m[k], j);
      NamesSnoc(row, k, m[k], j);
    }
  }

  /** The entries of a tally as a row, in any order. */
  method ListEntries(m: Tally, count: nat) returns (row: Row)
    requires TallyValid(m, count)
    ensures Listing(m, count, {}, row)
  {
    row := [];
    var rest := m.Keys;
    while rest != {}
      invariant rest <= m.Keys && Listing(m, count, rest, row)
      decreases rest
    {
      var k :| k in rest;
      ListingNext(m, count, rest, row, k);
      row := row + [(k, m[k])];
      rest := rest - {k};
    }
  }

  method ListAll(tallies: seq<Tally>) returns (rows: Adj)
    requires forall a: nat :: a < |tallies| ==> TallyValid(tallies[a], |tallies|)
    ensures |rows| == |tallies| && forall a: nat :: a < |rows| ==> Listing(tallies[a], |tallies|, {}, rows[a])
  {
    rows := [];
    for a := 0 to |tallies|
      invariant |rows| == a && forall i: nat :: i < a ==> Listing(tallies[i], |tallies|, {}, rows[i])
    {
      var row := ListEntries(tallies[a], |tallies|);
      rows := rows + [row];
    }
  }

  /** The rows of the tallies are those of the super-graph. */
  lemma RowsRepresent(adj: Adj, mapping: seq<nat>, tallies: seq<Tally>, coarse: Adj)
    requires ValidAdj(adj) && |mapping| == |adj| && forall i :: 0 <= i < |mapping| ==> mapping[i] < |coarse|
    requires |tallies| == |coarse| && Tallied(adj, mapping, |adj|, tallies)
    requires KeysLinked(adj, mapping, |adj|, tallies)
    requires forall a: nat :: a < |coarse| ==> Listing(tallies[a], |coarse|, {}, coarse[a])
    ensures Represents(coarse, adj, mapping)
  {
    forall a: nat, b: nat | a < |coarse| && b < |coarse|
      ensures Weights(coarse)(a, b) == Grouped(Weights(adj), mapping)(a, b)
    {
      assert Listing(tallies[a], |coarse|, {}, coarse[a]);
      assert At(tallies[a], b) == Partial(adj, mapping, |adj|, a, b);
      PartialIsGrouped(adj, mapping, a, b);
    }
    forall a: nat, b: nat | a < |coarse|
      ensures Names(coarse[a], b) <==> Linked(adj, mapping, |adj|, a, b)
    {
      assert Listing(tallies[a], |coarse|, {}, coarse[a]);
      assert b in tallies[a] <==> Linked(adj, mapping, |adj|, a, b);
    }
    CoarseValid(adj, mapping, tallies, coarse);
  }

  lemma CoarseValid(adj: Adj, mapping: seq<nat>, tallies: seq<Tally>, coarse: Adj)
    requires ValidAdj(adj) && |mapping| == |adj| && |tallies| == |coarse|
    requires forall a: nat :: a < |coarse| ==> Listing(tallies[a], |coarse|, {}, coarse[a])
    requires forall a: nat, b: nat :: a < |coarse| && b < |coarse| ==>
               Weights(coarse)(a, b) == Grouped(Weights(adj), mapping)(a, b)
    ensures ValidAdj(coarse)
  {
    forall a: nat, b: nat | a < |coarse| && b < |coarse|
      ensures Weights(coarse)(a, b) == Weights(coarse)(b, a)
    {
      GroupedSymmetric(Weights(adj), mapping, a, b);
    }
    forall i, k | 0 <= i < |coarse| && 0 <= k < |coarse[i]|
      ensures coarse[i][k].0 < |coarse|
    {
      assert Listing(tallies[i], |coarse|, {}, coarse[i]);
    }
  }

  /** The super-graph of a partition: communities numbered by first appearance, weights summed. */
  method Coarsen(adj: Adj, community: seq<nat>) returns (coarse: Adj, mapping: seq<nat>)
    requires ValidAdj(adj) && |community| == |adj|
    ensures Renumbers(community, mapping, |coarse|)
    ensures Represents(coarse, adj, mapping) && (NonNegative(adj) ==> NonNegative(coarse))
    ensures |coarse| <= |adj| && (|adj| > 0 ==> |coarse| > 0)
  {
    var count;
    mapping, count := Renumber(community);
    var tallies := SuperTallies(adj, mapping, count);
    coarse := ListAll(tallies);
    RowsRepresent(adj, mapping, tallies, coarse);
    forall a: nat | a < |coarse| && NonNegative(adj)
      ensures RowNonNegative(coarse[a])
    {
      assert Listing(tallies[a], count, {}, coarse[a]);
    }
  }
}
