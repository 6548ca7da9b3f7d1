/** Finite sums of reals. */
module Sums {
  ghost function Sum(n: nat, f: nat -> real): real {
    if n == 0 then 0.0 else Sum(n - 1, f) + f(n - 1)
  }

  lemma {:induction false} SumEq(n: nat, f: nat -> real, g: nat -> real)
    requires forall i: nat :: i < n ==> f(i) == g(i)
    ensures Sum(n, f) == Sum(n, g)
  {
    if n > 0 {
      SumEq(n - 1, f, g);
    }
  }

  lemma {:induction false} SumZero(n: nat, f: nat -> real)
    requires forall i: nat :: i < n ==> f(i) == 0.0
    ensures Sum(n, f) == 0.0
  {
    if n > 0 {
      SumZero(n - 1, f);
    }
  }

  lemma {:induction false} SumAdd(n: nat, f: nat -> real, g: nat -> real, h: nat -> real)
    requires forall i: nat :: i < n ==> h(i) == f(i) + g(i)
    ensures Sum(n, h) == Sum(n, f) + Sum(n, g)
  {
    if n > 0 {
      SumAdd(n - 1, f, g, h);
    }
  }

  lemma {:induction false} SumScale(n: nat, a: real, f: nat -> real, h: nat -> real)
    requires forall i: nat :: i < n ==> h(i) == a * f(i)
    ensures Sum(n, h) == a * Sum(n, f)
  {
    if n > 0 {
      SumScale(n - 1, a, f, h);
      assert a * (Sum(n - 1, f) + f(n - 1)) == a * Sum(n - 1, f) + a * f(n - 1);
    }
  }

  /** All terms zero but one. */
  lemma {:induction false} SumSingle(n: nat, f: nat -> real, x: nat)
    requires x < n && forall i: nat :: i < n && i != x ==> f(i) == 0.0
    ensures Sum(n, f) == f(x)
  {
    if x < n - 1 {
      SumSingle(n - 1, f, x);
    } else {
      SumZero(n - 1, f);
    }
  }

  lemma {:induction false} SumNonNegative(n: nat, f: nat -> real)
    requires forall i: nat :: i < n ==> f(i) >= 0.0
    ensures Sum(n, f) >= 0.0
    ensures forall i: nat :: i < n ==> Sum(n, f) >= f(i)
  {
    if n > 0 {
      SumNonNegative(n - 1, f);
    }
  }

  /** Changing one term. */
  lemma {:induction false} SumChange(n: nat, f: nat -> real, g: nat -> real, x: nat)
    requires x < n && forall i: nat :: i < n && i != x ==> f(i) == g(i)
    ensures Sum(n, g) == Sum(n, f) - f(x) + g(x)
  {
    if x < n - 1 {
      SumChange(n - 1, f, g, x);
    } else {
      SumEq(n - 1, f, g);
    }
  }

  /** `whole` is a combination of `f` and `h`, term by term. */
  ghost predicate Combines(n: nat, a: real, f: nat -> real, b: real, h: nat -> real, whole: nat -> real) {
    forall w: nat {:trigger whole(w)} :: w < n ==> whole(w) == a * f(w) + b * h(w)
  }

  lemma SumCombination(n: nat, a: real, f: nat -> real, b: real, h: nat -> real, whole: nat -> real)
    requires Combines(n, a, f, b, h, whole)
    ensures Sum(n, whole) == a * Sum(n, f) + b * Sum(n, h)
  {
    var af, bh := (w: nat) => a * f(w), (w: nat) => b * h(w);
    SumScale(n, a, f, af);
    SumScale(n, b, h, bh);
    SumAdd(n, af, bh, whole);
  }

  // ---------------------------------------------------------------- double sums

  type Matrix = (nat, nat) -> real

  ghost function RowSum(n: nat, F: Matrix, i: nat): real {
    Sum(n, (j: nat) => F(i, j))
  }

  ghost function Sum2(m: nat, n: nat, F: Matrix): real {
    Sum(m, (i: nat) => RowSum(n, F, i))
  }

  ghost function Transpose(F: Matrix): Matrix {
    (j: nat, i: nat) => F(i, j)
  }

  lemma RowSumEq(n: nat, F: Matrix, G: Matrix, i: nat)
    requires forall j: nat :: j < n ==> F(i, j) == G(i, j)
    ensures RowSum(n, F, i) == RowSum(n, G, i)
  {
    SumEq(n, (j: nat) => F(i, j), (j: nat) => G(i, j));
  }

  lemma Sum2Eq(m: nat, n: nat, F: Matrix, G: Matrix)
    requires forall i: nat, j: nat :: i < m && j < n ==> F(i, j) == G(i, j)
    ensures Sum2(m, n, F) == Sum2(m, n, G)
  {
    forall i: nat | i < m
      ensures RowSum(n, F, i) == RowSum(n, G, i)
    {
      RowSumEq(n, F, G, i);
    }
    SumEq(m, (i: nat) => RowSum(n, F, i), (i: nat) => RowSum(n, G, i));
  }

  /** Sums commute. */
  lemma {:induction false} SumSwap(m: nat, n: nat, F: Matrix)
    ensures Sum2(m, n, F) == Sum2(n, m, Transpose(F))
  {
    var cols := (j: nat) => RowSum(m, Transpose(F), j);
    if m == 0 {
      SumZero(n, cols);
    } else {
      SumSwap(m - 1, n, F);
      var before := (j: nat) => RowSum(m - 1, Transpose(F), j);
      var last := (j: nat) => F(m - 1, j);
      SumAdd(n, before, last, cols);
    }
  }
}
