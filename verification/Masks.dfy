/** Powers of two, and masking as taking remainders. */
module Masks {
  import opened Division

  function Pow2(k: nat): (p: nat)
    ensures p > 0
  {
    if k == 0 then 1 else 2 * Pow2(k - 1)
  }

  ghost predicate IsPower(p: nat) {
    exists k: nat :: p == Pow2(k)
  }

  /** Bitwise conjunction. */
  function And(x: nat, y: nat): nat {
    if x == 0 || y == 0 then 0
    else 2 * And(x / 2, y / 2) + if x % 2 == 1 && y % 2 == 1 then 1 else 0
  }

  /** The last bit of a remainder by twice `p`, and its other bits. */
  lemma HalveRemainder(x: nat, p: nat, m: nat)
    requires p > 0 && m == 2 * p
    ensures x % m == 2 * (x / 2 % p) + x % 2
  {
    var q, r := x / 2 / p, x / 2 % p;
    assert x / 2 == q * p + r;
    assert q * m == 2 * (q * p);
    DivisionUnique(x, m, q, 2 * r + x % 2);
  }

  /** Masking with a power of two less one is the remainder by it. */
  lemma {:induction false} MaskIsRemainder(x: nat, k: nat)
    ensures And(x, Pow2(k) - 1) == x % Pow2(k)
  {
    if k > 0 {
      var p := Pow2(k - 1);
      MaskIsRemainder(x / 2, k - 1);
      HalveRemainder(x, p, Pow2(k));
      AndOdd(x, Pow2(k) - 1, p - 1);
    }
  }

  /** The last bit of an odd mask keeps the last bit. */
  lemma AndOdd(x: nat, y: nat, h: nat)
    requires y == 2 * h + 1
    ensures And(x, y) == 2 * And(x / 2, h) + x % 2
  {
    assert y / 2 == h && y % 2 == 1;
  }

  /** Adding one after taking a remainder. */
  lemma RemainderNext(h: nat, m: nat)
    requires m > 0
    ensures (h % m + 1) % m == (h + 1) % m
  {
    var q, r := h / m, h % m;
    assert h == q * m + r;
    if r + 1 < m {
      DivisionUnique(h + 1, m, q, r + 1);
      DivisionUnique(r + 1, m, 0, r + 1);
    } else {
      DivisionUnique(h + 1, m, q + 1, 0);
      DivisionUnique(r + 1, m, 1, 0);
    }
  }

  lemma {:induction false} PowersRise(i: nat, j: nat)
    requires i <= j
    ensures Pow2(i) <= Pow2(j)
  {
    if i < j {
      PowersRise(i, j - 1);
    }
  }

  lemma {:induction false} PowersMultiply(i: nat, j: nat)
    ensures Pow2(i + j) == Pow2(i) * Pow2(j)
  {
    if i > 0 {
      PowersMultiply(i - 1, j);
    }
  }

  lemma NextPower(r: nat, q: nat)
    requires IsPower(r) && IsPower(q) && q > r
    ensures q >= 2 * r && IsPower(2 * r)
  {
    var i: nat :| r == Pow2(i);
    var j: nat :| q == Pow2(j);
    assert 2 * r == Pow2(i + 1);
    if j <= i {
      PowersRise(j, i);
    } else {
      PowersRise(i + 1, j);
    }
  }

  /** Doubles `r` until it is at least `x`. */
  function GrowTo(r: nat, x: nat): (p: nat)
    requires r > 0
    ensures p >= x && p >= r
    decreases x - r
  {
    if r >= x then r else GrowTo(2 * r, x)
  }

  /** From a power of two, doubling finds the smallest power of two that is large enough. */
  lemma {:induction false} GrowToLeast(r: nat, x: nat)
    requires IsPower(r) && r > 0
    ensures IsPower(GrowTo(r, x))
    ensures forall q: nat :: IsPower(q) && q >= r && q >= x ==> GrowTo(r, x) <= q
    decreases x - r
  {
    if r < x {
      var i: nat :| r == Pow2(i);
      assert 2 * r == Pow2(i + 1);
      GrowToLeast(2 * r, x);
      forall q: nat | IsPower(q) && q >= r && q >= x
        ensures GrowTo(r, x) <= q
      {
        NextPower(r, q);
      }
    }
  }
}
