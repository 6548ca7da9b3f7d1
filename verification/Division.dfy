/** Division with remainder is unique. */
module Division {
  lemma DivisionUnique(a: int, b: int, q: int, r: int)
    requires b > 0 && a == q * b + r && 0 <= r < b
    ensures a / b == q && a % b == r
  {
    var k := a / b - q;
    assert k * b == r - a % b;
    assert k >= 1 ==> k * b >= b;
    assert k <= -1 ==> k * b + b <= 0;
  }
}
