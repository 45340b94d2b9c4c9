/** The few facts about products and quotients that need saying. */
module Products {

  lemma MulGrows(a: int, b: int, c: nat)
    requires a <= b
    ensures a * c <= b * c
  {
    assert (b - a) * c >= 0;
  }

  lemma FarMultiple(b: int, d: int)
    requires b > 0 && d != 0
    ensures b * d >= b || b * d <= -b
  {
    if d > 0 { MulGrows(1, d, b); } else { MulGrows(d, -1, b); }
  }

  lemma NearMultiple(b: int, d: int)
    requires b > 0 && -b < b * d < b
    ensures d == 0
  {
    if d != 0 { FarMultiple(b, d); }
  }

  /** The quotient is the one number with a remainder in range. */
  lemma QuotientIs(b: nat, q: int, r: nat)
    requires r < b
    ensures (b * q + r) / b == q
  {
    var n := b * q + r;
    assert b * (n / b - q) == r - n % b;
    NearMultiple(b, n / b - q);
  }

  lemma QuotientGrows(a: nat, b: nat, p: nat)
    requires a <= b && p > 0
    ensures a / p <= b / p
  {
    if b / p < a / p {
      MulGrows(b / p + 1, a / p, p);
    }
  }

  lemma QuotientByMore(n: nat, p: nat, q: nat)
    requires 0 < p <= q
    ensures n / q <= n / p
  {
    var k := n / q;
    MultipleBelow(n, q);
    MulGrows(p, q, k);
    QuotientGrows(p * k, n, p);
    QuotientIs(p, k, 0);
  }

  lemma MultipleBelow(n: nat, q: nat)
    requires q > 0
    ensures q * (n / q) <= n && n / q >= 0
  {
  }

  lemma RealMul(x: real, y: real, b: real)
    requires b >= 0.0 && x <= y
    ensures x * b <= y * b
  {
    assert (y - x) * b >= 0.0;
  }

  lemma RealCancel(x: real, y: real, b: real)
    requires b > 0.0 && x * b < y * b
    ensures x < y
  {
    assert (y - x) * b > 0.0;
  }

  lemma ProductBound(x: real, y: real, a: real, b: real)
    requires 0.0 <= x <= a && 0.0 <= y <= b
    ensures x * y <= a * b
  {
    RealMul(x, a, y);
    RealMul(y, b, a);
  }
}
