/** The few facts about products, quotients and remainders that the number-theoretic parts share. */
module Arithmetic {
  lemma MulMonotone(a: int, b: int, c: nat)
    requires a <= b
    ensures a * c <= b * c
  {
    assert (b - a) * c >= 0;
    assert b * c - a * c == (b - a) * c;
  }

  lemma QuotientIs(n: nat, d: nat, q: nat, r: nat)
    requires d > 0 && n == q * d + r && r < d
    ensures n / d == q && n % d == r
  {
    var q', r' := n / d, n % d;
    assert n == d * q' + r';
    assert (q - q') * d == r' - r && (q' - q) * d == r - r';
    if q > q' { MulMonotone(1, q - q', d); }
    if q < q' { MulMonotone(1, q' - q, d); }
  }

  lemma MulAssociates(a: int, b: int, c: int)
    ensures (a * b) * c == a * (b * c)
  {
  }
}
