/** The few facts about products, quotients and remainders that the proofs need. */
module Arithmetic {

  lemma MulMonotone(k: nat, a: int, b: int)
    requires a <= b
    ensures k * a <= k * b
  {
  }

  lemma MulAssociative(a: int, b: int, c: int)
    ensures a * b * c == a * (b * c)
  {
  }

  lemma MulLess(k: int, a: int, b: int)
    requires k > 0
    ensures k * a < k * b <==> a < b
  {
  }

  /** Quotient and remainder are the only pair that fits. */
  lemma DivModUnique(x: int, d: int, q: int, r: int)
    requires d > 0 && 0 <= r < d && x == d * q + r
    ensures x / d == q && x % d == r
  {
    var q', r' := x / d, x % d;
    assert x == d * q' + r' && 0 <= r' < d;
    assert d * (q - q') == r' - r;
    MulLess(d, q - q', 1);
    MulLess(d, -1, q - q');
  }

  lemma DivMod(x: int, d: int)
    requires d > 0
    ensures x == d * (x / d) + x % d && 0 <= x % d < d
  {
  }

  /** Adding a multiple of the modulus does not change the remainder. */
  lemma ModAddMultiple(x: int, k: int, m: int)
    requires m > 0
    ensures (x + k * m) % m == x % m
  {
    DivMod(x, m);
    assert x + k * m == m * (x / m + k) + x % m;
    DivModUnique(x + k * m, m, x / m + k, x % m);
  }

  /** Numbers that differ by a multiple of the modulus have the same remainder. */
  lemma ModEqual(x: int, y: int, k: int, m: int)
    requires m > 0 && x == y + k * m
    ensures x % m == y % m
  {
    ModAddMultiple(y, k, m);
  }

  /** Equal remainders of numbers less than a modulus apart mean equal numbers. */
  lemma ModInjective(x: int, y: int, m: int)
    requires m > 0 && x % m == y % m && -m < x - y < m
    ensures x == y
  {
    DivMod(x, m);
    DivMod(y, m);
    assert x - y == m * (x / m - y / m);
    MulLess(m, x / m - y / m, 1);
    MulLess(m, -1, x / m - y / m);
  }

  lemma DivBounds(x: nat, d: nat)
    requires d > 0
    ensures 0 <= x / d <= x
    ensures d >= 2 ==> x / d * 2 <= x
  {
    DivMod(x, d);
    if d >= 2 {
      MulMonotone(x / d, 2, d);
    } else {
      MulMonotone(x / d, 1, d);
    }
  }

  /** Dividing twice is dividing by the product. */
  lemma DivDiv(x: nat, a: nat, b: nat)
    requires a > 0 && b > 0
    ensures a * b > 0 && x / a / b == x / (a * b)
  {
    DivMod(x, a);
    DivMod(x / a, b);
    var q, r := x / a / b, (x / a % b) * a + x % a;
    assert x == a * (b * q + x / a % b) + x % a;
    assert x == (a * b) * q + r;
    MulMonotone(a, x / a % b, b - 1);
    assert 0 <= r < a * b;
    DivModUnique(x, a * b, q, r);
  }
}
