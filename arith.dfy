/** Facts about Euclidean division and remainder on unbounded integers, used to
    relate word-level operations to the values they represent. */
module Arith {

  /** A quotient and remainder in range are the quotient and remainder. */
  lemma DivModUnique(a: int, b: int, q: int, r: int)
    requires 0 < b && 0 <= r < b && a == q * b + r
    ensures a / b == q && a % b == r
  {
    var q', r' := a / b, a % b;
    var d := q - q';
    assert d * b == r' - r;
    if d > 0 {
      MulAtLeast(d, b);
    } else if d < 0 {
      MulAtLeast(-d, b);
    }
  }

  lemma MulAtLeast(d: int, b: int)
    requires 1 <= d && 0 < b
    ensures d * b >= b
  {
    assert d * b == (d - 1) * b + b;
    assert (d - 1) * b >= 0;
  }

  /** Adding a multiple of the divisor shifts the quotient and keeps the remainder. */
  lemma AddMultiple(a: int, k: int, b: int)
    requires 0 < b
    ensures (a + k * b) / b == a / b + k && (a + k * b) % b == a % b
  {
    DivModUnique(a + k * b, b, a / b + k, a % b);
  }

  /** Scaling dividend and divisor by the same factor scales the remainder. */
  lemma ScaledDivMod(x: int, q: int, p: int)
    requires 0 < q && 0 < p
    ensures (x * p) / (q * p) == x / q
    ensures (x * p) % (q * p) == (x % q) * p
  {
    var d, m := x / q, x % q;
    assert x == d * q + m;
    assert x * p == d * (q * p) + m * p;
    assert 0 <= m * p < q * p;
    DivModUnique(x * p, q * p, d, m * p);
  }

  /** Dividing by a product is dividing twice. */
  lemma DivDiv(a: int, b: int, c: int)
    requires 0 < b && 0 < c
    ensures a / (b * c) == (a / b) / c
  {
    var q1, r1 := a / b, a % b;
    var q2, r2 := q1 / c, q1 % c;
    assert a == q1 * b + r1;
    assert q1 * b == q2 * (b * c) + r2 * b by {
      assert q1 == q2 * c + r2;
      assert q1 * b == (q2 * c + r2) * b;
    }
    MulMonotone(r2, c - 1, b);
    assert (c - 1) * b == b * c - b;
    DivModUnique(a, b * c, q2, r2 * b + r1);
  }

  lemma MulMonotone(x: int, y: int, b: int)
    requires 0 <= x <= y && 0 <= b
    ensures x * b <= y * b
  {
    assert y * b == x * b + (y - x) * b;
    assert (y - x) * b >= 0;
  }

  /** A remainder modulo a multiple of b determines the remainder modulo b. */
  lemma ModMod(a: int, b: int, c: int)
    requires 0 < b && 0 < c
    ensures (a % (b * c)) % b == a % b
  {
    var q, r := a / (b * c), a % (b * c);
    assert a == q * (b * c) + r;
    assert q * (b * c) == (q * c) * b;
    AddMultiple(r, q * c, b);
  }

  /** Congruent factors give congruent products. */
  lemma MulCongruent(a: int, b: int, x: int, y: int, m: int)
    requires 0 < m && a % m == x % m && b % m == y % m
    ensures (a * b) % m == (x * y) % m
  {
    var k, j := a / m - x / m, b / m - y / m;
    assert a == x + k * m;
    assert b == y + j * m;
    assert a * b == x * y + (x * j + k * y + k * j * m) * m;
    AddMultiple(x * y, x * j + k * y + k * j * m, m);
  }

  /** Congruent summands give congruent sums. */
  lemma AddCongruent(a: int, b: int, x: int, y: int, m: int)
    requires 0 < m && a % m == x % m && b % m == y % m
    ensures (a + b) % m == (x + y) % m
  {
    var k, j := a / m - x / m, b / m - y / m;
    assert a == (a / m) * m + a % m && x == (x / m) * m + x % m;
    assert b == (b / m) * m + b % m && y == (y / m) * m + y % m;
    assert a == x + k * m;
    assert b == y + j * m;
    assert a + b == (x + y) + (k + j) * m;
    AddMultiple(x + y, k + j, m);
  }

  /** Congruent operands give congruent differences. */
  lemma SubCongruent(a: int, b: int, x: int, y: int, m: int)
    requires 0 < m && a % m == x % m && b % m == y % m
    ensures (a - b) % m == (x - y) % m
  {
    var k, j := a / m - x / m, b / m - y / m;
    assert a == (a / m) * m + a % m && x == (x / m) * m + x % m;
    assert b == (b / m) * m + b % m && y == (y / m) * m + y % m;
    assert a == x + k * m;
    assert b == y + j * m;
    assert a - b == (x - y) + (k - j) * m;
    AddMultiple(x - y, k - j, m);
  }

  /** Integer division by a positive number does not increase a natural number. */
  lemma DivLe(a: int, b: int)
    requires 0 <= a && 1 <= b
    ensures 0 <= a / b <= a
  {
    var q := a / b;
    assert a == q * b + a % b;
    assert q >= 0;
    MulMonotone(1, b, q);
  }

  /** Splitting off the lowest bit: remainder and quotient by 2p through a halving. */
  lemma HalveDivMod(a: int, p: int)
    requires 0 < p
    ensures a % (2 * p) == a % 2 + 2 * ((a / 2) % p)
    ensures a / (2 * p) == (a / 2) / p
  {
    var h := a / 2;
    assert a == 2 * h + a % 2;
    assert h == (h / p) * p + h % p;
    assert a == (h / p) * (2 * p) + (a % 2 + 2 * (h % p));
    DivModUnique(a, 2 * p, h / p, a % 2 + 2 * (h % p));
  }

  /** x < p * q implies x / q < p. */
  lemma QuotientBound(x: int, p: int, q: int)
    requires 0 <= x < p * q && 1 <= p && 1 <= q
    ensures 0 <= x / q < p
  {
    DivLe(x, q);
    var d := x / q;
    assert x == d * q + x % q;
    assert (p - d) * q == p * q - d * q;
    PositiveFactor(p - d, q);
  }

  /** A product with a positive factor is positive only if the other factor is. */
  lemma PositiveFactor(a: int, q: int)
    requires q > 0 && a * q > 0
    ensures a > 0
  {
  }

  /** A digit below q, scaled by p, stays below p * q. */
  lemma ScaledDigitBound(d: int, p: int, q: int)
    requires 0 <= d < q && 1 <= p
    ensures 0 <= d * p <= p * q - p
  {
    MulMonotone(0, d, p);
    MulMonotone(d, q - 1, p);
  }
}
