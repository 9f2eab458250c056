/** The shifts of int128.h for shift counts 1 to 127 (0 and 128 or more shift a
    64-bit word by 64 or more, which C leaves undefined). The left shift and the
    unsigned right shift move bits across the word boundary; the signed right
    shift is the unsigned one when `int128_greater(lhs, INT128_C(0))` holds and
    fills the vacated bits with ones otherwise. */
module Int128Shift {
  import opened Arith
  import opened Words
  import opened Int128Repr
  import opened Int128Compare

  // ---------------------------------------------------------------------
  // Word-level arithmetic of the two-word shifts

  /** 2^n * 2^(64-n) == 2^64. */
  lemma Pow2Split(n: nat)
    requires n <= 64
    ensures Pow2(n) * Pow2(64 - n) == W64
  {
    Pow2Add(n, 64 - n);
    Pow2Values();
  }

  /** The left shift by n < 64, with p == 2^n and q == 2^(64-n). */
  lemma ShlWords(h: u64, l: u64, b: int, p: int, q: int)
    requires b == h * W64 + l
    requires 1 <= p && 1 <= q && p * q == W64
    ensures (h * p) % W64 == (h % q) * p && (l * p) % W64 == (l % q) * p
    ensures ((h % q) * p) % p == 0 && 0 <= l / q < p
    ensures 0 <= (h % q) * p && (h % q) * p + l / q < W64 && p <= W64
    ensures (b * p) % W128 == ((h % q) * p + l / q) * W64 + (l % q) * p
  {
    var hq, hr, lq, lr := h / q, h % q, l / q, l % q;
    assert q * p == W64;
    MulMonotone(1, q, p);
    ScaledDivMod(h, q, p);
    ScaledDivMod(l, q, p);
    AddMultiple(0, hr, p);
    QuotientBound(l, p, q);
    ScaledDigitBound(hr, p, q);
    ScaledDigitBound(lr, p, q);
    assert h * p == hq * W64 + hr * p by {
      assert h == hq * q + hr;
      assert h * p == hq * (q * p) + hr * p;
    }
    assert l * p == lq * W64 + lr * p by {
      assert l == lq * q + lr;
      assert l * p == lq * (q * p) + lr * p;
    }
    var rest := (hr * p + lq) * W64 + lr * p;
    assert b * p == hq * W128 + rest by {
      assert b * p == (h * p) * W64 + l * p;
    }
    DivModUnique(b * p, W128, hq, rest);
  }

  /** The left shift by 64 + m, with p == 2^m. */
  lemma ShlHigh(h: u64, l: u64, b: int, p: int)
    requires b == h * W64 + l && 1 <= p
    ensures (b * (W64 * p)) % W128 == ((l * p) % W64) * W64
  {
    assert b * (W64 * p) == (l * p) * W64 + (h * p) * W128;
    AddMultiple((l * p) * W64, h * p, W128);
    ScaledDivMod(l * p, W64, W64);
  }

  /** The right shift by n < 64, with p == 2^n and q == 2^(64-n). */
  lemma ShrWords(h: u64, l: u64, b: int, p: int, q: int)
    requires b == h * W64 + l
    requires 1 <= p && 1 <= q && p * q == W64
    ensures (h * q) % W64 == (h % p) * q && ((h % p) * q) % q == 0 && 0 <= l / p < q && 0 <= h / p < q
    ensures 0 <= (h % p) * q && (h % p) * q + l / p < W64 && q <= W64
    ensures b / p == (h / p) * W64 + (h % p) * q + l / p
  {
    ShrWordsRange(h, l, p, q);
    ShrWordsValue(h, l, b, p, q);
  }

  lemma ShrWordsRange(h: u64, l: u64, p: int, q: int)
    requires 1 <= p && 1 <= q && p * q == W64
    ensures (h * q) % W64 == (h % p) * q && ((h % p) * q) % q == 0 && 0 <= l / p < q && 0 <= h / p < q
    ensures 0 <= (h % p) * q && (h % p) * q + l / p < W64 && q <= W64
  {
    MulMonotone(1, p, q);
    ScaledDivMod(h, p, q);
    AddMultiple(0, h % p, q);
    QuotientBound(l, q, p);
    QuotientBound(h, q, p);
    ScaledDigitBound(h % p, q, p);
  }

  lemma ShrWordsValue(h: u64, l: u64, b: int, p: int, q: int)
    requires b == h * W64 + l
    requires 1 <= p && 1 <= q && p * q == W64
    ensures b / p == (h / p) * W64 + (h % p) * q + l / p
  {
    var hp, hr, lp, lr := h / p, h % p, l / p, l % p;
    assert b == (hp * W64 + hr * q + lp) * p + lr by {
      assert h == hp * p + hr;
      assert l == lp * p + lr;
      assert h * W64 == (hp * W64) * p + (hr * q) * p;
    }
    DivModUnique(b, p, hp * W64 + hr * q + lp, lr);
  }

  /** The right shift by 64 + m, with p == 2^m. */
  lemma ShrHigh(h: u64, l: u64, b: int, p: int)
    requires b == h * W64 + l && 1 <= p
    ensures b / (W64 * p) == h / p
  {
    DivModUnique(b, W64, h, l);
    DivDiv(b, W64, p);
  }

  /** `~0 << (64 - n)` sets the n top bits, and OR with a value below 2^(64-n) adds them. */
  lemma FillOnes(a: u64, n: int)
    requires 1 <= n <= 63 && a < Pow2(64 - n)
    ensures Shl64(W64 - 1, 64 - n) == W64 - Pow2(64 - n)
    ensures Or64(a, Shl64(W64 - 1, 64 - n)) == a + W64 - Pow2(64 - n)
  {
    Pow2Split(n);
    FillArith(Pow2(64 - n), Pow2(n));
    Or64Disjoint(W64 - Pow2(64 - n), a, 64 - n);
  }

  /** The arithmetic of `~0 << k` with p == 2^k and q == 2^(64-k). */
  lemma FillArith(p: int, q: int)
    requires 1 <= p && 1 <= q && q * p == W64
    ensures ((W64 - 1) * p) % W64 == W64 - p && (W64 - p) % p == 0
  {
    assert W64 - 1 == (p - 1) * q + (q - 1);
    DivModUnique(W64 - 1, q, p - 1, q - 1);
    ScaledDivMod(W64 - 1, q, p);
    assert (q - 1) * p == W64 - p;
    AddMultiple(0, q - 1, p);
  }

  // ---------------------------------------------------------------------
  // The shifts

  lemma ShlValueHigh(x: Int128, n: int)
    requires 64 <= n <= 127
    ensures Shl64(x.low, n - 64) * W64 == (Bits(x) * Pow2(n)) % W128
  {
    var h, l := x.high, x.low;
    assert Bits(x) == h * W64 + l;
    Pow2Add(64, n - 64);
    Pow2Values();
    ShlHigh(h, l, Bits(x), Pow2(n - 64));
  }

  lemma ShlValueLow(x: Int128, n: int)
    requires 1 <= n < 64
    ensures Or64(Shl64(x.high, n), Shr64(x.low, 64 - n)) * W64 + Shl64(x.low, n) == (Bits(x) * Pow2(n)) % W128
  {
    var h, l := x.high, x.low;
    var p, q := Pow2(n), Pow2(64 - n);
    ShlLowWords(h, l, Bits(x), n, p, q);
    Or64Disjoint((h % q) * p, l / q, n);
  }

  /** The words of the left shift by n < 64, as the C operators compute them. */
  lemma ShlLowWords(h: u64, l: u64, b: int, n: int, p: int, q: int)
    requires 1 <= n < 64 && p == Pow2(n) && q == Pow2(64 - n) && b == h * W64 + l
    ensures 0 <= (h % q) * p < W64 && ((h % q) * p) % p == 0 && 0 <= l / q < p && p <= W64
    ensures Shl64(h, n) == (h % q) * p && Shr64(l, 64 - n) == l / q && Shl64(l, n) == (l % q) * p
    ensures (b * p) % W128 == ((h % q) * p + l / q) * W64 + (l % q) * p
  {
    Pow2Split(n);
    ShlWords(h, l, b, p, q);
  }

  /** `int128_shiftl`. */
  function Int128Shl(lhs: Int128, rhs: int): (r: Int128)
    requires 1 <= rhs <= 127
    ensures Bits(r) == (Bits(lhs) * Pow2(rhs)) % W128
  {
    if rhs >= 64 then
      ShlValueHigh(lhs, rhs);
      Int128(0, Shl64(lhs.low, rhs - 64))
    else
      ShlValueLow(lhs, rhs);
      Int128(Shl64(lhs.low, rhs), Or64(Shl64(lhs.high, rhs), Shr64(lhs.low, 64 - rhs)))
  }

  /** On signed values the left shift is multiplication by 2^n, wrapped to 128 bits. */
  lemma ShlSigned(x: Int128, n: int)
    requires 1 <= n <= 127
    ensures S(Int128Shl(x, n)) == WrapSigned(W128, S(x) * Pow2(n))
  {
    DivModUnique(Bits(x), W128, 0, Bits(x));
    MulCongruent(S(x), Pow2(n), Bits(x), Pow2(n), W128);
    SOfBits(Int128Shl(x, n), S(x) * Pow2(n));
  }

  /** `uint128_shiftl`: the shift of `int128_shiftl` on the same bits. */
  function UInt128Shl(lhs: UInt128, rhs: int): (r: UInt128)
    requires 1 <= rhs <= 127
    ensures U(r) == (U(lhs) * Pow2(rhs)) % W128
  {
    AsUnsigned(Int128Shl(AsSigned(lhs), rhs))
  }

  lemma ShrValueHigh(x: UInt128, n: int)
    requires 64 <= n <= 127
    ensures Shr64(x.high, n - 64) == U(x) / Pow2(n)
  {
    var h, l := x.high, x.low;
    assert U(x) == h * W64 + l;
    Pow2Add(64, n - 64);
    Pow2Values();
    ShrHigh(h, l, U(x), Pow2(n - 64));
  }

  lemma ShrValueLow(x: UInt128, n: int)
    requires 1 <= n < 64
    ensures Shr64(x.high, n) * W64 + Or64(Shr64(x.low, n), Shl64(x.high, 64 - n)) == U(x) / Pow2(n)
  {
    var h, l := x.high, x.low;
    assert U(x) == h * W64 + l;
    var p, q := Pow2(n), Pow2(64 - n);
    Pow2Split(n);
    ShrWords(h, l, U(x), p, q);
    Or64Disjoint((h % p) * q, l / p, 64 - n);
  }

  /** `uint128_shiftr`: the logical right shift. */
  function UInt128Shr(lhs: UInt128, rhs: int): (r: UInt128)
    requires 1 <= rhs <= 127
    ensures U(r) == U(lhs) / Pow2(rhs)
  {
    if rhs >= 64 then
      ShrValueHigh(lhs, rhs);
      UInt128(Shr64(lhs.high, rhs - 64), 0)
    else
      ShrValueLow(lhs, rhs);
      UInt128(Or64(Shr64(lhs.low, rhs), Shl64(lhs.high, 64 - rhs)), Shr64(lhs.high, rhs))
  }

  /** The branch of `int128_shiftr` taken when lhs does not test greater than zero:
      the logical shift with the top rhs bits set. */
  function ShrFill(lhs: Int128, rhs: int): (r: Int128)
    requires 1 <= rhs <= 127
    ensures Bits(r) == Bits(lhs) / Pow2(rhs) + (W128 - Pow2(128 - rhs))
  {
    var h, l := lhs.high, lhs.low;
    if rhs > 64 then
      ShrValueHigh(AsUnsigned(lhs), rhs);
      FillValueHigh(h, rhs);
      Int128(Or64(Shr64(h, rhs - 64), Shl64(W64 - 1, 64 - (rhs - 64))), W64 - 1)
    else if rhs == 64 then
      ShrValueHigh(AsUnsigned(lhs), rhs);
      Pow2Values();
      Int128(h, W64 - 1)
    else
      ShrValueLow(AsUnsigned(lhs), rhs);
      FillValueLow(h, rhs);
      Int128(Or64(Shr64(l, rhs), Shl64(h, 64 - rhs)), Or64(Shr64(h, rhs), Shl64(W64 - 1, 64 - rhs)))
  }

  /** The low word of the fill branch for shifts beyond 64. */
  lemma FillValueHigh(h: u64, n: int)
    requires 64 < n <= 127
    ensures Or64(Shr64(h, n - 64), Shl64(W64 - 1, 64 - (n - 64)))
         == Shr64(h, n - 64) + W64 - Pow2(128 - n)
  {
    var m := n - 64;
    Pow2Split(m);
    QuotientBound(h, Pow2(64 - m), Pow2(m));
    assert 64 - m == 128 - n;
    FillOnes(Shr64(h, m), m);
  }

  /** The high word of the fill branch for shifts below 64. */
  lemma FillValueLow(h: u64, n: int)
    requires 1 <= n < 64
    ensures Or64(Shr64(h, n), Shl64(W64 - 1, 64 - n)) * W64
         == Shr64(h, n) * W64 + W128 - Pow2(128 - n)
  {
    Pow2Split(n);
    QuotientBound(h, Pow2(64 - n), Pow2(n));
    FillOnes(Shr64(h, n), n);
    Pow2Add(128 - n - 64, 64);
    Pow2Values();
    assert Pow2(128 - n) == Pow2(64 - n) * W64;
  }

  /** `int128_shiftr`. */
  function Int128Shr(lhs: Int128, rhs: int): (r: Int128)
    requires 1 <= rhs <= 127
    ensures Int128Greater(lhs, Int128C(0)) ==> Bits(r) == Bits(lhs) / Pow2(rhs)
    ensures !Int128Greater(lhs, Int128C(0)) ==> Bits(r) == Bits(lhs) / Pow2(rhs) + (W128 - Pow2(128 - rhs))
  {
    if Int128Greater(lhs, Int128C(0)) then AsSigned(UInt128Shr(AsUnsigned(lhs), rhs)) else ShrFill(lhs, rhs)
  }

  /** On a negative value, and on a value that tests greater than zero, the signed
      right shift is division by 2^n rounded toward minus infinity. */
  lemma ShrSigned(x: Int128, n: int)
    requires 1 <= n <= 127
    requires x.high >= W63 || Int128Greater(x, Int128C(0))
    ensures S(Int128Shr(x, n)) == S(x) / Pow2(n)
    ensures x.high >= W63 ==> S(Int128Shr(x, n)) < 0
  {
    SignTests(x);
    if x.high >= W63 {
      ShrNegative(x, n);
    } else {
      var r, b, p := Int128Shr(x, n), Bits(x), Pow2(n);
      DivLe(b, p);
      assert Bits(r) == b / p;
      SameQuotient(S(x), b, p);
    }
  }

  lemma ShrNegative(x: Int128, n: int)
    requires 1 <= n <= 127 && x.high >= W63
    ensures S(Int128Shr(x, n)) == S(x) / Pow2(n) < 0
  {
    SignTests(x);
    var r, b, p, q := Int128Shr(x, n), Bits(x), Pow2(n), Pow2(128 - n);
    assert Bits(r) == b / p + (W128 - q);
    Pow2Add(128 - n, n);
    Pow2Monotone(128 - n, 128);
    Pow2Values();
    NegativeShrArith(S(x), b, p, q);
  }

  lemma SameQuotient(a: int, b: int, p: int)
    requires a == b && p != 0
    ensures a / p == b / p
  {
  }

  /** Shifting the bits b of a negative value s and filling with ones: p == 2^n, q == 2^(128-n). */
  lemma NegativeShrArith(s: int, b: int, p: int, q: int)
    requires 1 <= p && 1 <= q && q * p == W128 && 2 * q <= W128 && W127 <= b < W128 && s == b - W128
    ensures s / p == b / p - q
    ensures W127 <= b / p + (W128 - q) < W128
  {
    assert s == b + (-q) * p;
    AddMultiple(b, -q, p);
    DivLe(b, p);
    QuotientBound(b, q, p);
  }

  /** The examples of test.c: 2^63 shifted left by one reaches `high`. */
  lemma ShlExample(x: Int128)
    requires x == Int128C(W63)
    ensures Int128Shl(x, 1).high == 1
  {
    var a := Int128Shl(x, 1);
    assert Pow2(1) == 2;
    DoubledWords(Bits(x), a);
  }

  lemma DoubledWords(b: int, a: Int128)
    requires b == W63 && Bits(a) == (b * 2) % W128
    ensures a.high == 1
  {
    DivModUnique(W64, W128, 0, W64);
    BitsWords(a);
  }

  /** `{ .high = 1 }` shifted right by one reaches the top of `low`. */
  lemma ShrExample(y: Int128)
    requires y == Int128(0, 1)
    ensures Int128Shr(y, 1).low == W63
  {
    Pow2Values();
    var b := Int128Shr(y, 1);
    BitsWords(b);
  }

  /** A shift of a negative value by exactly 64 moves `high` into `low` and fills `high` with ones. */
  lemma ShrBy64Negative(x: Int128, n: int)
    requires n == 64 && x.high >= W63
    ensures Int128Shr(x, n) == Int128(x.high, W64 - 1)
  {
    SignTests(x);
  }

  /** Zero does not test greater than zero, so shifting it right fills the top bit. */
  lemma ShrZeroQuirk(z: Int128)
    requires z == Int128C(0)
    ensures Int128Shr(z, 1) == Int128(0, W63)
  {
    Pow2Values();
    var r := Int128Shr(z, 1);
    assert Bits(r) == W128 - W127;
    BitsWords(r);
  }
}
