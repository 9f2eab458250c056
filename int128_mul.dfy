/** Multiplication in int128.h. A 64 x 64 multiply is assembled from four
    products of 32-bit halves and is exact; the 128 x 128 multiplies keep the
    low 128 bits of the product. */
module Int128Mul {
  import opened Arith
  import opened Words
  import opened Int128Repr
  import opened Int128Compare
  import opened Int128AddSub

  // ---------------------------------------------------------------------
  // Word-level facts used by the 64 x 64 multiply

  /** `x & UINT32_MAX` and `x >> 32` are the low and high 32-bit halves of x. */
  lemma Halves(x: u64)
    ensures And64(x, W32 - 1) == x % W32 && Shr64(x, 32) == x / W32
    ensures x == (x / W32) * W32 + x % W32 && x / W32 < W32
  {
    AndLow32(x);
    Pow2Values();
  }

  /** A product of two 32-bit halves fits in a word, so `*` on uint64_t is exact. */
  lemma HalfProduct(a: u64, b: u64)
    requires a < W32 && b < W32
    ensures a * b <= (W32 - 1) * (W32 - 1) && Mul64(a, b) == a * b
  {
    MulMonotone(0, a, b);
    MulMonotone(a, W32 - 1, b);
    MulMonotone(b, W32 - 1, W32 - 1);
    DivModUnique(a * b, W64, 0, a * b);
  }

  /** `(a + b) + c` on uint64_t. */
  lemma Add3(a: u64, b: u64, c: u64)
    ensures Add64(Add64(a, b), c) == (a + b + c) % W64
  {
    AddCongruent(Add64(a, b), c, a + b, c, W64);
  }

  /** `((a + b) + c) + d` on uint64_t. */
  lemma Add4(a: u64, b: u64, c: u64, d: u64)
    ensures Add64(Add64(Add64(a, b), c), d) == (a + b + c + d) % W64
  {
    Add3(a, b, c);
    AddCongruent(Add64(Add64(a, b), c), d, a + b + c, d, W64);
  }

  /** `x << 32` on uint64_t keeps the low half, moved up. */
  lemma ShiftUp32(x: u64)
    ensures Shl64(x, 32) == (x % W32) * W32
  {
    Pow2Values();
    ScaledDivMod(x, W32, W32);
  }

  /** The carry of `uint128_mul64`: the three 32-bit pieces of the middle column
      sum to less than 2^64, and the shift keeps their carry into the high word. */
  lemma CarryOf(loLo: u64, loHi: u64, hiLo: u64)
    ensures Shr64(Add64(Add64(Shr64(loLo, 32), And64(loHi, W32 - 1)), And64(hiLo, W32 - 1)), 32)
         == (loLo / W32 + loHi % W32 + hiLo % W32) / W32
  {
    Halves(loLo);
    Halves(loHi);
    Halves(hiLo);
    var a, b, c := Shr64(loLo, 32), And64(loHi, W32 - 1), And64(hiLo, W32 - 1);
    var sum := Add64(Add64(a, b), c);
    Add3(a, b, c);
    DivModUnique(a + b + c, W64, 0, a + b + c);
    assert sum == a + b + c;
    Pow2Values();
    assert Shr64(sum, 32) == sum / W32;
  }

  /** The low word of `uint128_mul64`. */
  lemma LowOf(loLo: u64, loHi: u64, hiLo: u64)
    ensures Add64(Add64(loLo, Shl64(loHi, 32)), Shl64(hiLo, 32)) == (loLo + (loHi % W32) * W32 + (hiLo % W32) * W32) % W64
  {
    ShiftUp32(loHi);
    ShiftUp32(hiLo);
    LowSum(loLo, loHi, hiLo, Shl64(loHi, 32), Shl64(hiLo, 32));
  }

  lemma LowSum(loLo: u64, loHi: u64, hiLo: u64, a: u64, b: u64)
    requires a == (loHi % W32) * W32 && b == (hiLo % W32) * W32
    ensures Add64(Add64(loLo, a), b) == (loLo + (loHi % W32) * W32 + (hiLo % W32) * W32) % W64
  {
    Add3(loLo, a, b);
  }

  /** The high word of `uint128_mul64`. */
  lemma HighOf(hiHi: u64, loHi: u64, hiLo: u64, carry: u64)
    ensures Add64(Add64(Add64(hiHi, Shr64(loHi, 32)), Shr64(hiLo, 32)), carry) == (hiHi + loHi / W32 + hiLo / W32 + carry) % W64
  {
    Halves(loHi);
    Halves(hiLo);
    HighSum(hiHi, loHi, hiLo, carry, Shr64(loHi, 32), Shr64(hiLo, 32));
  }

  lemma HighSum(hiHi: u64, loHi: u64, hiLo: u64, carry: u64, a: u64, b: u64)
    requires a == loHi / W32 && b == hiLo / W32
    ensures Add64(Add64(Add64(hiHi, a), b), carry) == (hiHi + loHi / W32 + hiLo / W32 + carry) % W64
  {
    Add4(hiHi, a, b, carry);
  }

  /** The product of two 2-digit numbers in base p. */
  lemma MulExpand(a1: int, a0: int, b1: int, b0: int, p: int)
    ensures (a1 * p + a0) * (b1 * p + b0) == (a1 * b1) * (p * p) + (a1 * b0 + a0 * b1) * p + a0 * b0
  {
  }

  /** The schoolbook assembly of `uint128_mul64` over numbers: the four partial
      products, split into 32-bit digits, give the two words of the product. */
  lemma Mul64Arith(x: int, y: int, x1: int, x0: int, y1: int, y0: int,
                   c1: int, c0: int, a1: int, a0: int, b1: int, b0: int, hh: int)
    requires 0 <= x < W64 && 0 <= y < W64
    requires x == x1 * W32 + x0 && y == y1 * W32 + y0
    requires x0 * y0 == c1 * W32 + c0 && x0 * y1 == a1 * W32 + a0 && x1 * y0 == b1 * W32 + b0
    requires hh == x1 * y1
    requires 0 <= c0 < W32 && 0 <= a0 < W32 && 0 <= b0 < W32 && 0 <= c1
    ensures x * y == (hh + a1 + b1 + (c1 + a0 + b0) / W32) * W64 + (c0 + ((c1 + a0 + b0) % W32) * W32)
    ensures x * y == (hh + a1 + b1) * W64 + (x0 * y0 + a0 * W32 + b0 * W32)
  {
    MulExpand(x1, x0, y1, y0, W32);
    var t := c1 + a0 + b0;
    assert t == (t / W32) * W32 + t % W32;
  }

  /** A word-sized low part and a product below 2^128 leave a word-sized high part. */
  lemma HighFits(x: int, y: int, hi: int, lo: int)
    requires 0 <= x < W64 && 0 <= y < W64 && x * y == hi * W64 + lo && 0 <= lo < W64
    ensures 0 <= hi < W64
  {
    MulMonotone(0, x, y);
    MulMonotone(x, W64 - 1, y);
    MulMonotone(y, W64 - 1, W64 - 1);
    DivModUnique(x * y, W64, hi, lo);
    QuotientBound(x * y, W64, W64);
  }

  /** The words `uint128_mul64` assembles from the four partial products. */
  lemma Mul64Words(lhs: u64, rhs: u64, leftLo: u64, leftHi: u64, rightLo: u64, rightHi: u64,
                   loLo: u64, loHi: u64, hiLo: u64, hiHi: u64)
    requires leftLo == lhs % W32 && leftHi == lhs / W32 && rightLo == rhs % W32 && rightHi == rhs / W32
    requires loLo == leftLo * rightLo && loHi == leftLo * rightHi && hiLo == leftHi * rightLo && hiHi == leftHi * rightHi
    ensures U(UInt128(Add64(Add64(loLo, Shl64(loHi, 32)), Shl64(hiLo, 32)),
                      Add64(Add64(Add64(hiHi, Shr64(loHi, 32)), Shr64(hiLo, 32)),
                            Shr64(Add64(Add64(Shr64(loLo, 32), And64(loHi, W32 - 1)), And64(hiLo, W32 - 1)), 32))))
         == lhs * rhs
  {
    var low := Add64(Add64(loLo, Shl64(loHi, 32)), Shl64(hiLo, 32));
    var carry := Shr64(Add64(Add64(Shr64(loLo, 32), And64(loHi, W32 - 1)), And64(hiLo, W32 - 1)), 32);
    var high := Add64(Add64(Add64(hiHi, Shr64(loHi, 32)), Shr64(hiLo, 32)), carry);
    CarryOf(loLo, loHi, hiLo);
    LowOf(loLo, loHi, hiLo);
    HighOf(hiHi, loHi, hiLo, carry);
    Mul64Assemble(lhs, rhs, leftHi, leftLo, rightHi, rightLo, loLo, loHi, hiLo, hiHi, carry, low, high);
  }

  /** The assembly of `uint128_mul64` over numbers: the two words it computes from the
      partial products are the two words of the product. */
  lemma Mul64Assemble(x: int, y: int, x1: int, x0: int, y1: int, y0: int,
                      loLo: int, loHi: int, hiLo: int, hiHi: int, carry: int, low: int, high: int)
    requires 0 <= x < W64 && 0 <= y < W64
    requires x == x1 * W32 + x0 && y == y1 * W32 + y0 && 0 <= x0 < W32 && 0 <= y0 < W32 && 0 <= x1 && 0 <= y1
    requires loLo == x0 * y0 && loHi == x0 * y1 && hiLo == x1 * y0 && hiHi == x1 * y1 && 0 <= loLo
    requires carry == (loLo / W32 + loHi % W32 + hiLo % W32) / W32
    requires low == (loLo + (loHi % W32) * W32 + (hiLo % W32) * W32) % W64
    requires high == (hiHi + loHi / W32 + hiLo / W32 + carry) % W64
    ensures x * y == high * W64 + low
  {
    var c1, c0, a1, a0, b1, b0 := loLo / W32, loLo % W32, loHi / W32, loHi % W32, hiLo / W32, hiLo % W32;
    Mul64Arith(x, y, x1, x0, y1, y0, c1, c0, a1, a0, b1, b0, hiHi);
    var lowExact := c0 + ((c1 + a0 + b0) % W32) * W32;
    assert loLo + a0 * W32 + b0 * W32 == carry * W64 + lowExact;
    DivModUnique(loLo + a0 * W32 + b0 * W32, W64, carry, lowExact);
    var highExact := hiHi + a1 + b1 + carry;
    assert x * y == highExact * W64 + lowExact;
    HighFits(x, y, highExact, lowExact);
    DivModUnique(highExact, W64, 0, highExact);
  }

  // ---------------------------------------------------------------------
  // The 64 x 64 multiplies

  /** `uint128_mul64`: the exact product of two uint64_t values. */
  function UInt128Mul64(lhs: u64, rhs: u64): (r: UInt128)
    ensures U(r) == lhs * rhs
  {
    var leftLo, leftHi := And64(lhs, W32 - 1), Shr64(lhs, 32);
    var rightLo, rightHi := And64(rhs, W32 - 1), Shr64(rhs, 32);
    Halves(lhs);
    Halves(rhs);
    HalfProduct(leftLo, rightLo);
    HalfProduct(leftLo, rightHi);
    HalfProduct(leftHi, rightLo);
    HalfProduct(leftHi, rightHi);
    var loLo, loHi := Mul64(leftLo, rightLo), Mul64(leftLo, rightHi);
    var hiLo, hiHi := Mul64(leftHi, rightLo), Mul64(leftHi, rightHi);
    var carry := Shr64(Add64(Add64(Shr64(loLo, 32), And64(loHi, W32 - 1)), And64(hiLo, W32 - 1)), 32);
    Mul64Words(lhs, rhs, leftLo, leftHi, rightLo, rightHi, loLo, loHi, hiLo, hiHi);
    UInt128(Add64(Add64(loLo, Shl64(loHi, 32)), Shl64(hiLo, 32)),
            Add64(Add64(Add64(hiHi, Shr64(loHi, 32)), Shr64(hiLo, 32)), carry))
  }

  /** `int128_mul64`: the unsigned product of the two bit patterns, with `high -= rhs`
      when lhs is negative and `high -= lhs` when rhs is negative, is the exact signed product. */
  method Int128Mul64(lhs: i64, rhs: i64) returns (result: Int128)
    ensures S(result) == lhs * rhs
  {
    var a := ToUnsigned(W64, lhs);
    var b := ToUnsigned(W64, rhs);
    var tmp := UInt128Mul64(a, b);
    result := Int128(tmp.low, tmp.high);
    if lhs < 0 {
      result := result.(high := Sub64(result.high, b));
    }
    if rhs < 0 {
      result := result.(high := Sub64(result.high, a));
    }
    Mul64Fixup(lhs, rhs, a, b, tmp, result);
  }

  /** After the corrections of `int128_mul64` the signed value is the exact product. */
  lemma Mul64Fixup(lhs: i64, rhs: i64, a: int, b: int, tmp: UInt128, result: Int128)
    requires a == ToUnsigned(W64, lhs) && b == ToUnsigned(W64, rhs) && U(tmp) == a * b
    requires result.low == tmp.low
    requires var h := if lhs < 0 then Sub64(tmp.high, b) else tmp.high;
             result.high == if rhs < 0 then Sub64(h, a) else h
    ensures S(result) == lhs * rhs
  {
    var high: int := tmp.high - (if lhs < 0 then b else 0) - (if rhs < 0 then a else 0);
    var h := if lhs < 0 then Sub64(tmp.high, b) else tmp.high;
    DivModUnique(tmp.high, W64, 0, tmp.high);
    SubReduced(tmp.high, tmp.high, b);
    assert h == (tmp.high - (if lhs < 0 then b else 0)) % W64;
    SubReduced(h, tmp.high - (if lhs < 0 then b else 0), a);
    assert result.high == high % W64;
    var exact := U(tmp) - (if lhs < 0 then b * W64 else 0) - (if rhs < 0 then a * W64 else 0);
    assert exact == high * W64 + tmp.low;
    ScaledDivMod(high, W64, W64);
    ScaledDigitBound(high % W64, W64, W64);
    assert high * W64 + tmp.low == (high / W64) * W128 + Bits(result);
    DivModUnique(exact, W128, high / W64, Bits(result));
    Mul64Signed(lhs, rhs, a, b, U(tmp), exact);
    SignedProductBound(lhs, rhs);
    SOfBits(result, lhs * rhs);
    WrapSignedUnique(W128, lhs * rhs, lhs * rhs);
  }

  /** `h - v` on uint64_t, for h the reduction of e, is the reduction of e - v. */
  lemma SubReduced(h: u64, e: int, v: u64)
    requires h == e % W64
    ensures Sub64(h, v) == (e - v) % W64
  {
    SubCongruent(h, v, e, v, W64);
  }

  /** The corrections of `int128_mul64` turn the product of the unsigned readings into the
      signed product, modulo 2^128. */
  lemma Mul64Signed(lhs: int, rhs: int, a: int, b: int, product: int, exact: int)
    requires a == (if lhs < 0 then lhs + W64 else lhs) && b == (if rhs < 0 then rhs + W64 else rhs)
    requires product == a * b
    requires exact == product - (if lhs < 0 then b * W64 else 0) - (if rhs < 0 then a * W64 else 0)
    ensures exact % W128 == (lhs * rhs) % W128
  {
    if lhs < 0 && rhs < 0 {
      assert exact == lhs * rhs - W128;
      AddMultiple(lhs * rhs, -1, W128);
    } else {
      assert exact == lhs * rhs;
    }
  }

  /** The product of two int64_t values fits in an int128. */
  lemma SignedProductBound(x: i64, y: i64)
    ensures -W127 < x * y <= W127 / 2
  {
    var p: int := if x < 0 then -(x as int) else x;
    var q: int := if y < 0 then -(y as int) else y;
    MulMonotone(0, p, q);
    MulMonotone(p, W63, q);
    MulMonotone(q, W63, W63);
    assert p * q == if (x < 0) == (y < 0) then x * y else -(x * y);
  }

  // ---------------------------------------------------------------------
  // The 128 x 128 multiplies

  /** `uint128_mul`: the low 128 bits of the product, from three 64 x 64 products. */
  function UInt128Mul(lhs: UInt128, rhs: UInt128): (r: UInt128)
    ensures U(r) == (U(lhs) * U(rhs)) % W128
  {
    var i := UInt128Mul64(lhs.low, rhs.low);
    var j := UInt128Mul64(lhs.low, rhs.high);
    var k := UInt128Mul64(lhs.high, rhs.low);
    MulWords(lhs, rhs, i, j, k);
    var tmp := UInt128Add(i, UInt128(0, j.low));
    UInt128Add(tmp, UInt128(0, k.low))
  }

  /** The sums `uint128_mul` forms from the partial products. */
  lemma MulWords(lhs: UInt128, rhs: UInt128, i: UInt128, j: UInt128, k: UInt128)
    requires U(i) == lhs.low * rhs.low && U(j) == lhs.low * rhs.high && U(k) == lhs.high * rhs.low
    ensures U(UInt128Add(UInt128Add(i, UInt128(0, j.low)), UInt128(0, k.low))) == (U(lhs) * U(rhs)) % W128
  {
    var tmp := UInt128Add(i, UInt128(0, j.low));
    var result := UInt128Add(tmp, UInt128(0, k.low));
    AddShifted(i, j.low);
    AddShifted(tmp, k.low);
    LowWord(j);
    LowWord(k);
    MulWrapArith(lhs.high, lhs.low, rhs.high, rhs.low, U(i), j.low, k.low, U(tmp), U(result));
  }

  /** Adding `(uint128){ .high = w }` adds w * 2^64. */
  lemma AddShifted(x: UInt128, w: u64)
    ensures U(UInt128Add(x, UInt128(0, w))) == (U(x) + w * W64) % W128
  {
  }

  /** The low word is the number modulo 2^64. */
  lemma LowWord(x: UInt128)
    ensures x.low == U(x) % W64
  {
    DivModUnique(U(x), W64, x.high, x.low);
  }

  /** The assembly of `uint128_mul` over numbers: the product modulo 2^128 needs only the
      low word of the two cross products, and not the product of the high words. */
  lemma MulWrapArith(h1: int, l1: int, h2: int, l2: int, i: int, jl: int, kl: int, t: int, r: int)
    requires i == l1 * l2 && jl == (l1 * h2) % W64 && kl == (h1 * l2) % W64
    requires t == (i + jl * W64) % W128 && r == (t + kl * W64) % W128
    ensures r == ((h1 * W64 + l1) * (h2 * W64 + l2)) % W128
  {
    DivModUnique(t, W128, 0, t);
    AddCongruent(t, kl * W64, i + jl * W64, kl * W64, W128);
    MulExpand(h1, l1, h2, l2, W64);
    var qa, qb := (l1 * h2) / W64, (h1 * l2) / W64;
    assert l1 * h2 == qa * W64 + jl;
    assert h1 * l2 == qb * W64 + kl;
    assert (h1 * l2 + l1 * h2) * W64 == (qa + qb) * W128 + (jl + kl) * W64;
    AddMultiple(i + jl * W64 + kl * W64, h1 * h2 + qa + qb, W128);
  }

  /** `int128_mul`: the -1 shortcuts, the sign flips and the final negation are all
      neutral modulo 2^128, so the result is the wrapped product on both readings. */
  method Int128Mul(lhs: Int128, rhs: Int128) returns (result: Int128)
    ensures Bits(result) == (Bits(lhs) * Bits(rhs)) % W128
    ensures S(result) == WrapSigned(W128, S(lhs) * S(rhs))
  {
    if Int128Eq(lhs, Int128C(-1)) {
      result := Int128Neg(rhs);
      MinusOneFactor(rhs, lhs);
    } else if Int128Eq(rhs, Int128C(-1)) {
      result := Int128Neg(lhs);
      MinusOneFactor(lhs, rhs);
    } else {
      var x, y := lhs, rhs;
      var resultNegative := false;
      ghost var v := Bits(lhs) * Bits(rhs);
      if Int128Less(x, Int128C(0)) {
        FlipLeft(x, Bits(y), resultNegative, v);
        resultNegative := !resultNegative;
        x := Int128Neg(x);
      }
      assert Residue(Bits(x) * Bits(y), resultNegative, v);
      if Int128Less(y, Int128C(0)) {
        FlipRight(Bits(x), y, resultNegative, v);
        resultNegative := !resultNegative;
        y := Int128Neg(y);
      }
      assert Residue(Bits(x) * Bits(y), resultNegative, v);
      var tmp := UInt128Mul(AsUnsigned(x), AsUnsigned(y));
      result := AsSigned(tmp);
      assert Bits(result) == (Bits(x) * Bits(y)) % W128;
      if resultNegative {
        FlipResult(result, v);
        result := Int128Neg(result);
      }
    }
    SignedResults(result, lhs, rhs);
  }

  /** The bits of a negation multiply as the negated bits. */
  lemma NegFactor(n: int, b: int, y: int)
    requires 0 <= b < W128 && n == (W128 - b) % W128
    ensures (n * y) % W128 == (-(b * y)) % W128
  {
    var m := -b;
    DivModUnique(n, W128, 0, n);
    AddMultiple(m, 1, W128);
    assert n % W128 == m % W128;
    MulCongruent(n, y, m, y, W128);
    assert m * y == -(b * y);
  }

  /** Negating the left factor flips the sign of the product residue. */
  lemma FlipLeft(x: Int128, yb: int, negative: bool, v: int)
    requires Residue(Bits(x) * yb, negative, v)
    ensures Residue(Bits(Int128Neg(x)) * yb, !negative, v)
  {
    NegFactor(Bits(Int128Neg(x)), Bits(x), yb);
    FlipArith(Bits(x) * yb, Bits(Int128Neg(x)) * yb, negative, v);
  }

  /** Negating the right factor flips the sign of the product residue. */
  lemma FlipRight(xb: int, y: Int128, negative: bool, v: int)
    requires Residue(xb * Bits(y), negative, v)
    ensures Residue(xb * Bits(Int128Neg(y)), !negative, v)
  {
    NegFactor(Bits(Int128Neg(y)), Bits(y), xb);
    FlipArith(xb * Bits(y), xb * Bits(Int128Neg(y)), negative, v);
  }

  /** Negating a result whose bits are the residue of -v gives the residue of v. */
  lemma FlipResult(r: Int128, v: int)
    requires Bits(r) == (-v) % W128
    ensures Bits(Int128Neg(r)) == v % W128
  {
    NegFactor(Bits(Int128Neg(r)), Bits(r), 1);
    FlipArith(Bits(r), Bits(Int128Neg(r)), true, v);
    DivModUnique(Bits(Int128Neg(r)), W128, 0, Bits(Int128Neg(r)));
  }

  /** p agrees with v, or with -v when `negative`, modulo 2^128. */
  predicate Residue(p: int, negative: bool, v: int)
  {
    p % W128 == (if negative then -v else v) % W128
  }

  /** Flipping the sign of a residue. */
  lemma FlipArith(p: int, q: int, negative: bool, v: int)
    requires q % W128 == (-p) % W128 && Residue(p, negative, v)
    ensures Residue(q, !negative, v)
  {
    if negative {
      SubCongruent(0, p, 0, -v, W128);
    } else {
      SubCongruent(0, p, 0, v, W128);
    }
  }

  /** Multiplying by `INT128_C(-1)` is the negation. */
  lemma MinusOneFactor(x: Int128, m: Int128)
    requires m == Int128C(-1)
    ensures Bits(Int128Neg(x)) == (Bits(m) * Bits(x)) % W128
  {
    var b: int := Bits(x);
    assert Bits(m) == W128 - 1;
    assert (W128 - 1) * b == (W128 - b) + (b - 1) * W128;
    AddMultiple(W128 - b, b - 1, W128);
  }

  // ---------------------------------------------------------------------
  // The multiplication tests

  /** `int128_mul` on the values of test.c: 10^8 * 2^64 doubled, INT128_MAX times 0, and
      INT128_MAX times 10, which wraps to -10. */
  method Int128MulExamples() returns (doubled: Int128, zero: Int128, wrapped: Int128)
    ensures doubled.high == 200000000 && doubled.low == 0
    ensures Int128Eq(zero, Int128C(0))
    ensures Int128Eq(wrapped, Int128C(-10))
  {
    var two, ten := Int128C(2), Int128C(10);
    assert Bits(two) == 2 && Bits(ten) == 10 && Bits(Int128C(0)) == 0;
    doubled := Int128Mul(Int128(0, 100000000), two);
    DoubleHigh(100000000, Bits(doubled));
    BitsInjective(doubled, Int128(0, 200000000));
    zero := Int128Mul(Int128Max(), Int128C(0));
    BitsInjective(zero, Int128C(0));
    wrapped := Int128Mul(Int128Max(), ten);
    MaxTimesTen(Bits(wrapped));
    BitsInjective(wrapped, Int128C(-10));
  }

  /** (2^127 - 1) * 10 is -10 modulo 2^128. */
  lemma MaxTimesTen(r: int)
    requires r == ((0x7fff_ffff_ffff_ffff * W64 + (W64 - 1)) * 10) % W128
    ensures r == Bits(Int128C(-10))
  {
    assert (0x7fff_ffff_ffff_ffff * W64 + (W64 - 1)) * 10 == 4 * W128 + (W128 - 10);
    DivModUnique((0x7fff_ffff_ffff_ffff * W64 + (W64 - 1)) * 10, W128, 4, W128 - 10);
  }

  /** `uint128_mul` by `UINT128_C(2)` doubles a value with a zero low word, as test.c
      checks for a high word of 10^8. */
  lemma UInt128MulByTwo(h: u64)
    ensures UInt128Mul(UInt128(0, h), UInt128C(2)) == UInt128(0, (2 * h) % W64)
  {
    var r := UInt128Mul(UInt128(0, h), UInt128C(2));
    var two := UInt128C(2);
    assert U(two) == 2;
    DoubleHigh(h, U(r));
    UInjective(r, UInt128(0, (2 * h) % W64));
  }

  lemma DoubleHigh(h: int, r: int)
    requires r == ((h * W64 + 0) * 2) % W128
    ensures r == ((2 * h) % W64) * W64 + 0
  {
    assert (h * W64 + 0) * 2 == (2 * h) * W64;
    ScaledDivMod(2 * h, W64, W64);
  }

  /** 10^n. */
  function Pow10(n: nat): (r: nat)
    ensures r >= 1
  {
    if n == 0 then 1 else 10 * Pow10(n - 1)
  }

  lemma {:induction false} Pow10Monotone(a: nat, b: nat)
    requires a <= b
    ensures Pow10(a) <= Pow10(b)
    decreases b
  {
    if a < b {
      Pow10Monotone(a, b - 1);
    }
  }

  /** The loop of test.c: starting from `UINT128_C(1)`, n multiplications by `UINT128_C(10)`. */
  function TenPower(n: nat): (r: UInt128)
  {
    if n == 0 then UInt128C(1) else UInt128Mul(TenPower(n - 1), UInt128C(10))
  }

  /** Multiplying by `UINT128_C(10)` is exact while the product fits. */
  lemma MulTen(x: UInt128)
    requires U(x) * 10 < W128
    ensures U(UInt128Mul(x, UInt128C(10))) == U(x) * 10
  {
    var ten := UInt128C(10);
    assert U(ten) == 10;
    DivModUnique(U(x) * 10, W128, 0, U(x) * 10);
  }

  /** 10^38 is below 2^128 and 10^39 is not. */
  lemma Pow10Values()
    ensures Pow10(38) == 100000000000000000000000000000000000000
  {
    assert Pow10(4) == 10000;
    assert Pow10(8) == 100000000;
    assert Pow10(12) == 1000000000000;
    assert Pow10(16) == 10000000000000000;
    assert Pow10(20) == 100000000000000000000;
    assert Pow10(24) == 1000000000000000000000000;
    assert Pow10(28) == 10000000000000000000000000000;
    assert Pow10(32) == 100000000000000000000000000000000;
    assert Pow10(36) == 1000000000000000000000000000000000000;
  }

  /** For n up to 38 the loop computes 10^n exactly. */
  lemma {:induction false} TenPowerExact(n: nat)
    requires n <= 38
    ensures U(TenPower(n)) == Pow10(n)
  {
    if n > 0 {
      var p := TenPower(n - 1);
      TenPowerExact(n - 1);
      Pow10Fits(n);
      MulTen(p);
    }
  }

  /** 10^n is below 2^128 for n up to 38. */
  lemma Pow10Fits(n: nat)
    requires n <= 38
    ensures Pow10(n) < W128
  {
    Pow10Monotone(n, 38);
    Pow10Values();
  }

  /** None of the 38 multiplications of the loop overflows. */
  lemma TenPowerGrows(n: nat)
    requires n < 38
    ensures UInt128Greater(UInt128Mul(TenPower(n), UInt128C(10)), TenPower(n))
  {
    TenPowerExact(n + 1);
    TenPowerExact(n);
  }

  /** The 39th multiplication wraps to the constant test.c checks. */
  lemma TenPowerWraps(n: nat)
    requires n == 38
    ensures UInt128Eq(UInt128Mul(TenPower(n), UInt128C(10)), UInt128(0x5f65568000000000, 0xf050fe938943acc4))
  {
    TenPowerExact(n);
    var ten := UInt128C(10);
    assert U(ten) == 10;
    WrappedTenPower(UInt128Mul(TenPower(n), ten));
  }

  /** 10^39 modulo 2^128 has the words test.c checks. */
  lemma WrappedTenPower(r: UInt128)
    requires U(r) == (Pow10(38) * 10) % W128
    ensures UInt128Eq(r, UInt128(0x5f65568000000000, 0xf050fe938943acc4))
  {
    Pow10Values();
    var c := UInt128(0x5f65568000000000, 0xf050fe938943acc4);
    assert U(r) == (100000000000000000000000000000000000000 * 10) % W128;
    assert U(c) == 0xf050fe938943acc4_5f65568000000000;
  }
}
