/** Addition, negation and subtraction in int128.h: the words are combined
    separately with uint64_t arithmetic, and a carry or borrow passes from the
    low word into the high word. The contracts state each result modulo 2^128. */
module Int128AddSub {
  import opened Arith
  import opened Words
  import opened Int128Repr
  import opened Int128Compare

  // ---------------------------------------------------------------------
  // Two-digit arithmetic in base 2^64

  /** A number written as t digits of p and one digit d, taken modulo p^2, keeps
      only the lowest digit of t. */
  lemma TwoDigitMod(t: int, d: int, p: int)
    requires p > 0 && 0 <= d < p
    ensures (t * p + d) % (p * p) == (t % p) * p + d
  {
    var q, m := t / p, t % p;
    assert t == q * p + m;
    assert t * p + d == q * (p * p) + (m * p + d);
    ScaledDigitBound(m, p, p);
    DivModUnique(t * p + d, p * p, q, m * p + d);
  }

  /** The sum of two 128-bit numbers modulo 2^128, written with its words: the
      low words' sum modulo 2^64, and the high words' sum plus the carry. */
  lemma AddWords(h1: u64, l1: u64, b1: int, h2: u64, l2: u64, b2: int)
    requires b1 == h1 * W64 + l1 && b2 == h2 * W64 + l2
    ensures (b1 + b2) % W128
         == ((h1 + h2 + (if l1 + l2 >= W64 then 1 else 0)) % W64) * W64 + (l1 + l2) % W64
  {
    var c := if l1 + l2 >= W64 then 1 else 0;
    var d := l1 + l2 - c * W64;
    DivModUnique(l1 + l2, W64, c, d);
    assert b1 + b2 == (h1 + h2 + c) * W64 + d;
    TwoDigitMod(h1 + h2 + c, d, W64);
  }

  /** The low word of a sum is below the left operand's low word exactly when the sum wrapped. */
  lemma AddCarry(a: u64, b: u64)
    ensures Add64(a, b) < a <==> a + b >= W64
  {
    if a + b >= W64 {
      DivModUnique(a + b, W64, 1, a + b - W64);
    } else {
      DivModUnique(a + b, W64, 0, a + b);
    }
  }

  /** The high word of `int128_add`, incremented when the low sum is below `lhs.low`, takes the carry. */
  lemma AddHigh(h1: u64, l1: u64, h2: u64, l2: u64, sum: int, h: int, wrapped: bool)
    requires sum == Add64(h1, h2) && wrapped == (Add64(l1, l2) < l1)
    requires h == if wrapped then Add64(sum, 1) else sum
    ensures h == (h1 + h2 + (if l1 + l2 >= W64 then 1 else 0)) % W64
  {
    AddCarry(l1, l2);
    AddOneMod(h1 + h2);
  }

  /** Adding one to a word sum modulo 2^64 is adding one before reducing. */
  lemma AddOneMod(t: int)
    ensures ((t % W64) + 1) % W64 == (t + 1) % W64
  {
    AddCongruent(t % W64, 1, t, 1, W64);
  }

  // ---------------------------------------------------------------------
  // The operations

  /** `int128_add`: the words are added separately, and `high` is incremented
      when the low sum wrapped. */
  function Int128Add(lhs: Int128, rhs: Int128): (r: Int128)
    ensures Bits(r) == (Bits(lhs) + Bits(rhs)) % W128
    ensures r.low == (lhs.low + rhs.low) % W64
    ensures r.high == (lhs.high + rhs.high + (if lhs.low + rhs.low >= W64 then 1 else 0)) % W64
  {
    var result := Int128(Add64(lhs.low, rhs.low), Add64(lhs.high, rhs.high));
    var r := if result.low < lhs.low then result.(high := Add64(result.high, 1)) else result;
    AddHigh(lhs.high, lhs.low, rhs.high, rhs.low, result.high, r.high, result.low < lhs.low);
    AddWords(lhs.high, lhs.low, Bits(lhs), rhs.high, rhs.low, Bits(rhs));
    r
  }

  /** `uint128_add`: the signed addition on the same bits. */
  function UInt128Add(lhs: UInt128, rhs: UInt128): (r: UInt128)
    ensures U(r) == (U(lhs) + U(rhs)) % W128
  {
    AsUnsigned(Int128Add(AsSigned(lhs), AsSigned(rhs)))
  }

  /** `int128_neg`: the complement plus one, the one carrying into `high` when `low` is zero. */
  function Int128Neg(x: Int128): (r: Int128)
    ensures Bits(r) == (W128 - Bits(x)) % W128
  {
    var r := Int128(Add64(Not64(x.low), 1), Add64(Not64(x.high), if x.low == 0 then 1 else 0));
    NegWords(x.high, x.low, Bits(x));
    r
  }

  /** The words of `int128_neg` spell W128 - b, reduced. */
  lemma NegWords(h: u64, l: u64, b: int)
    requires b == h * W64 + l
    ensures (W128 - b) % W128
         == ((W64 - 1 - h + (if l == 0 then 1 else 0)) % W64) * W64 + (W64 - 1 - l + 1) % W64
  {
    if l == 0 {
      DivModUnique(W64 - 1 - l + 1, W64, 1, 0);
      TwoDigitMod(W64 - h, 0, W64);
    } else {
      DivModUnique(W64 - 1 - l + 1, W64, 0, W64 - l);
      DivModUnique(W64 - 1 - h, W64, 0, W64 - 1 - h);
      DivModUnique(W128 - b, W128, 0, W128 - b);
    }
  }

  /** `int128_sub`: adds the negation. */
  function Int128Sub(lhs: Int128, rhs: Int128): (r: Int128)
    ensures Bits(r) == (Bits(lhs) - Bits(rhs)) % W128
  {
    var n := Int128Neg(rhs);
    AddNegated(Bits(lhs), Bits(rhs), Bits(n));
    Int128Add(lhs, n)
  }

  /** Adding the negation modulo m is subtracting. */
  lemma AddNegated(a: int, b: int, c: int)
    requires 0 <= c < W128 && c == (W128 - b) % W128
    ensures (a + c) % W128 == (a - b) % W128
  {
    DivModUnique(c, W128, 0, c);
    AddCongruent(a, c, a, W128 - b, W128);
    AddMultiple(a - b, 1, W128);
  }

  /** On the signed reading, addition, negation and subtraction wrap the exact results into
      the range of int128. */
  lemma SignedAddSub(a: Int128, b: Int128)
    ensures S(Int128Add(a, b)) == WrapSigned(W128, S(a) + S(b))
    ensures S(Int128Neg(a)) == WrapSigned(W128, -S(a))
    ensures S(Int128Sub(a, b)) == WrapSigned(W128, S(a) - S(b))
  {
    SignedResults(Int128Add(a, b), a, b);
    SignedResults(Int128Neg(a), a, b);
    SignedResults(Int128Sub(a, b), a, b);
  }

  /** The bit trick of `uint128_sub`: with d = a - b on uint64_t, the sum
      (d & b & 1) + (b >> 1) + (d >> 1) is (d + b) / 2, whose bit 63 is the borrow. */
  lemma BorrowArith(a: int, b: int, d: int)
    requires 0 <= a < W64 && 0 <= b < W64 && d == (a - b) % W64
    ensures 0 <= (d % 2) * (b % 2) + b / 2 + d / 2 < W64
    ensures ((d % 2) * (b % 2) + b / 2 + d / 2) / W63 == if a < b then 1 else 0
  {
    var c := if a < b then 1 else 0;
    DivModUnique(a - b, W64, -c, a - b + c * W64);
    var s := (d % 2) * (b % 2) + b / 2 + d / 2;
    var e := d % 2 + b % 2 - 2 * ((d % 2) * (b % 2));
    assert d + b == 2 * s + e;
    DivModUnique(d + b, 2, s, e);
    DivDiv(d + b, 2, W63);
    DivModUnique(d + b, W64, c, a);
  }

  /** The three-term sum of the borrow computation, when it does not wrap, shifted right by 63. */
  lemma BorrowSum(a: u64, b: u64, c: u64)
    requires a + b + c < W64
    ensures Shr64(Add64(Add64(a, b), c), 63) == (a + b + c) / W63
  {
    var sum := Add64(Add64(a, b), c);
    DivModUnique(a + b, W64, 0, a + b);
    DivModUnique(a + b + c, W64, 0, a + b + c);
    assert sum == a + b + c;
    Pow2Values();
    assert Shr64(sum, 63) == sum / W63;
  }

  /** The borrow of `uint128_sub` is 1 exactly when `lhs.low < rhs.low`. */
  function Borrow(lhs: u64, rhs: u64): (c: u64)
    ensures c == if lhs < rhs then 1 else 0
  {
    var d := Sub64(lhs, rhs);
    Pow2Values();
    var bit, halfRhs, halfD := And64(And64(d, rhs), 1), Shr64(rhs, 1), Shr64(d, 1);
    AndOne(And64(d, rhs));
    AndLowBit(d, rhs);
    assert bit == (d % 2) * (rhs % 2) && halfRhs == rhs / 2 && halfD == d / 2;
    BorrowArith(lhs, rhs, d);
    BorrowSum(bit, halfRhs, halfD);
    Shr64(Add64(Add64(bit, halfRhs), halfD), 63)
  }

  /** `uint128_sub`: the low words are subtracted, and the high word also takes the borrow. */
  function UInt128Sub(lhs: UInt128, rhs: UInt128): (r: UInt128)
    ensures U(r) == (U(lhs) - U(rhs)) % W128
  {
    var carry := Borrow(lhs.low, rhs.low);
    var r := UInt128(Sub64(lhs.low, rhs.low), Sub64(lhs.high, Add64(rhs.high, carry)));
    SubResult(lhs, rhs, carry);
    r
  }

  /** The words `uint128_sub` assembles from a borrow that is 1 exactly when `lhs.low < rhs.low`. */
  lemma SubResult(lhs: UInt128, rhs: UInt128, carry: u64)
    requires carry == if lhs.low < rhs.low then 1 else 0
    ensures U(UInt128(Sub64(lhs.low, rhs.low), Sub64(lhs.high, Add64(rhs.high, carry)))) == (U(lhs) - U(rhs)) % W128
  {
    SubOfSum(lhs.high, rhs.high, carry);
    SubWords(lhs.high, lhs.low, U(lhs), rhs.high, rhs.low, U(rhs), carry);
  }

  /** `a - (b + c)` on uint64_t, the sum reduced before the difference. */
  lemma SubOfSum(a: u64, b: u64, c: u64)
    ensures Sub64(a, Add64(b, c)) == (a - (b + c) % W64) % W64
  {
  }

  /** The difference of two 128-bit numbers modulo 2^128, written with its words. */
  lemma SubWords(h1: u64, l1: u64, b1: int, h2: u64, l2: u64, b2: int, c: int)
    requires b1 == h1 * W64 + l1 && b2 == h2 * W64 + l2
    requires c == if l1 < l2 then 1 else 0
    ensures (b1 - b2) % W128 == ((h1 - (h2 + c) % W64) % W64) * W64 + (l1 - l2) % W64
  {
    var d, t := l1 - l2 + c * W64, h1 - h2 - c;
    DivModUnique(l1 - l2, W64, -c, d);
    assert b1 - b2 == t * W64 + d;
    TwoDigitMod(t, d, W64);
    SubCongruent(h1, (h2 + c) % W64, h1, h2 + c, W64);
    SubWordsStep(b1 - b2, t, d, (h1 - (h2 + c) % W64) % W64, (l1 - l2) % W64);
  }

  lemma SubWordsStep(x: int, t: int, d: int, h: int, l: int)
    requires x == t * W64 + d && (t * W64 + d) % (W64 * W64) == (t % W64) * W64 + d
    requires h == t % W64 && l == d
    ensures x % W128 == h * W64 + l
  {
  }

  // ---------------------------------------------------------------------
  // Properties

  /** Reducing a + b and then subtracting b gives back a number below 2^128. */
  lemma SubAfterAdd(a: int, b: int, s: int, t: int)
    requires 0 <= a < W128 && s == (a + b) % W128 && t == (s - b) % W128
    ensures t == a
  {
    DivModUnique(a, W128, 0, a);
    SubCongruent(s, b, a + b, b, W128);
  }

  /** Reducing a - b and then adding b gives back a number below 2^128. */
  lemma AddAfterSub(a: int, b: int, s: int, t: int)
    requires 0 <= a < W128 && s == (a - b) % W128 && t == (s + b) % W128
    ensures t == a
  {
    DivModUnique(a, W128, 0, a);
    AddCongruent(s, b, a - b, b, W128);
  }

  /** Subtraction undoes addition on signed values. */
  lemma Int128SubUndoesAdd(a: Int128, b: Int128)
    ensures Int128Sub(Int128Add(a, b), b) == a
  {
    var s := Int128Add(a, b);
    SubAfterAdd(Bits(a), Bits(b), Bits(s), Bits(Int128Sub(s, b)));
    BitsInjective(Int128Sub(s, b), a);
  }

  /** Addition undoes subtraction on signed values. */
  lemma Int128AddUndoesSub(a: Int128, b: Int128)
    ensures Int128Add(Int128Sub(a, b), b) == a
  {
    var t := Int128Sub(a, b);
    AddAfterSub(Bits(a), Bits(b), Bits(t), Bits(Int128Add(t, b)));
    BitsInjective(Int128Add(t, b), a);
  }

  /** Subtraction undoes addition on unsigned values. */
  lemma UInt128SubUndoesAdd(a: UInt128, b: UInt128)
    ensures UInt128Sub(UInt128Add(a, b), b) == a
  {
    var s := UInt128Add(a, b);
    UndoneBy(a, U(b), s, UInt128Sub(s, b), false);
  }

  /** Addition undoes subtraction on unsigned values. */
  lemma UInt128AddUndoesSub(a: UInt128, b: UInt128)
    ensures UInt128Add(UInt128Sub(a, b), b) == a
  {
    var t := UInt128Sub(a, b);
    UndoneBy(a, U(b), t, UInt128Add(t, b), true);
  }

  /** An unsigned value that is moved by b modulo 2^128 and moved back is the value. */
  lemma UndoneBy(a: UInt128, b: int, s: UInt128, t: UInt128, addBack: bool)
    requires !addBack ==> U(s) == (U(a) + b) % W128 && U(t) == (U(s) - b) % W128
    requires addBack ==> U(s) == (U(a) - b) % W128 && U(t) == (U(s) + b) % W128
    ensures t == a
  {
    if addBack {
      AddAfterSub(U(a), b, U(s), U(t));
    } else {
      SubAfterAdd(U(a), b, U(s), U(t));
    }
    UInjective(t, a);
  }

  /** A value plus its negation is zero. */
  lemma NegCancels(x: Int128)
    ensures Int128Add(x, Int128Neg(x)) == Int128C(0)
  {
    var n := Int128Neg(x);
    AddNegated(Bits(x), Bits(x), Bits(n));
    assert Bits(Int128Add(x, n)) == 0;
    BitsInjective(Int128Add(x, n), Int128C(0));
  }

  /** Subtracting from zero is negating. */
  lemma SubFromZero(x: Int128)
    ensures Int128Sub(Int128C(0), x) == Int128Neg(x)
  {
    var n := Int128Neg(x);
    ZeroPlus(Bits(n));
    assert Bits(Int128Sub(Int128C(0), x)) == Bits(n);
    BitsInjective(Int128Sub(Int128C(0), x), n);
  }

  lemma ZeroPlus(b: int)
    requires 0 <= b < W128
    ensures (0 + b) % W128 == b
  {
    DivModUnique(b, W128, 0, b);
  }

  /** Negating twice modulo 2^128 gives a number below 2^128 back. */
  lemma NegNegArith(a: int, n: int, m: int)
    requires 0 <= a < W128 && n == (W128 - a) % W128 && m == (W128 - n) % W128
    ensures m == a
  {
    if a == 0 {
      DivModUnique(W128 - a, W128, 1, 0);
      DivModUnique(W128 - n, W128, 1, 0);
    } else {
      DivModUnique(W128 - a, W128, 0, W128 - a);
      DivModUnique(W128 - n, W128, 0, a);
    }
  }

  /** Negating twice gives the value back. */
  lemma NegInvolutive(x: Int128)
    ensures Int128Neg(Int128Neg(x)) == x
  {
    var n := Int128Neg(x);
    NegNegArith(Bits(x), Bits(n), Bits(Int128Neg(n)));
    BitsInjective(Int128Neg(n), x);
  }

  /** Negation fixes zero and `INT128_MIN`, and changes every other value. */
  lemma NegFixedPoints(x: Int128)
    ensures Int128Neg(x) == x <==> x == Int128C(0) || x == Int128Min()
    ensures x != Int128Min() ==> S(Int128Neg(x)) == -S(x)
  {
    var n := Int128Neg(x);
    BitsInjective(n, x);
    BitsInjective(x, Int128C(0));
    BitsInjective(x, Int128Min());
    NegFixedArith(Bits(x), Bits(n));
    if x != Int128Min() {
      SignedResults(n, x, x);
      NegNoWrap(S(x), S(n));
    }
  }

  /** Exactly 0 and 2^127 are their own negations modulo 2^128. */
  lemma NegFixedArith(b: int, n: int)
    requires 0 <= b < W128 && n == (W128 - b) % W128
    ensures n == b <==> b == 0 || b == W127
  {
    if b == 0 {
      DivModUnique(W128 - b, W128, 1, 0);
    } else {
      DivModUnique(W128 - b, W128, 0, W128 - b);
    }
  }

  /** The negation of a signed number other than -2^127 does not wrap. */
  lemma NegNoWrap(v: int, r: int)
    requires -W127 < v < W127 && r == WrapSigned(W128, -v)
    ensures r == -v
  {
    WrapSignedUnique(W128, -v, -v);
  }

  /** The wrap-around checks: `INT128_MAX + 1 == INT128_MIN` and `INT128_MIN - 1 == INT128_MAX`. */
  lemma Int128Wraps()
    ensures Int128Add(Int128Max(), Int128C(1)) == Int128Min()
    ensures Int128Sub(Int128Min(), Int128C(1)) == Int128Max()
  {
    assert Int128Neg(Int128C(1)) == Int128(W64 - 1, W64 - 1);
  }

  /** The unsigned wrap-around: `UINT128_MAX + 1 == 0` and `0 - 1 == UINT128_MAX`. */
  lemma UInt128Wraps()
    ensures UInt128Add(UInt128Max(), UInt128C(1)) == UInt128C(0)
    ensures UInt128Sub(UInt128C(0), UInt128C(1)) == UInt128Max()
  {
    assert Borrow(0, 1) == 1;
  }

  /** The addition sanity checks: 2^64 - 1 plus one is greater, and is less than 2^64 - 1 plus two;
      subtracting the one gives 2^64 - 1 back. */
  lemma AdditionExamples()
    ensures Int128Greater(Int128Add(Int128C(W64 - 1), Int128C(1)), Int128C(W64 - 1))
    ensures Int128Less(Int128Add(Int128C(W64 - 1), Int128C(1)), Int128Add(Int128C(W64 - 1), Int128C(2)))
    ensures Int128Add(Int128C(W64 - 1), Int128C(1)) != Int128C(W64 - 1)
    ensures Int128Sub(Int128Add(Int128C(W64 - 1), Int128C(1)), Int128C(1)) == Int128C(W64 - 1)
    ensures Int128Less(Int128Add(Int128Max(), Int128C(1)), Int128Max())
  {
    Int128SubUndoesAdd(Int128C(W64 - 1), Int128C(1));
    Int128Wraps();
  }
}
