/** Division in int128.h: shift-and-subtract long division on unsigned values,
    and signed wrappers that divide the magnitudes and fix the sign. */
module Int128Div {
  import opened Arith
  import opened Words
  import opened Int128Repr
  import opened Int128Compare
  import opened Int128AddSub
  import opened Int128Bits
  import opened Int128Shift

  // ---------------------------------------------------------------------
  // When the long division ends

  /** Doubling d, starting below or at l, passes l before a bit is shifted out of 128 bits. */
  predicate DoublingStops(d: int, l: int)
    decreases W128 - d
  {
    d > l || (0 < d && 2 * d < W128 && DoublingStops(2 * d, l))
  }

  /** The inputs on which `uint128_div` and `uint128_rem` return a correct result: an early
      exit (including 0 / 0), or a non-zero divisor whose doubling loop ends without
      shifting a bit out. On every other input the doubling loop never ends, or the
      divisor wraps. */
  predicate DivDefined(lhs: UInt128, rhs: UInt128)
  {
    U(lhs) == U(rhs) || (U(rhs) != 0 && DoublingStops(U(rhs), U(lhs)))
  }

  /** A dividend below 2^127 and a non-zero divisor are enough. */
  lemma {:induction false} SmallDividendStops(d: int, l: int)
    requires 0 < d && l < W127
    ensures DoublingStops(d, l)
    decreases W128 - d
  {
    if d <= l {
      SmallDividendStops(2 * d, l);
    }
  }

  lemma SmallDividend(lhs: UInt128, rhs: UInt128)
    requires U(rhs) != 0 && U(lhs) < W127
    ensures DivDefined(lhs, rhs)
  {
    SmallDividendStops(U(rhs), U(lhs));
  }

  /** A divisor whose doubling shifts a bit out: 3 * 2^126 by 3 * 2^126 - 1 lies outside
      `DivDefined`, and its quotient is 1. */
  lemma WrappingDivisor(lhs: UInt128, rhs: UInt128)
    requires lhs == UInt128(0, 0xc000_0000_0000_0000) && rhs == UInt128(W64 - 1, 0xbfff_ffff_ffff_ffff)
    ensures U(lhs) == U(rhs) + 1 && 2 * U(rhs) >= W128
    ensures !DivDefined(lhs, rhs) && U(lhs) / U(rhs) == 1 && U(lhs) % U(rhs) == 1
  {
    DivModUnique(U(lhs), U(rhs), 1, 1);
  }

  // ---------------------------------------------------------------------
  // The steps of the two loops

  /** One turn of the doubling loop: divisor d and current c double without wrapping. */
  lemma DoubleStep(r: int, l: int, k: nat, d: int, c: int, d2: int, c2: int)
    requires 1 <= r && c == Pow2(k) && d == r * Pow2(k) && d <= l
    requires DoublingStops(d, l)
    requires d2 == (d * Pow2(1)) % W128 && c2 == (c * Pow2(1)) % W128
    ensures d2 == r * Pow2(k + 1) && d2 == 2 * d > d && c2 == Pow2(k + 1) && DoublingStops(d2, l)
  {
    assert Pow2(1) == 2 * Pow2(0);
    MulMonotone(1, r, Pow2(k));
    assert r * Pow2(k + 1) == 2 * d;
    DivModUnique(d * 2, W128, 0, d * 2);
    DivModUnique(c * 2, W128, 0, c * 2);
  }

  /** The state of the second loop: quotient q and remainder rm of n so far, with
      current c = 2^j the next quotient bit to try and d = r * 2^j the divisor shifted to
      it; j = -1 once every bit has been tried. */
  ghost predicate Walking(n: int, r: int, j: int, q: int, rm: int, d: int, c: int)
  {
    -1 <= j && c == (if j >= 0 then Pow2(j) else 0) && (j >= 0 ==> d == r * Pow2(j))
    && n == q * r + rm && 0 <= rm < r * Pow2(j + 1) && q % Pow2(j + 1) == 0
  }

  /** The state of the second loop on the variables of the C code. */
  ghost predicate WalkingAt(lhs: UInt128, rhs: UInt128, j: int, result: UInt128, remainder: UInt128,
                            divisor: UInt128, current: UInt128)
  {
    Walking(U(lhs), U(rhs), j, U(result), U(remainder), U(divisor), U(current))
  }

  /** Bit j has been decided: what is left of the remainder is below r * 2^j. */
  ghost predicate Decided(n: int, r: int, j: nat, q: int, rm: int, d: int, c: int)
  {
    c == Pow2(j) && d == r * Pow2(j) && n == q * r + rm && 0 <= rm < r * Pow2(j) && q % Pow2(j) == 0
  }

  /** Halving current c and divisor d after the doubling loop starts the second loop. */
  lemma WalkStart(n: int, r: int, j: int, q: int, rm: int, d: int, c: int, d2: int, c2: int)
    requires 0 <= j && c == Pow2(j + 1) && d == r * Pow2(j + 1) && 0 <= n < d && q == 0 && rm == n
    requires d2 == d / Pow2(1) && c2 == c / Pow2(1)
    ensures Walking(n, r, j, q, rm, d2, c2)
  {
    assert Pow2(1) == 2 * Pow2(0);
    assert d == (r * Pow2(j)) * 2;
    DivModUnique(d, 2, r * Pow2(j), 0);
    DivModUnique(c, 2, Pow2(j), 0);
  }

  /** Halving current c and divisor d moves on to the next lower bit. */
  lemma HalveStep(n: int, r: int, j: nat, q: int, rm: int, d: int, c: int, d2: int, c2: int)
    requires Decided(n, r, j, q, rm, d, c)
    requires d2 == d / Pow2(1) && c2 == c / Pow2(1)
    ensures Walking(n, r, j - 1, q, rm, d2, c2)
  {
    assert Pow2(1) == 2 * Pow2(0);
    if j >= 1 {
      assert d == (r * Pow2(j - 1)) * 2;
      DivModUnique(d, 2, r * Pow2(j - 1), 0);
      DivModUnique(c, 2, Pow2(j - 1), 0);
    }
  }

  /** The numbers of a subtracting turn: the divisor d = r * p is taken from the
      remainder and p is added to the quotient q. */
  lemma TakeArith(n: int, r: int, q: int, rm: int, p: int)
    requires 1 <= p && n == q * r + rm && rm < r * (2 * p) && q % (2 * p) == 0 && rm >= r * p
    ensures n == (q + p) * r + (rm - r * p) && rm - r * p < r * p && (q + p) % p == 0
  {
    var m := q / (2 * p);
    assert q == (2 * m) * p;
    AddMultiple(0, 2 * m + 1, p);
  }

  /** `q | c` adds c = 2^j when q has no bit at or below bit j. */
  lemma OrBit(q: nat, c: nat, j: nat)
    requires c == Pow2(j) && q % Pow2(j + 1) == 0 && q < W128 && c < W128
    ensures Bitwise(OrOp, q, c, 128) == q + c
  {
    Pow2Values();
    assert Pow2(j + 1) == 2 * Pow2(j);
    OrDisjoint(q, c, j + 1, 128);
  }

  /** A turn of the second loop that subtracts: the remainder loses d without wrapping
      and `q | c` sets bit j of the quotient. */
  lemma TakeStep(n: int, r: int, j: int, q: nat, rm: nat, d: nat, c: nat, q2: int, rm2: int)
    requires Walking(n, r, j, q, rm, d, c) && c != 0 && 1 <= r && q < W128 && rm < W128 && rm >= d
    requires rm2 == (rm - d) % W128 && q2 == Bitwise(OrOp, q, c, 128)
    ensures j >= 0 && Decided(n, r, j, q2, rm2, d, c)
  {
    DivModUnique(rm - d, W128, 0, rm - d);
    MulMonotone(1, r, Pow2(j));
    OrBit(q, c, j);
    TakeArith(n, r, q, rm, Pow2(j));
  }

  /** A turn of the second loop that does not subtract. */
  lemma SkipStep(n: int, r: int, j: int, q: int, rm: int, d: int, c: int)
    requires Walking(n, r, j, q, rm, d, c) && c != 0 && rm < d
    ensures j >= 0 && Decided(n, r, j, q, rm, d, c)
  {
    assert Pow2(j + 1) == 2 * Pow2(j);
    var m := q / (2 * Pow2(j));
    assert q == (2 * m) * Pow2(j);
    AddMultiple(0, 2 * m, Pow2(j));
  }

  /** One turn of the second loop, subtracting or not, then halving, moves down a bit. */
  lemma WalkTurn(lhs: UInt128, rhs: UInt128, j: int, result: UInt128, remainder: UInt128,
                 divisor: UInt128, current: UInt128, result2: UInt128, remainder2: UInt128,
                 divisor2: UInt128, current2: UInt128)
    requires 1 <= U(rhs) && U(current) != 0
    requires WalkingAt(lhs, rhs, j, result, remainder, divisor, current)
    requires result2 == (if U(remainder) >= U(divisor) then UInt128Or(result, current) else result)
    requires remainder2 == (if U(remainder) >= U(divisor) then UInt128Sub(remainder, divisor) else remainder)
    requires divisor2 == UInt128Shr(divisor, 1) && current2 == UInt128Shr(current, 1)
    ensures WalkingAt(lhs, rhs, j - 1, result2, remainder2, divisor2, current2)
  {
    if U(remainder) >= U(divisor) {
      TakeStep(U(lhs), U(rhs), j, U(result), U(remainder), U(divisor), U(current), U(result2), U(remainder2));
    } else {
      SkipStep(U(lhs), U(rhs), j, U(result), U(remainder), U(divisor), U(current));
    }
    HalveStep(U(lhs), U(rhs), j, U(result2), U(remainder2), U(divisor), U(current), U(divisor2), U(current2));
  }

  /** When every bit is decided, q and rm are the quotient and the remainder. */
  lemma WalkEnd(n: int, r: int, j: int, q: int, rm: int, d: int, c: int)
    requires Walking(n, r, j, q, rm, d, c) && c == 0
    ensures q == n / r && rm == n % r
  {
    DivModUnique(n, r, q, rm);
  }

  // ---------------------------------------------------------------------
  // The unsigned division

  /** The first loop of `uint128_div` and `uint128_rem`: double the divisor and the
      quotient bit `current` until the divisor passes lhs. */
  method DoubleDivisor(lhs: UInt128, rhs: UInt128) returns (divisor: UInt128, current: UInt128, ghost k: nat)
    requires 0 < U(rhs) <= U(lhs) && DoublingStops(U(rhs), U(lhs))
    ensures k >= 1 && U(current) == Pow2(k) && U(divisor) == U(rhs) * Pow2(k) && U(lhs) < U(divisor)
  {
    current := UInt128C(1);
    divisor := rhs;
    k := 0;
    while UInt128LessEq(divisor, lhs)
      invariant U(current) == Pow2(k) && U(divisor) == U(rhs) * Pow2(k)
      invariant DoublingStops(U(divisor), U(lhs))
      invariant k == 0 ==> U(divisor) <= U(lhs)
      decreases W128 - U(divisor)
    {
      ghost var d, c := U(divisor), U(current);
      divisor := UInt128Shl(divisor, 1);
      current := UInt128Shl(current, 1);
      DoubleStep(U(rhs), U(lhs), k, d, c, U(divisor), U(current));
      k := k + 1;
    }
  }

  /** The division shared by `uint128_div` and `uint128_rem`: after the doubling loop,
      walk the divisor back down, subtracting it wherever it fits and setting the
      matching bit of the quotient. */
  method ShiftSubtract(lhs: UInt128, rhs: UInt128) returns (result: UInt128, remainder: UInt128)
    requires 0 < U(rhs) < U(lhs) && DoublingStops(U(rhs), U(lhs))
    ensures U(result) == U(lhs) / U(rhs) && U(remainder) == U(lhs) % U(rhs)
  {
    var divisor, current, k := DoubleDivisor(lhs, rhs);
    ghost var d, c := U(divisor), U(current);
    divisor := UInt128Shr(divisor, 1);
    current := UInt128Shr(current, 1);
    result := UInt128C(0);
    remainder := lhs;
    ghost var j: int := k - 1;
    WalkStart(U(lhs), U(rhs), j, U(result), U(remainder), d, c, U(divisor), U(current));
    while !UInt128Eq(current, UInt128C(0))
      invariant WalkingAt(lhs, rhs, j, result, remainder, divisor, current)
      decreases j + 1
    {
      ghost var result0, remainder0, divisor0, current0 := result, remainder, divisor, current;
      if UInt128GreaterEq(remainder, divisor) {
        remainder := UInt128Sub(remainder, divisor);
        result := UInt128Or(result, current);
      }
      divisor := UInt128Shr(divisor, 1);
      current := UInt128Shr(current, 1);
      WalkTurn(lhs, rhs, j, result0, remainder0, divisor0, current0, result, remainder, divisor, current);
      j := j - 1;
    }
    WalkEnd(U(lhs), U(rhs), j, U(result), U(remainder), U(divisor), U(current));
  }

  /** `uint128_div`. */
  method UInt128Div(lhs: UInt128, rhs: UInt128) returns (result: UInt128)
    requires DivDefined(lhs, rhs)
    ensures U(rhs) != 0 ==> U(result) == U(lhs) / U(rhs)
    ensures U(rhs) == 0 ==> result == UInt128C(1)
  {
    if UInt128Greater(rhs, lhs) {
      DivModUnique(U(lhs), U(rhs), 0, U(lhs));
      return UInt128C(0);
    }
    if UInt128Eq(lhs, rhs) {
      if U(rhs) != 0 {
        DivModUnique(U(lhs), U(rhs), 1, 0);
      }
      return UInt128C(1);
    }
    var remainder;
    result, remainder := ShiftSubtract(lhs, rhs);
  }

  /** `uint128_rem`. */
  method UInt128Rem(lhs: UInt128, rhs: UInt128) returns (remainder: UInt128)
    requires DivDefined(lhs, rhs)
    ensures U(rhs) != 0 ==> U(remainder) == U(lhs) % U(rhs)
    ensures U(rhs) == 0 ==> remainder == UInt128C(0)
  {
    if UInt128Greater(rhs, lhs) {
      DivModUnique(U(lhs), U(rhs), 0, U(lhs));
      return lhs;
    }
    if UInt128Eq(lhs, rhs) {
      if U(rhs) != 0 {
        DivModUnique(U(lhs), U(rhs), 1, 0);
      }
      return UInt128C(0);
    }
    var result;
    result, remainder := ShiftSubtract(lhs, rhs);
  }

  // ---------------------------------------------------------------------
  // Reference definitions for the signed division

  function Abs(a: int): (r: nat)
    ensures r == a || r == -a
  {
    if a < 0 then -a else a
  }

  /** Division rounding toward zero, as C's `/` on signed integers. */
  function TruncDiv(a: int, b: int): int
    requires b != 0
  {
    var q := Abs(a) / Abs(b);
    if (a < 0) == (b < 0) then q else -q
  }

  /** The remainder that goes with `TruncDiv`, as C's `%` on signed integers. */
  function TruncRem(a: int, b: int): int
    requires b != 0
  {
    a - b * TruncDiv(a, b)
  }

  /** `TruncDiv` and `TruncRem` split a into a multiple of b and a remainder below |b|
      that takes the sign of a. */
  lemma TruncDivRem(a: int, b: int)
    requires b != 0
    ensures a == b * TruncDiv(a, b) + TruncRem(a, b)
    ensures TruncRem(a, b) == if a < 0 then -(Abs(a) % Abs(b) as int) else Abs(a) % Abs(b)
    ensures Abs(TruncRem(a, b)) < Abs(b) && Abs(TruncDiv(a, b)) <= Abs(a)
    ensures a >= 0 && b > 0 ==> TruncDiv(a, b) == a / b && TruncRem(a, b) == a % b
  {
    var x: int, y: int := Abs(a), Abs(b);
    var q, m := x / y, x % y;
    DivLe(x, y);
    var t := TruncDiv(a, b);
    TruncProduct(b, y, q, t, (a < 0) == (b < 0));
    assert b * t == (if a < 0 then -(q * y) else q * y);
    assert x == q * y + m;
  }

  /** The product b * TruncDiv(a, b) from the magnitude and the signs. */
  lemma TruncProduct(b: int, y: int, q: int, t: int, same: bool)
    requires y == Abs(b) && t == (if same then q else -q)
    ensures b * t == if same == (b < 0) then -(q * y) else q * y
  {
    if b < 0 {
      assert b == -y;
    }
  }

  /** The number `int128_less(x, INT128_C(0))` and `int128_greater` treat x as: its
      signed value, except that the values with high == 0 and low >= 2^63 count as
      their unsigned value less 2^128. */
  function Tested(x: Int128): (t: int)
    ensures t == 0 <==> x == Int128C(0)
  {
    SInjective(x, Int128C(0));
    if CompareQuirk(x) then S(x) - W128 else S(x)
  }

  /** `int128_less(x, INT128_C(0))` holds exactly when Tested(x) is negative. */
  lemma TestedSign(x: Int128)
    ensures Int128Less(x, Int128C(0)) <==> Tested(x) < 0
    ensures !CompareQuirk(x) ==> Tested(x) == S(x)
    ensures Tested(x) == 0 <==> x == Int128C(0)
  {
    SignTests(x);
    SInjective(x, Int128C(0));
  }

  /** The unsigned operand the signed division hands on: x, negated first when it tests negative. */
  function Magnitude(x: Int128): (m: UInt128)
  {
    if Int128Less(x, Int128C(0)) then AsUnsigned(Int128Neg(x)) else AsUnsigned(x)
  }

  /** The operand handed on is the magnitude of the tested value, INT128_MIN included. */
  lemma MagnitudeValue(x: Int128)
    ensures U(Magnitude(x)) == Abs(Tested(x))
  {
    SignTests(x);
    if S(x) < 0 {
      assert Bits(x) == S(x) + W128;
      DivModUnique(W128 - Bits(x), W128, 0, W128 - Bits(x));
    } else if CompareQuirk(x) {
      assert Bits(x) == S(x);
      DivModUnique(W128 - Bits(x), W128, 0, W128 - Bits(x));
    }
  }

  /** Without the compare quirk in the dividend, any non-zero divisor can be handed on. */
  lemma PlainDivDefined(lhs: Int128, rhs: Int128)
    requires lhs != Int128Min() && !CompareQuirk(lhs) && rhs != Int128C(0)
    ensures DivDefined(Magnitude(lhs), Magnitude(rhs))
  {
    MagnitudeValue(lhs);
    MagnitudeValue(rhs);
    TestedSign(lhs);
    TestedSign(rhs);
    SInjective(lhs, Int128Min());
    SmallDividend(Magnitude(lhs), Magnitude(rhs));
  }

  /** The remainder `int128_rem` computes from the tested operands: |a| % |b|, negated
      when a tests negative, except that a remainder the signed comparison does not see as
      positive (2^63 <= m < 2^64, or m >= 2^127) keeps its positive value. */
  function RemAsWritten(a: int, b: int): int
    requires b != 0
  {
    var m := Abs(a) % Abs(b);
    if a < 0 && 0 < m < W127 && !(W63 <= m < W64) then -m else m
  }

  /** `RemAsWritten` is C's `%` except on a negative dividend whose remainder has
      magnitude in [2^63, 2^64), where it has the wrong sign. */
  lemma RemAsWrittenAgrees(a: int, b: int)
    requires b != 0
    ensures var m := Abs(a) % Abs(b); (m < W63 || W64 <= m < W127) ==> RemAsWritten(a, b) == TruncRem(a, b)
    ensures var m := Abs(a) % Abs(b); a < 0 && W63 <= m < W64 ==> RemAsWritten(a, b) == -TruncRem(a, b) > 0
  {
    TruncDivRem(a, b);
  }

  /** The values the signed comparison misjudges are those whose bits lie in [2^63, 2^64). */
  lemma QuirkRange(x: Int128)
    ensures CompareQuirk(x) <==> W63 <= Bits(x) < W64
  {
    if x.high != 0 {
      MulMonotone(1, x.high, W64);
    }
  }

  /** A signed value whose bits are q, or -q reduced, stands for the wrap of q or -q. */
  lemma SignedOf(r: Int128, q: int, negate: bool)
    requires 0 <= q < W128
    requires Bits(r) == if negate then (W128 - q) % W128 else q
    ensures S(r) == WrapSigned(W128, if negate then -q else q)
  {
    if negate {
      AddMultiple(-q, 1, W128);
      SOfBits(r, -q);
    } else {
      DivModUnique(q, W128, 0, q);
      SOfBits(r, q);
    }
  }

  /** The bits of the unsigned result, negated or not. */
  lemma NegatedBits(c: UInt128, negate: bool, result: Int128)
    requires result == if negate then Int128Neg(AsSigned(c)) else AsSigned(c)
    ensures Bits(result) == if negate then (W128 - U(c)) % W128 else U(c)
  {
  }

  /** The quotient `int128_div` builds from the unsigned quotient of the magnitudes. */
  lemma DivOutcome(a: int, b: int, ma: int, mb: int, q: int, negate: bool, result: Int128)
    requires b != 0
    requires ma == Abs(a)
    requires mb == Abs(b)
    requires mb != 0 ==> q == ma / mb
    requires 0 <= q < W128
    requires negate == ((a < 0) != (b < 0))
    requires Bits(result) == if negate then (W128 - q) % W128 else q
    ensures S(result) == WrapSigned(W128, TruncDiv(a, b))
  {
    SignedOf(result, q, negate);
  }

  /** Without the compare quirk, the quotient is C's `/`. */
  lemma PlainQuotient(lhs: Int128, rhs: Int128, r: Int128)
    requires lhs != Int128Min() && !CompareQuirk(lhs) && !CompareQuirk(rhs) && rhs != Int128C(0)
    requires S(r) == WrapSigned(W128, TruncDiv(Tested(lhs), Tested(rhs)))
    ensures S(r) == TruncDiv(S(lhs), S(rhs))
  {
    TestedSign(lhs);
    TestedSign(rhs);
    SInjective(lhs, Int128Min());
    TruncDivRem(S(lhs), S(rhs));
    WrapSignedUnique(W128, TruncDiv(S(lhs), S(rhs)), TruncDiv(S(lhs), S(rhs)));
  }

  /** The remainder `int128_rem` builds from the unsigned remainder of the magnitudes. */
  lemma RemOutcome(lhs: Int128, rhs: Int128, c: UInt128, result: Int128)
    requires rhs != Int128C(0)
    requires U(c) == U(Magnitude(lhs)) % U(Magnitude(rhs))
    requires result == if Int128Less(lhs, Int128C(0)) && Int128Greater(AsSigned(c), Int128C(0))
                       then Int128Neg(AsSigned(c)) else AsSigned(c)
    ensures S(result) == WrapSigned(W128, RemAsWritten(Tested(lhs), Tested(rhs)))
  {
    MagnitudeValue(lhs);
    MagnitudeValue(rhs);
    TestedSign(lhs);
    TestedSign(rhs);
    SignTests(AsSigned(c));
    QuirkRange(AsSigned(c));
    SignedOf(result, U(c), Int128Less(lhs, Int128C(0)) && Int128Greater(AsSigned(c), Int128C(0)));
  }

  /** Without the compare quirk, and away from the misjudged remainders, the remainder is C's `%`. */
  lemma PlainRemainder(lhs: Int128, rhs: Int128, r: Int128)
    requires lhs != Int128Min() && rhs != Int128Min() && !CompareQuirk(lhs) && !CompareQuirk(rhs)
    requires rhs != Int128C(0) && !(W63 <= Abs(S(lhs)) % Abs(S(rhs)) < W64)
    requires S(r) == WrapSigned(W128, RemAsWritten(Tested(lhs), Tested(rhs)))
    ensures S(r) == TruncRem(S(lhs), S(rhs))
  {
    TestedSign(lhs);
    TestedSign(rhs);
    SInjective(rhs, Int128Min());
    RemAsWrittenAgrees(S(lhs), S(rhs));
    TruncDivRem(S(lhs), S(rhs));
    WrapSignedUnique(W128, TruncRem(S(lhs), S(rhs)), TruncRem(S(lhs), S(rhs)));
  }

  /** Any value other than INT128_MIN is its own remainder on division by INT128_MIN. */
  lemma MinDivisorRem(lhs: Int128, rhs: Int128)
    requires lhs != Int128Min() && rhs == Int128Min()
    ensures TruncRem(S(lhs), S(rhs)) == S(lhs)
  {
    SInjective(lhs, Int128Min());
    TruncDivRem(S(lhs), S(rhs));
    DivModUnique(Abs(S(lhs)), W127, 0, Abs(S(lhs)));
  }

  // ---------------------------------------------------------------------
  // The signed division

  /** The cases of `int128_div` once INT128_MIN as dividend is out of the way. */
  lemma DivCases(lhs: Int128, rhs: Int128, c: UInt128, result: Int128)
    requires lhs != Int128Min() && DivDefined(Magnitude(lhs), Magnitude(rhs))
    requires U(Magnitude(rhs)) != 0 ==> U(c) == U(Magnitude(lhs)) / U(Magnitude(rhs))
    requires U(Magnitude(rhs)) == 0 ==> c == UInt128C(1)
    requires result == if Int128Less(lhs, Int128C(0)) != Int128Less(rhs, Int128C(0))
                       then Int128Neg(AsSigned(c)) else AsSigned(c)
    ensures rhs == Int128C(0) ==> result == Int128C(1)
    ensures rhs != Int128C(0) ==> S(result) == WrapSigned(W128, TruncDiv(Tested(lhs), Tested(rhs)))
    ensures !CompareQuirk(lhs) && !CompareQuirk(rhs) && rhs != Int128C(0) ==> S(result) == TruncDiv(S(lhs), S(rhs))
  {
    MagnitudeValue(lhs);
    MagnitudeValue(rhs);
    TestedSign(lhs);
    TestedSign(rhs);
    if rhs != Int128C(0) {
      var negate := Int128Less(lhs, Int128C(0)) != Int128Less(rhs, Int128C(0));
      NegatedBits(c, negate, result);
      DivOutcome(Tested(lhs), Tested(rhs), U(Magnitude(lhs)), U(Magnitude(rhs)), U(c), negate, result);
      if !CompareQuirk(lhs) && !CompareQuirk(rhs) {
        PlainQuotient(lhs, rhs, result);
      }
    }
  }

  /** `int128_div`: INT128_MIN divided by anything but itself gives 0; otherwise the
      magnitudes are divided unsigned and the quotient negated when exactly one operand
      tests negative. */
  method Int128Div(lhs: Int128, rhs: Int128) returns (result: Int128)
    requires lhs == Int128Min() || DivDefined(Magnitude(lhs), Magnitude(rhs))
    ensures lhs == Int128Min() ==> result == if rhs == Int128Min() then Int128C(1) else Int128C(0)
    ensures lhs != Int128Min() && rhs == Int128C(0) ==> result == Int128C(1)
    ensures lhs != Int128Min() && rhs != Int128C(0) ==>
              S(result) == WrapSigned(W128, TruncDiv(Tested(lhs), Tested(rhs)))
    ensures lhs != Int128Min() && !CompareQuirk(lhs) && !CompareQuirk(rhs) && rhs != Int128C(0) ==>
              S(result) == TruncDiv(S(lhs), S(rhs))
  {
    if Int128Eq(lhs, rhs) && Int128Eq(lhs, Int128Min()) {
      return Int128C(1);
    }
    if Int128Eq(lhs, Int128Min()) {
      return Int128C(0);
    }
    var resultNegative := false;
    var lhs', rhs' := lhs, rhs;
    if Int128Less(lhs', Int128C(0)) {
      resultNegative := !resultNegative;
      lhs' := Int128Neg(lhs');
    }
    if Int128Less(rhs', Int128C(0)) {
      resultNegative := !resultNegative;
      rhs' := Int128Neg(rhs');
    }
    var a, b := AsUnsigned(lhs'), AsUnsigned(rhs');
    assert a == Magnitude(lhs) && b == Magnitude(rhs);
    assert resultNegative == (Int128Less(lhs, Int128C(0)) != Int128Less(rhs, Int128C(0)));
    var c := UInt128Div(a, b);
    result := AsSigned(c);
    if resultNegative {
      result := Int128Neg(result);
    }
    DivCases(lhs, rhs, c, result);
  }

  /** The cases of `int128_rem` once INT128_MIN as either operand is out of the way. */
  lemma RemCases(lhs: Int128, rhs: Int128, c: UInt128, result: Int128)
    requires lhs != Int128Min() && rhs != Int128Min() && DivDefined(Magnitude(lhs), Magnitude(rhs))
    requires U(Magnitude(rhs)) != 0 ==> U(c) == U(Magnitude(lhs)) % U(Magnitude(rhs))
    requires U(Magnitude(rhs)) == 0 ==> c == UInt128C(0)
    requires result == if Int128Less(lhs, Int128C(0)) && Int128Greater(AsSigned(c), Int128C(0))
                       then Int128Neg(AsSigned(c)) else AsSigned(c)
    ensures rhs == Int128C(0) ==> result == Int128C(0)
    ensures rhs != Int128C(0) ==> S(result) == WrapSigned(W128, RemAsWritten(Tested(lhs), Tested(rhs)))
    ensures !CompareQuirk(lhs) && !CompareQuirk(rhs) && rhs != Int128C(0) && !(W63 <= Abs(S(lhs)) % Abs(S(rhs)) < W64) ==>
              S(result) == TruncRem(S(lhs), S(rhs))
  {
    MagnitudeValue(lhs);
    MagnitudeValue(rhs);
    TestedSign(lhs);
    TestedSign(rhs);
    if rhs != Int128C(0) {
      RemOutcome(lhs, rhs, c, result);
      if !CompareQuirk(lhs) && !CompareQuirk(rhs) && !(W63 <= Abs(S(lhs)) % Abs(S(rhs)) < W64) {
        PlainRemainder(lhs, rhs, result);
      }
    }
  }

  /** `int128_rem`: INT128_MIN as dividend gives 0 and as divisor gives the dividend;
      otherwise the magnitudes are divided unsigned and the remainder negated when the
      dividend tests negative and the remainder tests greater than zero. */
  method Int128Rem(lhs: Int128, rhs: Int128) returns (result: Int128)
    requires lhs == Int128Min() || rhs == Int128Min() || DivDefined(Magnitude(lhs), Magnitude(rhs))
    ensures lhs == Int128Min() ==> result == Int128C(0)
    ensures lhs != Int128Min() && rhs == Int128Min() ==> result == lhs
    ensures lhs != Int128Min() && rhs == Int128C(0) ==> result == Int128C(0)
    ensures lhs != Int128Min() && rhs != Int128Min() && rhs != Int128C(0) ==>
              S(result) == WrapSigned(W128, RemAsWritten(Tested(lhs), Tested(rhs)))
    ensures (lhs != Int128Min() && !CompareQuirk(lhs) && !CompareQuirk(rhs) && rhs != Int128C(0) &&
             !(W63 <= Abs(S(lhs)) % Abs(S(rhs)) < W64)) ==>
              S(result) == TruncRem(S(lhs), S(rhs))
  {
    if Int128Eq(lhs, Int128Min()) {
      return Int128C(0);
    }
    if Int128Eq(rhs, Int128Min()) {
      MinDivisorRem(lhs, rhs);
      return lhs;
    }
    var resultNegative := false;
    var lhs', rhs' := lhs, rhs;
    if Int128Less(lhs', Int128C(0)) {
      resultNegative := true;
      lhs' := Int128Neg(lhs');
    }
    if Int128Less(rhs', Int128C(0)) {
      rhs' := Int128Neg(rhs');
    }
    var a, b := AsUnsigned(lhs'), AsUnsigned(rhs');
    assert a == Magnitude(lhs) && b == Magnitude(rhs);
    assert resultNegative == Int128Less(lhs, Int128C(0));
    var c := UInt128Rem(a, b);
    result := AsSigned(c);
    if resultNegative && Int128Greater(result, Int128C(0)) {
      result := Int128Neg(result);
    }
    RemCases(lhs, rhs, c, result);
  }

  // ---------------------------------------------------------------------
  // Examples

  /** test.c divides a value with high word 2 * 10^8 by 2 and gets high word 10^8;
      INT128_MIN divided by 1 gives 0; 2^63, a quirk value, divided by INT128_MAX gives
      -1; and -2^63 % 2^64 gives +2^63 where C's `%` gives -2^63. */
  method Int128DivExamples() returns (halved: Int128, minByOne: Int128, quirkQuotient: Int128, quirkRemainder: Int128)
    ensures Int128Eq(halved, Int128(0, 100000000))
    ensures minByOne == Int128C(0)
    ensures quirkQuotient == Int128C(-1)
    ensures S(quirkRemainder) == W63 && TruncRem(S(Int128C(-W63)), S(Int128(0, 1))) == -W63
  {
    var big, two := Int128(0, 200000000), Int128C(2);
    PlainDivDefined(big, two);
    halved := Int128Div(big, two);
    Halving(big, halved, 100000000);
    minByOne := Int128Div(Int128Min(), Int128C(1));
    QuirkDivDefined(Int128(W63, 0), Int128Max());
    quirkQuotient := Int128Div(Int128(W63, 0), Int128Max());
    QuirkQuotient(Int128(W63, 0), Int128Max(), quirkQuotient);
    var negative, divisor := Int128C(-W63), Int128(0, 1);
    PlainDivDefined(negative, divisor);
    quirkRemainder := Int128Rem(negative, divisor);
    QuirkRemainder(negative, divisor, quirkRemainder);
  }

  /** A high word of 2h divided by 2 is a high word of h. */
  lemma Halving(x: Int128, r: Int128, h: int)
    requires 0 < h < W63 / 2 && x == Int128(0, 2 * h)
    requires S(r) == TruncDiv(S(x), S(Int128C(2)))
    ensures r == Int128(0, h)
  {
    assert S(x) == (2 * h) * W64;
    assert S(Int128C(2)) == 2;
    DivModUnique((2 * h) * W64, 2, h * W64, 0);
    SInjective(r, Int128(0, h));
  }

  /** 2^128 - 2^63 is divided by 2^127 - 1 once the divisor has doubled once. */
  lemma QuirkDivDefined(x: Int128, y: Int128)
    requires x == Int128(W63, 0) && y == Int128Max()
    ensures DivDefined(Magnitude(x), Magnitude(y))
  {
    MagnitudeValue(x);
    MagnitudeValue(y);
    assert DoublingStops(W128 - 2, W128 - W63);
    assert DoublingStops(W127 - 1, W128 - W63);
  }

  lemma QuirkQuotient(x: Int128, y: Int128, r: Int128)
    requires x == Int128(W63, 0) && y == Int128Max()
    requires S(r) == WrapSigned(W128, TruncDiv(Tested(x), Tested(y)))
    ensures r == Int128C(-1)
  {
    assert Tested(x) == W63 - W128 && Tested(y) == W127 - 1;
    DivModUnique(W128 - W63, W127 - 1, 1, W127 - W63 + 1);
    WrapSignedUnique(W128, -1, -1);
    SInjective(r, Int128C(-1));
  }

  lemma QuirkRemainder(x: Int128, y: Int128, r: Int128)
    requires x == Int128C(-W63) && y == Int128(0, 1)
    requires S(r) == WrapSigned(W128, RemAsWritten(Tested(x), Tested(y)))
    ensures S(r) == W63 && TruncRem(S(x), S(y)) == -W63
  {
    assert Tested(x) == -W63 && Tested(y) == W64;
    DivModUnique(W63, W64, 0, W63);
    WrapSignedUnique(W128, W63, W63);
    TruncDivRem(-W63, W64);
  }
}
