/** The comparisons of int128.h. The unsigned ones order by the number a value
    stands for. The signed ones compare the high words as int64_t and break a
    tie by comparing the low words as int64_t as well, which is the two's-
    complement order except when the low words differ in their top bit. */
module Int128Compare {
  import opened Arith
  import opened Words
  import opened Int128Repr

  /** `uint128_less`. */
  function UInt128Less(lhs: UInt128, rhs: UInt128): (r: bool)
    ensures r <==> U(lhs) < U(rhs)
  {
    if lhs.high == rhs.high then lhs.low < rhs.low else lhs.high < rhs.high
  }

  /** `uint128_greater`. */
  function UInt128Greater(lhs: UInt128, rhs: UInt128): (r: bool)
    ensures r <==> U(lhs) > U(rhs)
    ensures r <==> UInt128Less(rhs, lhs)
  {
    if lhs.high == rhs.high then lhs.low > rhs.low else lhs.high > rhs.high
  }

  /** `uint128_eq`. */
  function UInt128Eq(lhs: UInt128, rhs: UInt128): (r: bool)
    ensures r <==> lhs == rhs
    ensures r <==> U(lhs) == U(rhs)
  {
    UInjective(lhs, rhs);
    lhs.low == rhs.low && lhs.high == rhs.high
  }

  /** `uint128_less_eq`. */
  function UInt128LessEq(lhs: UInt128, rhs: UInt128): (r: bool)
    ensures r <==> U(lhs) <= U(rhs)
  {
    UInt128Less(lhs, rhs) || UInt128Eq(lhs, rhs)
  }

  /** `uint128_greater_eq`. */
  function UInt128GreaterEq(lhs: UInt128, rhs: UInt128): (r: bool)
    ensures r <==> U(lhs) >= U(rhs)
  {
    UInt128Greater(lhs, rhs) || UInt128Eq(lhs, rhs)
  }

  /** The key the signed comparisons order by: both words read as int64_t. */
  function SignedKey(x: Int128): int
  {
    ToSigned(W64, x.high) * W64 + ToSigned(W64, x.low)
  }

  /** The key differs from the value only by 2^64 when the top bit of `low` is set. */
  lemma SignedKeyOfValue(x: Int128)
    ensures SignedKey(x) == S(x) - (if x.low >= W63 then W64 else 0)
  {
  }

  /** Distinct values have distinct keys, so the key order is a strict total order on values. */
  lemma SignedKeyInjective(x: Int128, y: Int128)
    ensures SignedKey(x) == SignedKey(y) <==> x == y
  {
    if SignedKey(x) == SignedKey(y) {
      var hx, hy := ToSigned(W64, x.high), ToSigned(W64, y.high);
      var lx, ly := ToSigned(W64, x.low), ToSigned(W64, y.low);
      var k := SignedKey(x) + W63 * W64 + W63;
      assert k == (hx + W63) * W64 + (lx + W63);
      assert k == (hy + W63) * W64 + (ly + W63);
      DivModUnique(k, W64, hx + W63, lx + W63);
      DivModUnique(k, W64, hy + W63, ly + W63);
    }
  }

  /** `int128_less`: the high words compared as int64_t, ties broken by the low words as int64_t. */
  function Int128Less(lhs: Int128, rhs: Int128): (r: bool)
    ensures r <==> SignedKey(lhs) < SignedKey(rhs)
    ensures lhs.high != rhs.high ==> (r <==> S(lhs) < S(rhs))
    ensures (lhs.low < W63 <==> rhs.low < W63) ==> (r <==> S(lhs) < S(rhs))
  {
    var cvt, cvt2 := ToSigned(W64, lhs.high), ToSigned(W64, rhs.high);
    if cvt == cvt2 then ToSigned(W64, lhs.low) < ToSigned(W64, rhs.low) else cvt < cvt2
  }

  /** `int128_greater`. */
  function Int128Greater(lhs: Int128, rhs: Int128): (r: bool)
    ensures r <==> SignedKey(lhs) > SignedKey(rhs)
    ensures r <==> Int128Less(rhs, lhs)
    ensures lhs.high != rhs.high ==> (r <==> S(lhs) > S(rhs))
    ensures (lhs.low < W63 <==> rhs.low < W63) ==> (r <==> S(lhs) > S(rhs))
  {
    var cvt, cvt2 := ToSigned(W64, lhs.high), ToSigned(W64, rhs.high);
    if cvt == cvt2 then ToSigned(W64, lhs.low) > ToSigned(W64, rhs.low) else cvt > cvt2
  }

  /** `int128_eq`. */
  function Int128Eq(lhs: Int128, rhs: Int128): (r: bool)
    ensures r <==> lhs == rhs
    ensures r <==> S(lhs) == S(rhs)
  {
    SInjective(lhs, rhs);
    lhs.low == rhs.low && lhs.high == rhs.high
  }

  /** `int128_less_eq`. */
  function Int128LessEq(lhs: Int128, rhs: Int128): (r: bool)
    ensures r <==> SignedKey(lhs) <= SignedKey(rhs)
  {
    SignedKeyInjective(lhs, rhs);
    Int128Less(lhs, rhs) || Int128Eq(lhs, rhs)
  }

  /** `int128_greater_eq`. */
  function Int128GreaterEq(lhs: Int128, rhs: Int128): (r: bool)
    ensures r <==> SignedKey(lhs) >= SignedKey(rhs)
  {
    SignedKeyInjective(lhs, rhs);
    Int128Greater(lhs, rhs) || Int128Eq(lhs, rhs)
  }

  /** The unsigned comparisons are a strict total order and its reflexive closure. */
  lemma UnsignedOrderLaws(a: UInt128, b: UInt128, c: UInt128)
    ensures !UInt128Less(a, a) && !UInt128Greater(a, a)
    ensures UInt128Less(a, b) <==> UInt128Greater(b, a)
    ensures UInt128Less(a, b) && UInt128Less(b, c) ==> UInt128Less(a, c)
    ensures UInt128Less(a, b) || UInt128Eq(a, b) || UInt128Greater(a, b)
    ensures UInt128Less(a, b) ==> !UInt128Eq(a, b) && !UInt128Greater(a, b)
    ensures UInt128LessEq(a, b) <==> UInt128Less(a, b) || a == b
    ensures UInt128GreaterEq(a, b) <==> UInt128Greater(a, b) || a == b
  {
  }

  /** The signed comparisons are a strict total order (on keys) and its reflexive closure. */
  lemma SignedOrderLaws(a: Int128, b: Int128, c: Int128)
    ensures !Int128Less(a, a) && !Int128Greater(a, a)
    ensures Int128Less(a, b) <==> Int128Greater(b, a)
    ensures Int128Less(a, b) && Int128Less(b, c) ==> Int128Less(a, c)
    ensures Int128Less(a, b) || Int128Eq(a, b) || Int128Greater(a, b)
    ensures Int128Less(a, b) ==> !Int128Eq(a, b) && !Int128Greater(a, b)
    ensures Int128LessEq(a, b) <==> Int128Less(a, b) || a == b
    ensures Int128GreaterEq(a, b) <==> Int128Greater(a, b) || a == b
  {
    SignedKeyInjective(a, b);
  }

  /** The values whose sign the signed comparisons misjudge: non-negative, but `low` reads as a negative int64_t. */
  predicate CompareQuirk(x: Int128)
  {
    x.high == 0 && x.low >= W63
  }

  /** Comparing against `INT128_C(0)` tests the sign, except on the quirk values. */
  lemma SignTests(x: Int128)
    ensures Int128Less(x, Int128C(0)) <==> S(x) < 0 || CompareQuirk(x)
    ensures Int128Greater(x, Int128C(0)) <==> S(x) > 0 && !CompareQuirk(x)
  {
  }

  /** 2^63, a positive number, tests as less than zero and not greater than zero. */
  lemma QuirkExample()
    ensures S(Int128(W63, 0)) == W63
    ensures Int128Less(Int128(W63, 0), Int128C(0))
    ensures !Int128Greater(Int128(W63, 0), Int128C(0))
  {
  }
}
