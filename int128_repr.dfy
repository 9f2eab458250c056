/** The two 128-bit types of int128.h: a pair of 64-bit words (`low`, `high`)
    read either as an unsigned number or as a two's-complement number. Every
    bit pattern is a distinct value of both types. */
module Int128Repr {
  import opened Arith
  import opened Words

  /** `struct uint128`. */
  datatype UInt128 = UInt128(low: u64, high: u64)

  /** `struct int128`: the same layout, read as two's complement. */
  datatype Int128 = Int128(low: u64, high: u64)

  /** The number an unsigned value stands for: high * 2^64 + low. */
  function U(x: UInt128): (v: nat)
    ensures v < W128
  {
    x.high * W64 + x.low
  }

  /** The bit pattern of a signed value, read as an unsigned number. */
  function Bits(x: Int128): (v: nat)
    ensures v < W128
  {
    x.high * W64 + x.low
  }

  /** The number a signed value stands for: its bits minus 2^128 when bit 63 of `high` is set. */
  function S(x: Int128): (v: int)
    ensures -W127 <= v < W127
    ensures v < 0 <==> x.high >= W63
    ensures v == ToSigned(W64, x.high) * W64 + x.low
  {
    ToSigned(W128, Bits(x))
  }

  /** The unsigned value with a given number. */
  function FromU(v: nat): (x: UInt128)
    requires v < W128
    ensures U(x) == v
  {
    UInt128(v % W64, v / W64)
  }

  /** The signed value with a given bit pattern. */
  function FromBits(v: nat): (x: Int128)
    requires v < W128
    ensures Bits(x) == v
  {
    Int128(v % W64, v / W64)
  }

  /** The words of a value are the remainder and quotient of its number by 2^64. */
  lemma UWords(x: UInt128)
    ensures x == FromU(U(x))
  {
    DivModUnique(U(x), W64, x.high, x.low);
  }

  lemma BitsWords(x: Int128)
    ensures x == FromBits(Bits(x))
  {
    DivModUnique(Bits(x), W64, x.high, x.low);
  }

  /** Distinct unsigned values stand for distinct numbers. */
  lemma UInjective(x: UInt128, y: UInt128)
    ensures U(x) == U(y) <==> x == y
  {
    UWords(x);
    UWords(y);
  }

  /** Distinct signed values stand for distinct numbers. */
  lemma SInjective(x: Int128, y: Int128)
    ensures S(x) == S(y) <==> x == y
  {
    BitsInjective(x, y);
  }

  /** Distinct signed values have distinct bit patterns. */
  lemma BitsInjective(x: Int128, y: Int128)
    ensures Bits(x) == Bits(y) <==> x == y
  {
    BitsWords(x);
    BitsWords(y);
  }

  /** A signed value whose bits are v mod 2^128 stands for the two's-complement wrap of v. */
  lemma SOfBits(x: Int128, v: int)
    requires Bits(x) == v % W128
    ensures S(x) == WrapSigned(W128, v)
  {
  }

  /** A signed value's number and its bits agree modulo 2^128. */
  lemma SMod(x: Int128)
    ensures S(x) % W128 == Bits(x) % W128 == Bits(x)
  {
    DivModUnique(Bits(x), W128, 0, Bits(x));
  }

  /** The signed readings of a wrapped sum, difference, negation and product. */
  lemma SignedResults(r: Int128, x: Int128, y: Int128)
    ensures Bits(r) == (Bits(x) + Bits(y)) % W128 ==> S(r) == WrapSigned(W128, S(x) + S(y))
    ensures Bits(r) == (Bits(x) - Bits(y)) % W128 ==> S(r) == WrapSigned(W128, S(x) - S(y))
    ensures Bits(r) == (W128 - Bits(x)) % W128 ==> S(r) == WrapSigned(W128, -S(x))
    ensures Bits(r) == (Bits(x) * Bits(y)) % W128 ==> S(r) == WrapSigned(W128, S(x) * S(y))
  {
    SignedCongruences(x, y);
  }

  /** Sums, differences, negations and products of signed values agree with those of their bits modulo 2^128. */
  lemma SignedCongruences(x: Int128, y: Int128)
    ensures (S(x) + S(y)) % W128 == (Bits(x) + Bits(y)) % W128
    ensures (S(x) - S(y)) % W128 == (Bits(x) - Bits(y)) % W128
    ensures (-S(x)) % W128 == (W128 - Bits(x)) % W128
    ensures (S(x) * S(y)) % W128 == (Bits(x) * Bits(y)) % W128
  {
    SMod(x);
    SMod(y);
    AddCongruent(S(x), S(y), Bits(x), Bits(y), W128);
    SubCongruent(S(x), S(y), Bits(x), Bits(y), W128);
    SubCongruent(0, S(x), W128, Bits(x), W128);
    MulCongruent(S(x), S(y), Bits(x), Bits(y), W128);
  }

  // ---------------------------------------------------------------------
  // The constants and constructors of int128.h

  /** `INT128_MAX`. */
  function Int128Max(): (r: Int128)
    ensures S(r) == W127 - 1
    ensures forall x :: S(x) <= S(r)
  {
    Int128(W64 - 1, 0x7fff_ffff_ffff_ffff)
  }

  /** `INT128_MIN`. */
  function Int128Min(): (r: Int128)
    ensures S(r) == -W127
    ensures forall x :: S(r) <= S(x)
  {
    Int128(0, W63)
  }

  /** `UINT128_MAX`. */
  function UInt128Max(): (r: UInt128)
    ensures U(r) == W128 - 1
    ensures forall x :: U(x) <= U(r)
  {
    UInt128(W64 - 1, W64 - 1)
  }

  /** `UINT128_C(x)`: x converted to a 64-bit word in `low`, zero in `high`. */
  function UInt128C(x: int): (r: UInt128)
    ensures r.high == 0 && U(r) == x % W64
    ensures 0 <= x < W64 ==> U(r) == x
  {
    UInt128(x % W64, 0)
  }

  /** `INT128_C(x)`: a negative x fills `high` with ones, so any int64_t or uint64_t keeps its value. */
  function Int128C(x: int): (r: Int128)
    ensures r.low == x % W64
    ensures -W63 <= x < W64 ==> S(r) == x
  {
    if x < 0 then Int128(x % W64, W64 - 1) else Int128(x % W64, 0)
  }

  /** The struct copy `(uint128){ .low = x.low, .high = x.high }`. */
  function AsUnsigned(x: Int128): (r: UInt128)
    ensures U(r) == Bits(x)
  {
    UInt128(x.low, x.high)
  }

  /** The struct copy `(int128){ .low = x.low, .high = x.high }`. */
  function AsSigned(x: UInt128): (r: Int128)
    ensures Bits(r) == U(x)
    ensures AsUnsigned(r) == x
  {
    Int128(x.low, x.high)
  }
}
