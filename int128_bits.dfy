/** The bitwise operations of int128.h. Each applies the 64-bit C operator to
    the two low words and to the two high words; the contracts state the result
    as the operator applied to all 128 bits at once. */
module Int128Bits {
  import opened Arith
  import opened Words
  import opened Int128Repr

  /** A bitwise operator on 128 bits acts separately on the high word and the low word
      of numbers a and b given with their words. */
  lemma Wordwise(op: BitOp, a: int, b: int, ah: u64, al: u64, bh: u64, bl: u64)
    requires a == ah * W64 + al && b == bh * W64 + bl
    ensures Bitwise(op, a, b, 128) == Bitwise(op, ah, bh, 64) * W64 + Bitwise(op, al, bl, 64)
  {
    Pow2Values();
    WordwiseAt(op, a, b, ah, al, bh, bl, 64, W64);
  }

  lemma WordwiseAt(op: BitOp, a: int, b: int, ah: int, al: int, bh: int, bl: int, k: nat, p: int)
    requires p == Pow2(k) && 0 <= al < p && 0 <= bl < p && a == ah * p + al && b == bh * p + bl
    ensures Bitwise(op, a, b, k + k) == Bitwise(op, ah, bh, k) * p + Bitwise(op, al, bl, k)
  {
    DivModUnique(a, p, ah, al);
    DivModUnique(b, p, bh, bl);
    BitwiseSplit(op, a, b, k, k);
  }

  /** The word-by-word form of a bitwise operator on the bits of two signed values. */
  lemma WordwiseBits(op: BitOp, x: Int128, y: Int128)
    ensures Bitwise(op, Bits(x), Bits(y), 128) == Bitwise(op, x.high, y.high, 64) * W64 + Bitwise(op, x.low, y.low, 64)
  {
    Wordwise(op, Bits(x), Bits(y), x.high, x.low, y.high, y.low);
  }

  /** The word-by-word form of a bitwise operator on two unsigned values. */
  lemma WordwiseU(op: BitOp, x: UInt128, y: UInt128)
    ensures Bitwise(op, U(x), U(y), 128) == Bitwise(op, x.high, y.high, 64) * W64 + Bitwise(op, x.low, y.low, 64)
  {
    Wordwise(op, U(x), U(y), x.high, x.low, y.high, y.low);
  }

  /** `int128_compl`. */
  function Int128Compl(x: Int128): (r: Int128)
    ensures Bits(r) == W128 - 1 - Bits(x)
    ensures S(r) == -S(x) - 1
  {
    Int128(Not64(x.low), Not64(x.high))
  }

  /** `uint128_compl`. */
  function UInt128Compl(x: UInt128): (r: UInt128)
    ensures U(r) == W128 - 1 - U(x)
  {
    UInt128(Not64(x.low), Not64(x.high))
  }

  /** `int128_and`. */
  function Int128And(lhs: Int128, rhs: Int128): (r: Int128)
    ensures Bits(r) == Bitwise(AndOp, Bits(lhs), Bits(rhs), 128)
  {
    WordwiseBits(AndOp, lhs, rhs);
    Int128(And64(lhs.low, rhs.low), And64(lhs.high, rhs.high))
  }

  /** `int128_or`. */
  function Int128Or(lhs: Int128, rhs: Int128): (r: Int128)
    ensures Bits(r) == Bitwise(OrOp, Bits(lhs), Bits(rhs), 128)
  {
    WordwiseBits(OrOp, lhs, rhs);
    Int128(Or64(lhs.low, rhs.low), Or64(lhs.high, rhs.high))
  }

  /** `int128_xor`. */
  function Int128Xor(lhs: Int128, rhs: Int128): (r: Int128)
    ensures Bits(r) == Bitwise(XorOp, Bits(lhs), Bits(rhs), 128)
  {
    WordwiseBits(XorOp, lhs, rhs);
    Int128(Xor64(lhs.low, rhs.low), Xor64(lhs.high, rhs.high))
  }

  /** `uint128_and`. */
  function UInt128And(lhs: UInt128, rhs: UInt128): (r: UInt128)
    ensures U(r) == Bitwise(AndOp, U(lhs), U(rhs), 128)
  {
    WordwiseU(AndOp, lhs, rhs);
    UInt128(And64(lhs.low, rhs.low), And64(lhs.high, rhs.high))
  }

  /** `uint128_or`. */
  function UInt128Or(lhs: UInt128, rhs: UInt128): (r: UInt128)
    ensures U(r) == Bitwise(OrOp, U(lhs), U(rhs), 128)
  {
    WordwiseU(OrOp, lhs, rhs);
    UInt128(Or64(lhs.low, rhs.low), Or64(lhs.high, rhs.high))
  }

  /** `uint128_xor`. */
  function UInt128Xor(lhs: UInt128, rhs: UInt128): (r: UInt128)
    ensures U(r) == Bitwise(XorOp, U(lhs), U(rhs), 128)
  {
    WordwiseU(XorOp, lhs, rhs);
    UInt128(Xor64(lhs.low, rhs.low), Xor64(lhs.high, rhs.high))
  }

  /** The complement is XOR with all ones, and undoes itself. */
  lemma ComplLaws(x: Int128, y: UInt128)
    ensures Int128Compl(x) == Int128Xor(x, Int128(W64 - 1, W64 - 1))
    ensures Int128Compl(Int128Compl(x)) == x
    ensures UInt128Compl(y) == UInt128Xor(y, UInt128Max())
    ensures UInt128Compl(UInt128Compl(y)) == y
  {
    NotIsComplement(x.low);
    NotIsComplement(x.high);
    NotIsComplement(y.low);
    NotIsComplement(y.high);
  }

  /** The operations give the same bits on both types. */
  lemma SameOnBothTypes(x: Int128, y: Int128)
    ensures AsUnsigned(Int128Compl(x)) == UInt128Compl(AsUnsigned(x))
    ensures AsUnsigned(Int128And(x, y)) == UInt128And(AsUnsigned(x), AsUnsigned(y))
    ensures AsUnsigned(Int128Or(x, y)) == UInt128Or(AsUnsigned(x), AsUnsigned(y))
    ensures AsUnsigned(Int128Xor(x, y)) == UInt128Xor(AsUnsigned(x), AsUnsigned(y))
  {
  }
}
