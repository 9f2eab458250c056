/** Fixed-width machine words on unbounded integers: the 64-bit unsigned word
    of C with its wrapping arithmetic, shift and bitwise operators, and the
    two's-complement reading of a word's bits under any even modulus. */
module Words {
  import opened Arith

  const W32: int := 0x1_0000_0000
  const W63: int := 0x8000_0000_0000_0000
  const W64: int := 0x1_0000_0000_0000_0000
  const W127: int := 0x8000_0000_0000_0000_0000_0000_0000_0000
  const W128: int := 0x1_0000_0000_0000_0000_0000_0000_0000_0000

  /** C's uint64_t. */
  type u64 = x: int | 0 <= x < 0x1_0000_0000_0000_0000

  /** C's int64_t. */
  type i64 = x: int | -0x8000_0000_0000_0000 <= x < 0x8000_0000_0000_0000

  function Pow2(n: nat): (r: nat)
    ensures r >= 1
  {
    if n == 0 then 1 else 2 * Pow2(n - 1)
  }

  lemma {:induction false} Pow2Add(a: nat, b: nat)
    ensures Pow2(a + b) == Pow2(a) * Pow2(b)
  {
    if a > 0 {
      Pow2Add(a - 1, b);
      assert Pow2(a + b) == 2 * Pow2(a - 1 + b);
    }
  }

  lemma {:induction false} Pow2Monotone(a: nat, b: nat)
    requires a < b
    ensures 2 * Pow2(a) <= Pow2(b)
  {
    if a + 1 < b {
      Pow2Monotone(a, b - 1);
    }
  }

  lemma Pow2Values()
    ensures Pow2(1) == 2 && Pow2(32) == W32 && Pow2(63) == W63 && Pow2(64) == W64
    ensures Pow2(127) == W127 && Pow2(128) == W128
  {
    Pow2Add(16, 16);
    assert Pow2(16) == 0x1_0000 by { Pow2Add(8, 8); }
    Pow2Add(32, 31);
    assert Pow2(31) == 0x8000_0000 by { Pow2Add(16, 15); assert Pow2(15) == 0x8000; }
    Pow2Add(32, 32);
    Pow2Add(64, 63);
    Pow2Add(64, 64);
  }

  // ---------------------------------------------------------------------
  // Two's-complement reinterpretation (the union punning of the C code)

  /** The bits of an unsigned value below modulus m, read as two's complement. */
  function ToSigned(m: nat, u: int): (i: int)
    requires 0 < m && m % 2 == 0 && 0 <= u < m
    ensures -(m / 2) <= i < m / 2
    ensures i % m == u
  {
    if u < m / 2 then
      DivModUnique(u, m, 0, u);
      u
    else
      DivModUnique(u - m, m, -1, u);
      u - m
  }

  /** The bits of a two's-complement value, read as unsigned below modulus m. */
  function ToUnsigned(m: nat, i: int): (u: int)
    requires 0 < m && m % 2 == 0 && -(m / 2) <= i < m / 2
    ensures 0 <= u < m
    ensures u == i % m
    ensures ToSigned(m, u) == i
  {
    if i < 0 then
      DivModUnique(i, m, -1, i + m);
      i + m
    else
      DivModUnique(i, m, 0, i);
      i
  }

  /** The two's-complement value congruent to x modulo m. */
  function WrapSigned(m: nat, x: int): (i: int)
    requires 0 < m && m % 2 == 0
    ensures -(m / 2) <= i < m / 2
    ensures i % m == x % m
  {
    ToSigned(m, x % m)
  }

  /** Only one two's-complement value lies in each residue class. */
  lemma WrapSignedUnique(m: nat, x: int, i: int)
    requires 0 < m && m % 2 == 0
    requires -(m / 2) <= i < m / 2 && i % m == x % m
    ensures WrapSigned(m, x) == i
  {
    var j := WrapSigned(m, x);
    SignedResidue(m, i, x % m);
    SignedResidue(m, j, x % m);
  }

  /** A value of the signed range is determined by its residue r: it is r or r - m. */
  lemma SignedResidue(m: nat, i: int, r: int)
    requires 0 < m && -(m / 2) <= i < m / 2 && i % m == r
    ensures i == if r < m / 2 then r else r - m
  {
    if i >= 0 {
      DivModUnique(i, m, 0, i);
    } else {
      DivModUnique(i, m, -1, i + m);
    }
  }

  // ---------------------------------------------------------------------
  // The C operators on uint64_t

  /** `a + b` on uint64_t. */
  function Add64(a: u64, b: u64): u64 { (a + b) % W64 }

  /** `a - b` on uint64_t. */
  function Sub64(a: u64, b: u64): u64 { (a - b) % W64 }

  /** `a * b` on uint64_t. */
  function Mul64(a: u64, b: u64): u64 { (a * b) % W64 }

  /** `~a` on uint64_t. */
  function Not64(a: u64): u64 { W64 - 1 - a }

  /** `a << n` on uint64_t, defined for shift counts below the width. */
  function Shl64(a: u64, n: int): u64
    requires 0 <= n < 64
  {
    (a * Pow2(n)) % W64
  }

  /** `a >> n` on uint64_t, defined for shift counts below the width. */
  function Shr64(a: u64, n: int): u64
    requires 0 <= n < 64
  {
    DivLe(a, Pow2(n));
    a / Pow2(n)
  }

  // ---------------------------------------------------------------------
  // Bitwise operators, bit by bit from the least significant bit

  datatype BitOp = AndOp | OrOp | XorOp

  function ApplyBit(op: BitOp, x: nat, y: nat): nat
    requires x < 2 && y < 2
  {
    match op
    case AndOp => x * y
    case OrOp => if x == 1 || y == 1 then 1 else 0
    case XorOp => if x == y then 0 else 1
  }

  /** The w low bits of `op` applied pairwise to the bits of a and b. The operands
      are listed in the decreases clause so that the definition is unfolded at a
      literal width only when the operands are literals too. */
  function Bitwise(op: BitOp, a: int, b: int, w: nat): (r: nat)
    ensures r < Pow2(w)
    decreases w, a, b
  {
    if w == 0 then 0 else ApplyBit(op, a % 2, b % 2) + 2 * Bitwise(op, a / 2, b / 2, w - 1)
  }

  /** `a & b` on uint64_t. */
  function And64(a: u64, b: u64): u64 { Pow2Values(); Bitwise(AndOp, a, b, 64) }

  /** `a | b` on uint64_t. */
  function Or64(a: u64, b: u64): u64 { Pow2Values(); Bitwise(OrOp, a, b, 64) }

  /** `a ^ b` on uint64_t. */
  function Xor64(a: u64, b: u64): u64 { Pow2Values(); Bitwise(XorOp, a, b, 64) }

  /** AND with zero clears every bit. */
  lemma {:induction false} AndZero(a: nat, w: nat)
    ensures Bitwise(AndOp, a, 0, w) == 0
  {
    if w > 0 {
      AndZero(a / 2, w - 1);
    }
  }

  /** OR and XOR with zero keep every bit. */
  lemma {:induction false} KeepWithZero(op: BitOp, a: nat, w: nat)
    requires op != AndOp && a < Pow2(w)
    ensures Bitwise(op, a, 0, w) == a
  {
    if w > 0 {
      KeepWithZero(op, a / 2, w - 1);
    }
  }

  /** OR of values with no bit in common is their sum: a has no bit below k, b none from k up. */
  lemma {:induction false} OrDisjoint(a: nat, b: nat, k: nat, w: nat)
    requires a < Pow2(w) && b < Pow2(w)
    requires a % Pow2(k) == 0 && b < Pow2(k)
    ensures Bitwise(OrOp, a, b, w) == a + b
  {
    if w == 0 {
    } else if k == 0 {
      assert b == 0;
      KeepWithZero(OrOp, a, w);
    } else {
      OrDisjointStep(a, b, Pow2(k - 1), Pow2(w - 1));
      OrDisjoint(a / 2, b / 2, k - 1, w - 1);
      assert Bitwise(OrOp, a, b, w) == b % 2 + 2 * Bitwise(OrOp, a / 2, b / 2, w - 1);
    }
  }

  /** One bit of `OrDisjoint`: with p == 2^(k-1) and pw == 2^(w-1), halving keeps the hypotheses. */
  lemma OrDisjointStep(a: nat, b: nat, p: nat, pw: nat)
    requires 1 <= p && 1 <= pw && a < 2 * pw && b < 2 * pw && a % (2 * p) == 0 && b < 2 * p
    ensures a % 2 == 0 && a / 2 < pw && b / 2 < pw && (a / 2) % p == 0 && b / 2 < p
    ensures a + b == b % 2 + 2 * (a / 2 + b / 2)
  {
    var c := a / (2 * p);
    assert a == (c * p) * 2 + 0;
    DivModUnique(a, 2, c * p, 0);
    DivModUnique(c * p, p, c, 0);
    assert b == (b / 2) * 2 + b % 2;
  }

  /** AND with a mask of the k low bits is the remainder modulo 2^k. */
  lemma {:induction false} AndMask(a: nat, k: nat, w: nat)
    requires k <= w
    ensures Bitwise(AndOp, a, Pow2(k) - 1, w) == a % Pow2(k)
  {
    if k == 0 {
      AndZero(a, w);
    } else {
      var p, mask := Pow2(k - 1), Pow2(k) - 1;
      assert mask == (p - 1) * 2 + 1;
      DivModUnique(mask, 2, p - 1, 1);
      AndMask(a / 2, k - 1, w - 1);
      MaskStep(a, p, Bitwise(AndOp, a, mask, w), Bitwise(AndOp, a / 2, p - 1, w - 1));
    }
  }

  /** One bit of `AndMask`: the lowest bit of a and the remainder of a / 2 by p make a mod 2p. */
  lemma MaskStep(a: nat, p: nat, x: int, y: int)
    requires 0 < p && x == a % 2 + 2 * y && y == (a / 2) % p
    ensures x == a % (2 * p)
  {
    HalveDivMod(a, p);
  }

  /** XOR with all ones is the complement: C's `~a` is `2^w - 1 - a`. */
  lemma {:induction false} XorOnes(a: nat, w: nat)
    requires a < Pow2(w)
    ensures Bitwise(XorOp, a, Pow2(w) - 1, w) == Pow2(w) - 1 - a
  {
    if w > 0 {
      XorOnes(a / 2, w - 1);
    }
  }

  /** A bitwise operator acts separately on the bits below 2^k and the bits above. */
  lemma {:induction false} BitwiseSplit(op: BitOp, a: int, b: int, k: nat, m: nat)
    ensures Bitwise(op, a, b, k + m)
         == Bitwise(op, a / Pow2(k), b / Pow2(k), m) * Pow2(k) + Bitwise(op, a % Pow2(k), b % Pow2(k), k)
    decreases k
  {
    if k > 0 {
      BitwiseSplit(op, a / 2, b / 2, k - 1, m);
      BitwiseSplitStep(op, a, b, k, m);
    }
  }

  lemma BitwiseSplitStep(op: BitOp, a: int, b: int, k: nat, m: nat)
    requires k > 0
    requires Bitwise(op, a / 2, b / 2, k - 1 + m)
          == Bitwise(op, (a / 2) / Pow2(k - 1), (b / 2) / Pow2(k - 1), m) * Pow2(k - 1)
           + Bitwise(op, (a / 2) % Pow2(k - 1), (b / 2) % Pow2(k - 1), k - 1)
    ensures Bitwise(op, a, b, k + m)
         == Bitwise(op, a / Pow2(k), b / Pow2(k), m) * Pow2(k) + Bitwise(op, a % Pow2(k), b % Pow2(k), k)
  {
    var p := Pow2(k - 1);
    var bit := ApplyBit(op, a % 2, b % 2);
    var high := Bitwise(op, a / Pow2(k), b / Pow2(k), m);
    var low := Bitwise(op, (a / 2) % p, (b / 2) % p, k - 1);
    var y := Bitwise(op, a / 2, b / 2, k - 1 + m);
    assert Bitwise(op, (a / 2) / p, (b / 2) / p, m) == high by {
      HalveQuotient(a, k);
      HalveQuotient(b, k);
    }
    assert Bitwise(op, a % Pow2(k), b % Pow2(k), k) == bit + 2 * low by {
      assert Pow2(k) == 2 * p;
      HalveLow(a, p);
      HalveLow(b, p);
    }
    Combine(Bitwise(op, a, b, k + m), y, Bitwise(op, a % Pow2(k), b % Pow2(k), k), bit, high, low, p, Pow2(k));
  }

  lemma Combine(x: int, y: int, z: int, bit: int, high: int, low: int, p: int, pk: int)
    requires x == bit + 2 * y && y == high * p + low && z == bit + 2 * low && pk == 2 * p
    ensures x == high * pk + z
  {
  }

  lemma HalveQuotient(a: int, k: nat)
    requires k > 0
    ensures (a / 2) / Pow2(k - 1) == a / Pow2(k)
  {
    HalveDivMod(a, Pow2(k - 1));
  }

  /** The low k bits of a, halved, are the low k - 1 bits of a / 2. */
  lemma HalveLow(a: int, p: int)
    requires p > 0
    ensures (a % (2 * p)) % 2 == a % 2 && (a % (2 * p)) / 2 == (a / 2) % p
    ensures a / (2 * p) == (a / 2) / p
  {
    HalveDivMod(a, p);
    AddMultiple(a % 2, (a / 2) % p, 2);
  }

  /** The C expression `x & UINT32_MAX` keeps the low 32 bits. */
  lemma AndLow32(x: u64)
    ensures And64(x, W32 - 1) == x % W32
  {
    Pow2Values();
    AndMask(x, 32, 64);
  }

  /** The C expression `x & 1` is the lowest bit. */
  lemma AndOne(x: u64)
    ensures And64(x, 1) == x % 2
  {
    Pow2Values();
    AndMask(x, 1, 64);
  }

  /** The lowest bit of `a & b` is the product of the lowest bits. */
  lemma AndLowBit(a: u64, b: u64)
    ensures And64(a, b) % 2 == (a % 2) * (b % 2)
  {
    Pow2Values();
    LowBit(AndOp, a, b, 64);
  }

  /** The lowest bit of a bitwise result is the operator applied to the lowest bits. */
  lemma LowBit(op: BitOp, a: int, b: int, w: nat)
    requires w > 0
    ensures Bitwise(op, a, b, w) % 2 == ApplyBit(op, a % 2, b % 2)
  {
    var bit := ApplyBit(op, a % 2, b % 2);
    var rest := Bitwise(op, a / 2, b / 2, w - 1);
    assert Bitwise(op, a, b, w) == bit + rest * 2;
    AddMultiple(bit, rest, 2);
  }

  /** C's `~a` is the bitwise complement. */
  lemma NotIsComplement(a: u64)
    ensures Not64(a) == Xor64(a, W64 - 1)
  {
    Pow2Values();
    XorOnes(a, 64);
  }
  /** Every bitwise operator is symmetric in its operands. */
  lemma {:induction false} BitwiseCommutes(op: BitOp, a: int, b: int, w: nat)
    ensures Bitwise(op, a, b, w) == Bitwise(op, b, a, w)
    decreases w
  {
    if w > 0 {
      BitwiseCommutes(op, a / 2, b / 2, w - 1);
    }
  }

  /** `a | b` and `b | a` on words with no bit in common are the sum. */
  lemma Or64Disjoint(a: u64, b: u64, k: nat)
    requires k <= 64 && a % Pow2(k) == 0 && b < Pow2(k)
    ensures Or64(a, b) == a + b && Or64(b, a) == a + b
  {
    Pow2Values();
    OrDisjoint(a, b, k, 64);
    BitwiseCommutes(OrOp, a, b, 64);
  }
}
