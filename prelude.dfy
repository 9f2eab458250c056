/** The C0 prelude (prelude.h): an earlier copy of the 128-bit helpers on one struct
    of two 64-bit words used for both i128 and u128, and the wrapping add, subtract
    and multiply helpers for 8, 16, 32 and 64 bits. The signed narrow helpers pass
    their operands through a union to reinterpret them as unsigned; here that
    reinterpretation is `ToUnsigned` and `ToSigned`. */
module Prelude {
  import opened Arith
  import opened Words
  import opened Int128Repr
  import opened Int128AddSub
  import opened Int128Mul

  /** `struct __internal_c0_int128`, the type of both i128 and u128. */
  datatype C0Int128 = C0Int128(low: u64, high: u64)

  /** The number the struct stands for as u128: high * 2^64 + low. */
  function V(x: C0Int128): (v: nat)
    ensures v < W128
  {
    x.high * W64 + x.low
  }

  /** The same words as an int128.h `int128`. */
  function ToInt128(x: C0Int128): (r: Int128)
    ensures Bits(r) == V(x)
  {
    Int128(x.low, x.high)
  }

  /** The number the struct stands for as i128, in two's complement. */
  function SV(x: C0Int128): int
  {
    S(ToInt128(x))
  }

  lemma VInjective(x: C0Int128, y: C0Int128)
    requires V(x) == V(y)
    ensures x == y
  {
    BitsInjective(ToInt128(x), ToInt128(y));
  }

  // ---------------------------------------------------------------------
  // 128-bit helpers

  /** `__c0_i128_add`: the words are added separately, and `high` is incremented
      when the low sum wrapped. */
  function I128Add(lhs: C0Int128, rhs: C0Int128): (r: C0Int128)
    ensures V(r) == (V(lhs) + V(rhs)) % W128
    ensures r.low == (lhs.low + rhs.low) % W64
    ensures r.high == (lhs.high + rhs.high + (if lhs.low + rhs.low >= W64 then 1 else 0)) % W64
  {
    var result := C0Int128(Add64(lhs.low, rhs.low), Add64(lhs.high, rhs.high));
    var r := if result.low < lhs.low then result.(high := Add64(result.high, 1)) else result;
    AddHigh(lhs.high, lhs.low, rhs.high, rhs.low, result.high, r.high, result.low < lhs.low);
    AddWords(lhs.high, lhs.low, V(lhs), rhs.high, rhs.low, V(rhs));
    r
  }

  /** `__c0_i128_neg`: the complement plus one, the one carrying into `high` when `low` is zero. */
  function I128Neg(x: C0Int128): (r: C0Int128)
    ensures V(r) == (W128 - V(x)) % W128
  {
    var r := C0Int128(Add64(Not64(x.low), 1), Add64(Not64(x.high), if x.low == 0 then 1 else 0));
    NegWords(x.high, x.low, V(x));
    r
  }

  /** `__c0_i218_sub`: adds the negation. */
  function I218Sub(lhs: C0Int128, rhs: C0Int128): (r: C0Int128)
    ensures V(r) == (V(lhs) - V(rhs)) % W128
  {
    var n := I128Neg(rhs);
    AddNegated(V(lhs), V(rhs), V(n));
    I128Add(lhs, n)
  }

  /** `addu128`: delegates to `__c0_i128_add`. */
  function AddU128(lhs: C0Int128, rhs: C0Int128): (r: C0Int128)
    ensures V(r) == (V(lhs) + V(rhs)) % W128
  {
    I128Add(lhs, rhs)
  }

  /** `subi128`: delegates to `__c0_i218_sub`. */
  function SubI128(lhs: C0Int128, rhs: C0Int128): (r: C0Int128)
    ensures V(r) == (V(lhs) - V(rhs)) % W128
  {
    I218Sub(lhs, rhs)
  }

  /** `subu128`: delegates to `__c0_i218_sub`. */
  function SubU128(lhs: C0Int128, rhs: C0Int128): (r: C0Int128)
    ensures V(r) == (V(lhs) - V(rhs)) % W128
  {
    I218Sub(lhs, rhs)
  }

  /** A value plus its negation is zero. */
  lemma I128NegCancels(a: C0Int128)
    ensures I128Add(a, I128Neg(a)) == C0Int128(0, 0)
  {
    var n := I128Neg(a);
    AddNegated(V(a), V(a), V(n));
    VInjective(I128Add(a, n), C0Int128(0, 0));
  }

  /** Negation undoes itself. */
  lemma I128NegInvolutive(a: C0Int128)
    ensures I128Neg(I128Neg(a)) == a
  {
    var n := I128Neg(a);
    NegTwice(V(a), V(n), V(I128Neg(n)));
    VInjective(I128Neg(n), a);
  }

  /** Subtraction undoes addition. */
  lemma I218SubUndoesAdd(a: C0Int128, b: C0Int128)
    ensures I218Sub(I128Add(a, b), b) == a
  {
    var s := I128Add(a, b);
    SubAfterAdd(V(a), V(b), V(s), V(I218Sub(s, b)));
    VInjective(I218Sub(s, b), a);
  }

  /** Negating twice modulo 2^128 gives back a number below 2^128. */
  lemma NegTwice(a: int, n: int, t: int)
    requires 0 <= a < W128 && n == (W128 - a) % W128 && t == (W128 - n) % W128
    ensures t == a
  {
    if a == 0 {
      DivModUnique(W128, W128, 1, 0);
    } else {
      DivModUnique(W128 - a, W128, 0, W128 - a);
      DivModUnique(a, W128, 0, a);
    }
  }

  /** The prelude's 128-bit helpers compute, word for word, what int128.h's do. */
  lemma SameAsInt128(a: C0Int128, b: C0Int128)
    ensures ToInt128(I128Add(a, b)) == Int128Add(ToInt128(a), ToInt128(b))
    ensures ToInt128(I128Neg(a)) == Int128Neg(ToInt128(a))
    ensures ToInt128(I218Sub(a, b)) == Int128Sub(ToInt128(a), ToInt128(b))
  {
    BitsInjective(ToInt128(I128Add(a, b)), Int128Add(ToInt128(a), ToInt128(b)));
    BitsInjective(ToInt128(I128Neg(a)), Int128Neg(ToInt128(a)));
    BitsInjective(ToInt128(I218Sub(a, b)), Int128Sub(ToInt128(a), ToInt128(b)));
  }

  // ---------------------------------------------------------------------
  // 64 x 64 multiplies

  /** `__c0_u64_mul`: the halves are cast to uint32_t, the four partial products kept
      in `product[4]`, and the words assembled as in `uint128_mul64`. */
  function U64Mul(lhs: u64, rhs: u64): (r: C0Int128)
    ensures V(r) == lhs * rhs
  {
    Halves(lhs);
    Halves(rhs);
    var leftLo, leftHi := And64(lhs, W32 - 1) % W32, Shr64(lhs, 32) % W32;
    var rightLo, rightHi := And64(rhs, W32 - 1) % W32, Shr64(rhs, 32) % W32;
    Narrowed(lhs);
    Narrowed(rhs);
    HalfProduct(leftLo, rightLo);
    HalfProduct(leftLo, rightHi);
    HalfProduct(leftHi, rightLo);
    HalfProduct(leftHi, rightHi);
    var product := [Mul64(leftLo, rightLo), Mul64(leftLo, rightHi), Mul64(leftHi, rightLo), Mul64(leftHi, rightHi)];
    var carry := Shr64(Add64(Add64(Shr64(product[0], 32), And64(product[1], W32 - 1)), And64(product[2], W32 - 1)), 32);
    Mul64Words(lhs, rhs, leftLo, leftHi, rightLo, rightHi, product[0], product[1], product[2], product[3]);
    C0Int128(Add64(Add64(product[0], Shl64(product[1], 32)), Shl64(product[2], 32)),
             Add64(Add64(Add64(product[3], Shr64(product[1], 32)), Shr64(product[2], 32)), carry))
  }

  /** The casts to uint32_t change neither half of a 64-bit word. */
  lemma Narrowed(x: u64)
    ensures (x % W32) % W32 == x % W32 && (x / W32) % W32 == x / W32
  {
    DivModUnique(x % W32, W32, 0, x % W32);
    DivModUnique(x / W32, W32, 0, x / W32);
  }

  /** `__c0_u64_mul` gives the same words as `uint128_mul64`. */
  lemma U64MulSameAsInt128(lhs: u64, rhs: u64)
    ensures U64Mul(lhs, rhs).low == UInt128Mul64(lhs, rhs).low
    ensures U64Mul(lhs, rhs).high == UInt128Mul64(lhs, rhs).high
  {
    SameWords(U64Mul(lhs, rhs), UInt128Mul64(lhs, rhs));
  }

  lemma SameWords(x: C0Int128, y: UInt128)
    requires V(x) == U(y)
    ensures x.low == y.low && x.high == y.high
  {
    UInjective(UInt128(x.low, x.high), y);
  }

  /** `__c0_i64_mul`: the unsigned product of the two bit patterns, with `high -= rhs`
      when lhs is negative and `high -= lhs` when rhs is negative, is the exact signed product. */
  method I64Mul(lhs: i64, rhs: i64) returns (result: C0Int128)
    ensures SV(result) == lhs * rhs
  {
    var a := ToUnsigned(W64, lhs);
    var b := ToUnsigned(W64, rhs);
    result := U64Mul(a, b);
    ghost var product := result;
    if lhs < 0 {
      result := result.(high := Sub64(result.high, b));
    }
    if rhs < 0 {
      result := result.(high := Sub64(result.high, a));
    }
    Mul64Fixup(lhs, rhs, a, b, UInt128(product.low, product.high), ToInt128(result));
  }

  // ---------------------------------------------------------------------
  // The narrow wrapping helpers

  /** The widths the helpers come in. */
  predicate Width(w: nat)
  {
    w == 8 || w == 16 || w == 32 || w == 64
  }

  /** 2^w, the modulus of a w-bit word. */
  function Modulus(w: nat): (m: nat)
    requires Width(w)
    ensures 2 <= m && m % 2 == 0
  {
    if w == 8 then 0x100 else if w == 16 then 0x1_0000 else if w == 32 then W32 else W64
  }

  /** The values of the signed w-bit type. */
  predicate Signed(w: nat, x: int)
    requires Width(w)
  {
    -(Modulus(w) / 2) <= x < Modulus(w) / 2
  }

  /** The values of the unsigned w-bit type. */
  predicate Unsigned(w: nat, x: int)
    requires Width(w)
  {
    0 <= x < Modulus(w)
  }

  /** `addi8` ... `addi64`: both operands reinterpreted as unsigned, added in the unsigned
      type, and the sum reinterpreted as signed. The result is the exact sum wrapped into
      the signed range. */
  function AddI(w: nat, lhs: int, rhs: int): (r: int)
    requires Width(w) && Signed(w, lhs) && Signed(w, rhs)
    ensures Signed(w, r) && r == WrapSigned(Modulus(w), lhs + rhs)
  {
    var m := Modulus(w);
    var a, b := ToUnsigned(m, lhs), ToUnsigned(m, rhs);
    var result := (a + b) % m;
    AddReinterpreted(m, lhs, rhs, a, b);
    ToSigned(m, result)
  }

  /** `subi8` ... `subi64`: the unsigned difference reinterpreted as signed. */
  function SubI(w: nat, lhs: int, rhs: int): (r: int)
    requires Width(w) && Signed(w, lhs) && Signed(w, rhs)
    ensures Signed(w, r) && r == WrapSigned(Modulus(w), lhs - rhs)
  {
    var m := Modulus(w);
    var a, b := ToUnsigned(m, lhs), ToUnsigned(m, rhs);
    var result := (a - b) % m;
    SubReinterpreted(m, lhs, rhs, a, b);
    ToSigned(m, result)
  }

  /** `muli8` ... `muli64`: the unsigned product, truncated to w bits, reinterpreted as signed. */
  function MulI(w: nat, lhs: int, rhs: int): (r: int)
    requires Width(w) && Signed(w, lhs) && Signed(w, rhs)
    ensures Signed(w, r) && r == WrapSigned(Modulus(w), lhs * rhs)
  {
    var m := Modulus(w);
    var a, b := ToUnsigned(m, lhs), ToUnsigned(m, rhs);
    var result := (a * b) % m;
    MulReinterpreted(m, lhs, rhs, a, b);
    ToSigned(m, result)
  }

  /** On the reinterpreted operands, the unsigned w-bit sum, difference and product
      agree with the signed ones modulo 2^w. */
  lemma AddReinterpreted(m: nat, lhs: int, rhs: int, a: int, b: int)
    requires 0 < m && 0 <= a < m && 0 <= b < m && a == lhs % m && b == rhs % m
    ensures (a + b) % m == (lhs + rhs) % m
  {
    DivModUnique(a, m, 0, a);
    DivModUnique(b, m, 0, b);
    AddCongruent(a, b, lhs, rhs, m);
  }

  lemma SubReinterpreted(m: nat, lhs: int, rhs: int, a: int, b: int)
    requires 0 < m && 0 <= a < m && 0 <= b < m && a == lhs % m && b == rhs % m
    ensures (a - b) % m == (lhs - rhs) % m
  {
    DivModUnique(a, m, 0, a);
    DivModUnique(b, m, 0, b);
    SubCongruent(a, b, lhs, rhs, m);
  }

  lemma MulReinterpreted(m: nat, lhs: int, rhs: int, a: int, b: int)
    requires 0 < m && 0 <= a < m && 0 <= b < m && a == lhs % m && b == rhs % m
    ensures (a * b) % m == (lhs * rhs) % m
  {
    DivModUnique(a, m, 0, a);
    DivModUnique(b, m, 0, b);
    MulCongruent(a, b, lhs, rhs, m);
  }

  /** `addu8` ... `addu64`: the sum truncated to w bits. */
  function AddU(w: nat, lhs: int, rhs: int): (r: int)
    requires Width(w) && Unsigned(w, lhs) && Unsigned(w, rhs)
    ensures Unsigned(w, r)
  {
    (lhs + rhs) % Modulus(w)
  }

  /** `subu8` ... `subu64`: the difference truncated to w bits. */
  function SubU(w: nat, lhs: int, rhs: int): (r: int)
    requires Width(w) && Unsigned(w, lhs) && Unsigned(w, rhs)
    ensures Unsigned(w, r)
  {
    (lhs - rhs) % Modulus(w)
  }

  /** `mulu8` ... `mulu64`: the product truncated to w bits. */
  function MulU(w: nat, lhs: int, rhs: int): (r: int)
    requires Width(w) && Unsigned(w, lhs) && Unsigned(w, rhs)
    ensures Unsigned(w, r)
  {
    (lhs * rhs) % Modulus(w)
  }

  /** The signed helpers compute the same bits as the unsigned ones on the reinterpreted operands. */
  lemma SignedMatchesUnsigned(w: nat, lhs: int, rhs: int)
    requires Width(w) && Signed(w, lhs) && Signed(w, rhs)
    ensures var m := Modulus(w);
            ToUnsigned(m, AddI(w, lhs, rhs)) == AddU(w, ToUnsigned(m, lhs), ToUnsigned(m, rhs))
    ensures var m := Modulus(w);
            ToUnsigned(m, SubI(w, lhs, rhs)) == SubU(w, ToUnsigned(m, lhs), ToUnsigned(m, rhs))
    ensures var m := Modulus(w);
            ToUnsigned(m, MulI(w, lhs, rhs)) == MulU(w, ToUnsigned(m, lhs), ToUnsigned(m, rhs))
  {
    AddIMatches(w, lhs, rhs);
    SubIMatches(w, lhs, rhs);
    MulIMatches(w, lhs, rhs);
  }

  lemma AddIMatches(w: nat, lhs: int, rhs: int)
    requires Width(w) && Signed(w, lhs) && Signed(w, rhs)
    ensures var m := Modulus(w);
            ToUnsigned(m, AddI(w, lhs, rhs)) == AddU(w, ToUnsigned(m, lhs), ToUnsigned(m, rhs))
  {
    var m := Modulus(w);
    var a, b := ToUnsigned(m, lhs), ToUnsigned(m, rhs);
    ReadBack(m, (a + b) % m);
  }

  lemma SubIMatches(w: nat, lhs: int, rhs: int)
    requires Width(w) && Signed(w, lhs) && Signed(w, rhs)
    ensures var m := Modulus(w);
            ToUnsigned(m, SubI(w, lhs, rhs)) == SubU(w, ToUnsigned(m, lhs), ToUnsigned(m, rhs))
  {
    var m := Modulus(w);
    var a, b := ToUnsigned(m, lhs), ToUnsigned(m, rhs);
    ReadBack(m, (a - b) % m);
  }

  lemma MulIMatches(w: nat, lhs: int, rhs: int)
    requires Width(w) && Signed(w, lhs) && Signed(w, rhs)
    ensures var m := Modulus(w);
            ToUnsigned(m, MulI(w, lhs, rhs)) == MulU(w, ToUnsigned(m, lhs), ToUnsigned(m, rhs))
  {
    var m := Modulus(w);
    var a, b := ToUnsigned(m, lhs), ToUnsigned(m, rhs);
    ReadBack(m, (a * b) % m);
  }

  /** Reinterpreting an unsigned word as signed and back gives the word. */
  lemma ReadBack(m: nat, u: int)
    requires 0 < m && m % 2 == 0 && 0 <= u < m
    ensures ToUnsigned(m, ToSigned(m, u)) == u
  {
    DivModUnique(u, m, 0, u);
  }

  /** Subtraction undoes addition on the signed helpers. */
  lemma NarrowSubIUndoesAdd(w: nat, a: int, b: int)
    requires Width(w) && Signed(w, a) && Signed(w, b)
    ensures SubI(w, AddI(w, a, b), b) == a
  {
    var m := Modulus(w);
    WrapSubAfterAdd(m, a, b, AddI(w, a, b), SubI(w, AddI(w, a, b), b));
  }

  lemma WrapSubAfterAdd(m: nat, a: int, b: int, s: int, t: int)
    requires 0 < m && m % 2 == 0 && -(m / 2) <= a < m / 2
    requires s == WrapSigned(m, a + b) && t == WrapSigned(m, s - b)
    ensures t == a
  {
    SubCongruent(s, b, a + b, b, m);
    WrapSignedUnique(m, s - b, a);
  }

  /** Subtraction undoes addition on the unsigned helpers. */
  lemma NarrowSubUUndoesAdd(w: nat, x: int, y: int)
    requires Width(w) && Unsigned(w, x) && Unsigned(w, y)
    ensures SubU(w, AddU(w, x, y), y) == x
  {
    ModSubAfterAdd(Modulus(w), x, y);
  }

  lemma ModSubAfterAdd(m: nat, x: int, y: int)
    requires 0 < m && 0 <= x < m
    ensures ((x + y) % m - y) % m == x
  {
    DivModUnique(x, m, 0, x);
    DivModUnique((x + y) % m, m, 0, (x + y) % m);
    SubCongruent((x + y) % m, y, x + y, y, m);
  }

  /** The 64-bit helpers agree with the uint64_t operators that int128.h uses. */
  lemma Width64(a: u64, b: u64)
    ensures AddU(64, a, b) == Add64(a, b) && SubU(64, a, b) == Sub64(a, b) && MulU(64, a, b) == Mul64(a, b)
  {
  }

  /** The signed helpers wrap: INT8_MAX + 1 is INT8_MIN, INT64_MIN - 1 is INT64_MAX,
      and 16 * 16 in 8 bits is 0. */
  lemma NarrowWraps(w8: nat, w64: nat)
    requires w8 == 8 && w64 == 64
    ensures AddI(w8, 127, 1) == -128
    ensures SubI(w64, -W63, 1) == W63 - 1
    ensures MulI(w8, 16, 16) == 0
  {
    WrapSignedUnique(256, 128, -128);
    WrapSignedUnique(W64, -W63 - 1, W63 - 1);
    WrapSignedUnique(256, 256, 0);
  }
}
