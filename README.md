# int128 in Dafny

This project models a C library of 128-bit integers and proves properties of
the model. The library represents both `int128` and `uint128` as a pair of
64-bit words, `low` and `high`. It offers:

- comparisons;
- word-wise bitwise operators;
- shifts;
- addition, negation and subtraction with a carry or borrow between the words;
- a 64 x 64 -> 128 multiply built from four 32-bit partial products, and a
  wrapping 128 x 128 multiply;
- shift-and-subtract long division, with signed wrappers that special-case
  `INT128_MIN`.

The C0 prelude holds an older copy of the 128-bit helpers on a single struct
used for both `i128` and `u128`. It also holds wrapping add, subtract and
multiply helpers for 8, 16, 32 and 64 bits, which reinterpret signed operands
as unsigned through a union.

Each value is read as a number in one of two ways:

- `U(x)` is `high * 2^64 + low`, and `Bits` gives the same number for a signed value.
- `S(x)` is the two's-complement reading: `Bits(x) - 2^128` when bit 63 of `high` is set.

Every operation is stated against those numbers. Each is either exact or
reduced modulo 2^128, and the signed results are wrapped into the int128 range
(`WrapSigned`).

Files and modules:

- **`words.dfy` (`Words`):** the uint64_t word and its C operators. `<<` is
  written as `(a * 2^n) mod 2^64`, `>>` as `a / 2^n`, and `~` as
  `2^64 - 1 - a`. `&`, `|` and `^` are written bit by bit as `Bitwise`. The
  union punning is written as `ToSigned` and `ToUnsigned`.
- **`arith.dfy` (`Arith`):** integer division and modulo facts.
- **`int128_repr.dfy` (`Int128Repr`):** the two structs, the readings `U`,
  `Bits` and `S`, and the constants.
- **`int128_compare.dfy`, `int128_bits.dfy`, `int128_addsub.dfy`,
  `int128_shift.dfy`, `int128_mul.dfy`, `int128_div.dfy`:** the operations of
  `int128.h`, one group per file.
- **`prelude.dfy` (`Prelude`):** the helpers of `prelude.h`.

How the code is modelled:

- Single-expression C functions are Dafny functions.
- The step-by-step operations are methods whose local updates are written in
  the same sequence as the C. These are `int128_mul64`, `int128_mul`,
  `int128_div`, `int128_rem` and `__c0_i64_mul`.
- `uint128_div` and `uint128_rem` are methods with the two `while` loops of
  the C, proved against `/` and `%`.
- `int128_add` and `__c0_i128_add` patch `result.high` in place. They are
  functions with let-bindings in place of the C assignments, because other
  single-expression functions call them (`uint128_add`, `int128_sub`,
  `__c0_i218_sub`).

The signed comparisons do not compare two's-complement values. They compare
the high words as int64_t, and on a tie they compare the low words as int64_t
too. So a non-negative value with `high == 0` and `low >= 2^63` tests as less
than zero; `CompareQuirk` names these values.

This behaviour is modelled as written. Its consequences are stated where they
reach:

- `int128_shiftr` of zero fills with ones.
- `int128_div` and `int128_rem` take the magnitude of a quirk operand as
  `2^128 - S(x)` rather than `S(x)` (`Tested`).
- `int128_rem` leaves a remainder in `[2^63, 2^64)` un-negated, because it
  does not test greater than zero (`RemAsWritten`).

## Model

| member | source | states |
|---|---|---|
| Int128Repr.U | int128.h:22-25 | an unsigned value stands for a number below 2^128 |
| Int128Repr.S | int128.h:17-20 | the signed reading is in [-2^127, 2^127), is negative exactly when bit 63 of `high` is set, and is `high` read as int64_t times 2^64 plus `low` |
| Int128Repr.UInjective | int128.h:22-25 | two unsigned values are equal exactly when their numbers are |
| Int128Repr.SInjective | int128.h:17-20 | two signed values are equal exactly when their signed readings are |
| Int128Repr.SignedResults | int128.h:17-20 | a result whose bits are the wrapped sum, difference, negation or product of the bits has as signed reading the wrapped signed sum, difference, negation or product |
| Int128Repr.Int128Max | int128.h:7-8 | `INT128_MAX` stands for 2^127 - 1, the largest signed value |
| Int128Repr.Int128Min | int128.h:9 | `INT128_MIN` stands for -2^127, the smallest signed value |
| Int128Repr.UInt128Max | int128.h:10 | `UINT128_MAX` stands for 2^128 - 1, the largest unsigned value |
| Int128Repr.UInt128C | int128.h:12 | `UINT128_C(x)` has a zero high word and stands for x mod 2^64, so for x itself when x fits in 64 bits |
| Int128Repr.Int128C | int128.h:13-15 | `INT128_C(x)` keeps the value of every int64_t and uint64_t x |
| Int128Repr.AsSigned | int128.h:458 | the struct copy between the two types keeps the bits, and copying back gives the original |
| Words.ToUnsigned | int128.h:53-68 | union punning of an int64_t to uint64_t gives its residue mod 2^64, and punning it back gives the original |
| Words.ToSigned | int128.h:53-68 | union punning of a uint64_t to int64_t gives the value in the signed range congruent to it |
| Words.WrapSignedUnique | int128.h:17-20 | only one value of the signed range lies in each residue class mod 2^w, so the wrapped results are determined |
| Int128Compare.UInt128Less | int128.h:31-38 | `uint128_less` holds exactly when U(lhs) < U(rhs) |
| Int128Compare.UInt128Greater | int128.h:41-48 | `uint128_greater` holds exactly when U(lhs) > U(rhs), which is `uint128_less` with the operands swapped |
| Int128Compare.UInt128Eq | int128.h:105-108 | `uint128_eq` holds exactly when the values, and so their numbers, are equal |
| Int128Compare.UInt128LessEq | int128.h:111-114 | `uint128_less_eq` holds exactly when U(lhs) <= U(rhs) |
| Int128Compare.UInt128GreaterEq | int128.h:117-120 | `uint128_greater_eq` holds exactly when U(lhs) >= U(rhs) |
| Int128Compare.SignedKeyInjective | int128.h:51-72 | the pair of both words read as int64_t tells values apart, so the signed comparisons order values totally |
| Int128Compare.SignedKeyOfValue | int128.h:65-68 | the key the signed comparisons use differs from S by 2^64 exactly when the top bit of `low` is set |
| Int128Compare.Int128Less | int128.h:51-72 | `int128_less` orders by the int64_t key; it agrees with S when the high words differ or the low words agree in their top bit |
| Int128Compare.Int128Greater | int128.h:75-96 | `int128_greater` is `int128_less` with the operands swapped, and agrees with S under the same conditions |
| Int128Compare.Int128Eq | int128.h:99-102 | `int128_eq` holds exactly when the values, and so their signed readings, are equal |
| Int128Compare.Int128LessEq | int128.h:129-132 | `int128_less_eq` is the key order or equality |
| Int128Compare.Int128GreaterEq | int128.h:123-126 | `int128_greater_eq` is the key order or equality |
| Int128Compare.UnsignedOrderLaws | int128.h:31-48 | the unsigned comparisons: less is irreflexive and transitive; exactly one of less, eq and greater holds; less(a, b) iff greater(b, a); less_eq and greater_eq are less or greater, or eq |
| Int128Compare.SignedOrderLaws | int128.h:51-132 | the same laws for the signed comparisons |
| Int128Compare.SignTests | int128.h:65-68 | comparing with `INT128_C(0)` tests the sign, except that the quirk values test less than zero and not greater than zero |
| Int128Compare.QuirkExample | int128.h:65-68 | 2^63, a positive value, tests less than zero and not greater than zero |
| Int128Bits.Int128Compl | int128.h:171-177 | `int128_compl` flips all 128 bits, so its signed value is -S(x) - 1 |
| Int128Bits.UInt128Compl | int128.h:180-186 | `uint128_compl` is 2^128 - 1 - U(x) |
| Int128Bits.Int128And | int128.h:198-204 | `int128_and` is the bitwise AND of all 128 bits |
| Int128Bits.Int128Or | int128.h:189-195 | `int128_or` is the bitwise OR of all 128 bits |
| Int128Bits.Int128Xor | int128.h:225-231 | `int128_xor` is the bitwise XOR of all 128 bits |
| Int128Bits.UInt128And | int128.h:216-222 | `uint128_and` is the bitwise AND of all 128 bits |
| Int128Bits.UInt128Or | int128.h:207-213 | `uint128_or` is the bitwise OR of all 128 bits |
| Int128Bits.UInt128Xor | int128.h:234-240 | `uint128_xor` is the bitwise XOR of all 128 bits |
| Int128Bits.Wordwise | int128.h:189-240 | a 128-bit bitwise operation is the 64-bit operation on the high words and on the low words |
| Int128Bits.ComplLaws | int128.h:171-186 | the complement is XOR with all ones and undoes itself, on both types |
| Int128Bits.SameOnBothTypes | int128.h:171-240 | compl, and, or and xor give the same bits on both types |
| Int128AddSub.Int128Add | int128.h:135-147 | `int128_add` gives the bits of (a + b) mod 2^128; `low` is the low sum mod 2^64, and `high` gets a carry exactly when the low sum wraps |
| Int128AddSub.AddCarry | int128.h:141-143 | the test `result.low < lhs.low` holds exactly when the low sum wraps |
| Int128AddSub.UInt128Add | int128.h:150-159 | `uint128_add` is (U(a) + U(b)) mod 2^128 |
| Int128AddSub.Int128Neg | int128.h:162-168 | `int128_neg` gives the bits of (2^128 - Bits(x)) mod 2^128 |
| Int128AddSub.Int128Sub | int128.h:307-310 | `int128_sub` gives the bits of (a - b) mod 2^128 |
| Int128AddSub.SignedAddSub | int128.h:135-168 | on the signed reading, add, neg and sub give the exact result wrapped into the int128 range |
| Int128AddSub.Borrow | int128.h:316-318 | the bit-trick borrow of `uint128_sub` is 1 exactly when lhs.low < rhs.low |
| Int128AddSub.UInt128Sub | int128.h:313-322 | `uint128_sub` is (U(a) - U(b)) mod 2^128 |
| Int128AddSub.Int128SubUndoesAdd | int128.h:135-147 | sub(add(a, b), b) == a for signed values |
| Int128AddSub.Int128AddUndoesSub | int128.h:307-310 | add(sub(a, b), b) == a for signed values |
| Int128AddSub.UInt128SubUndoesAdd | int128.h:313-322 | sub(add(a, b), b) == a for unsigned values |
| Int128AddSub.UInt128AddUndoesSub | int128.h:150-159 | add(sub(a, b), b) == a for unsigned values |
| Int128AddSub.NegCancels | int128.h:162-168 | x plus its negation is zero |
| Int128AddSub.SubFromZero | int128.h:307-310 | subtracting from zero is negation |
| Int128AddSub.NegInvolutive | int128.h:162-168 | negating twice gives the value back |
| Int128AddSub.NegFixedPoints | int128.h:162-168 | negation fixes exactly zero and `INT128_MIN`, and is -S(x) on every other value |
| Int128AddSub.Int128Wraps | test.c:40-47 | `INT128_MAX + 1 == INT128_MIN` and `INT128_MIN - 1 == INT128_MAX` |
| Int128AddSub.UInt128Wraps | int128.h:150-159 | `UINT128_MAX + 1 == 0` and `0 - 1 == UINT128_MAX` |
| Int128AddSub.AdditionExamples | test.c:29-42 | 2^64 - 1 plus one is greater, is less than 2^64 - 1 plus two, and differs from 2^64 - 1; subtracting the one gives 2^64 - 1 back; `INT128_MAX + 1` tests less than `INT128_MAX` |
| Int128Shift.Int128Shl | int128.h:243-253 | `int128_shiftl` by 1 to 127 gives the bits of Bits(x) * 2^n mod 2^128 |
| Int128Shift.ShlSigned | int128.h:243-253 | on the signed reading the left shift is multiplication by 2^n, wrapped |
| Int128Shift.UInt128Shl | int128.h:256-261 | `uint128_shiftl` is U(x) * 2^n mod 2^128 |
| Int128Shift.UInt128Shr | int128.h:264-274 | `uint128_shiftr` is U(x) / 2^n, filling with zeros |
| Int128Shift.ShrFill | int128.h:286-303 | the not-greater-than-zero branch of `int128_shiftr` is the logical shift with the top n bits set |
| Int128Shift.Int128Shr | int128.h:279-304 | `int128_shiftr` is the logical shift when lhs tests greater than zero, and otherwise the logical shift with the top n bits set |
| Int128Shift.ShrSigned | int128.h:279-304 | on a negative value, and on a value that tests greater than zero, the signed right shift is S(x) / 2^n rounded down, and a negative value stays negative |
| Int128Shift.ShrBy64Negative | int128.h:293-297 | shifting a negative value right by 64 moves `high` into `low` and sets `high` to all ones |
| Int128Shift.ShlExample | test.c:20-22 | 2^63 shifted left by one has `high == 1` |
| Int128Shift.ShrExample | test.c:24-26 | `{ .high = 1 }` shifted right by one has `low == 2^63` |
| Int128Shift.ShrZeroQuirk | int128.h:281 | zero does not test greater than zero, so shifting it right by one gives `{ .high = 2^63 }` |
| Int128Mul.UInt128Mul64 | int128.h:325-352 | `uint128_mul64` is the exact product of its two uint64_t operands |
| Int128Mul.Mul64Words | int128.h:331-351 | the partial products, the carry and the assembled words of the 64 x 64 multiply never overflow, and they give the exact product |
| Int128Mul.Int128Mul64 | int128.h:355-383 | `int128_mul64` is the exact signed product of its two int64_t operands |
| Int128Mul.Mul64Fixup | int128.h:368-380 | the `high -= rhs` and `high -= lhs` corrections turn the unsigned product of the bit patterns into the exact signed product |
| Int128Mul.SignedProductBound | int128.h:355-383 | the product of two int64_t values lies inside the int128 range |
| Int128Mul.UInt128Mul | int128.h:386-427 | `uint128_mul` is U(a) * U(b) mod 2^128 |
| Int128Mul.MulWrapArith | int128.h:392-424 | the high-by-high product and the high words of the cross products do not affect the product mod 2^128 |
| Int128Mul.Int128Mul | int128.h:430-460 | `int128_mul` gives the bits of Bits(a) * Bits(b) mod 2^128, and its signed reading is the wrapped signed product; the -1 shortcuts and the sign flips do not change it |
| Int128Mul.MinusOneFactor | int128.h:432-438 | the `INT128_C(-1)` shortcut, negation, is multiplication by -1 mod 2^128 |
| Int128Mul.Int128MulExamples | test.c:50-62 | `{ .high = 10^8 } * 2` has high 2 * 10^8 and low 0; `INT128_MAX * 0 == 0`; `INT128_MAX * 10 == -10` |
| Int128Mul.UInt128MulByTwo | test.c:76-80 | multiplying `{ .high = h }` by `UINT128_C(2)` doubles the high word mod 2^64 |
| Int128Mul.TenPowerExact | test.c:82-90 | for n up to 38, n multiplications of `UINT128_C(1)` by `UINT128_C(10)` give exactly 10^n |
| Int128Mul.TenPowerGrows | test.c:84-87 | none of the first 38 multiplications by ten overflows: each product is greater |
| Int128Mul.TenPowerWraps | test.c:92-102 | the 39th multiplication wraps to `{ .low = 0x5f65568000000000, .high = 0xf050fe938943acc4 }` |
| Int128Div.SmallDividend | int128.h:478-481 | with rhs != 0 and a dividend below 2^127, the doubling loop stops before the divisor wraps |
| Int128Div.WrappingDivisor | int128.h:478-481 | 3 * 2^126 divided by 3 * 2^126 - 1 has quotient 1 and remainder 1, but doubling the divisor shifts a bit out, so the pair lies outside `DivDefined` |
| Int128Div.DoubleDivisor | int128.h:475-481 | the first loop ends with `current` a power of two 2^k, k >= 1, and `divisor == rhs * 2^k > lhs` |
| Int128Div.WalkTurn | int128.h:486-494 | one turn of the second loop keeps dividend == result * rhs + lhs with lhs below twice the divisor, and `divisor == rhs * current` with `current` a power of two |
| Int128Div.ShiftSubtract | int128.h:475-494 | the two loops end with the quotient in `result` and the remainder in `lhs` |
| Int128Div.UInt128Div | int128.h:463-497 | `uint128_div` is U(lhs) / U(rhs); `uint128_div(x, 0)` returns 1 when it returns |
| Int128Div.UInt128Rem | int128.h:500-534 | `uint128_rem` is U(lhs) mod U(rhs); `uint128_rem(x, 0)` returns 0 when it returns |
| Int128Div.TruncDivRem | int128.h:537-603 | C's truncating quotient and remainder satisfy a == b * q + r, the remainder takes the dividend's sign with magnitude below the divisor's, and both agree with / and % on non-negative operands |
| Int128Div.TestedSign | int128.h:549-557 | the value the sign tests see is negative exactly when `int128_less(x, 0)`, equals S(x) off the quirk values, and is zero only for zero |
| Int128Div.MagnitudeValue | int128.h:549-560 | the unsigned operand that `int128_div` and `int128_rem` pass on is the magnitude of the tested value |
| Int128Div.PlainDivDefined | int128.h:537-603 | when neither operand is a quirk value, the dividend is not `INT128_MIN` and the divisor is not zero, the unsigned division stops |
| Int128Div.RemAsWrittenAgrees | int128.h:595-600 | the remainder as written is the truncating remainder, except for a negative dividend whose remainder magnitude lies in [2^63, 2^64); there it is left positive |
| Int128Div.Int128Div | int128.h:537-569 | `int128_div(MIN, MIN) == 1`; `int128_div(MIN, x) == 0` otherwise; a zero divisor gives 1 when it returns (`0 / 0 == 1`); otherwise the truncating quotient of the tested values, wrapped, and exactly S(lhs) / S(rhs) truncated when no operand is a quirk value |
| Int128Div.Int128Rem | int128.h:572-603 | `int128_rem(MIN, x) == 0`; `int128_rem(x, MIN) == x`; a zero divisor gives 0 when it returns (`0 rem 0 == 0`); otherwise the remainder as written of the tested values, which is the truncating remainder of S(lhs) by S(rhs) when no operand is a quirk value and the remainder magnitude is outside [2^63, 2^64) |
| Int128Div.Int128DivExamples | test.c:68-70 | `{ .high = 2 * 10^8 } / 2 == { .high = 10^8 }`; `INT128_MIN / 1 == 0`; 2^63 / `INT128_MAX` is -1, because 2^63 tests negative; -2^63 rem 2^64 is left at +2^63 where the truncating remainder is -2^63 |
| Prelude.V | prelude.h:25-31 | the prelude struct stands for a number below 2^128 |
| Prelude.ToInt128 | prelude.h:25-31 | the prelude struct has the same words as an int128.h `int128` |
| Prelude.VInjective | prelude.h:25-31 | two prelude values are equal when their numbers are |
| Prelude.I128Add | prelude.h:48-60 | `__c0_i128_add` is (a + b) mod 2^128, with a carry into `high` exactly when the low sum wraps |
| Prelude.I128Neg | prelude.h:62-68 | `__c0_i128_neg` is (2^128 - x) mod 2^128 |
| Prelude.I218Sub | prelude.h:70-73 | `__c0_i218_sub` is (a - b) mod 2^128 |
| Prelude.I128NegCancels | prelude.h:62-68 | x plus its negation is zero |
| Prelude.I128NegInvolutive | prelude.h:62-68 | negation undoes itself |
| Prelude.I218SubUndoesAdd | prelude.h:70-73 | `__c0_i218_sub(__c0_i128_add(a, b), b) == a` |
| Prelude.SameAsInt128 | prelude.h:48-73 | the prelude's add, neg and sub give, word for word, what `int128_add`, `int128_neg` and `int128_sub` give |
| Prelude.AddU128 | prelude.h:299-302 | `addu128` is (a + b) mod 2^128 |
| Prelude.SubI128 | prelude.h:365-368 | `subi128` is (a - b) mod 2^128 |
| Prelude.SubU128 | prelude.h:385-388 | `subu128` is (a - b) mod 2^128 |
| Prelude.U64Mul | prelude.h:76-105 | `__c0_u64_mul` is the exact product of its two uint64_t operands |
| Prelude.U64MulSameAsInt128 | prelude.h:76-105 | `__c0_u64_mul` gives the same words as `uint128_mul64` |
| Prelude.I64Mul | prelude.h:108-132 | `__c0_i64_mul` is the exact signed product in two's complement |
| Prelude.AddI | prelude.h:223-282 | `addi8` ... `addi64` give the exact sum wrapped into the signed w-bit range |
| Prelude.SubI | prelude.h:305-364 | `subi8` ... `subi64` give the exact difference wrapped into the signed w-bit range |
| Prelude.MulI | prelude.h:391-454 | `muli8` ... `muli64` give the exact product wrapped into the signed w-bit range |
| Prelude.AddU | prelude.h:283-298 | `addu8` ... `addu64` give a w-bit unsigned value |
| Prelude.SubU | prelude.h:369-384 | `subu8` ... `subu64` give a w-bit unsigned value |
| Prelude.MulU | prelude.h:456-471 | `mulu8` ... `mulu64` give a w-bit unsigned value |
| Prelude.SignedMatchesUnsigned | prelude.h:223-471 | on the reinterpreted operands, the signed helpers compute the same bits as the unsigned ones |
| Prelude.NarrowSubIUndoesAdd | prelude.h:223-364 | `subi(addi(a, b), b) == a` at every width |
| Prelude.NarrowSubUUndoesAdd | prelude.h:283-384 | `subu(addu(x, y), y) == x` at every width |
| Prelude.Width64 | prelude.h:295-298 | the 64-bit unsigned helpers are the wrap-around uint64_t operators used by int128.h |
| Prelude.NarrowWraps | prelude.h:223-454 | `addi8(127, 1) == -128`, `subi64(INT64_MIN, 1) == INT64_MAX`, and `muli8(16, 16) == 0` |

## Left out

- Division inputs on which the doubling wraps. `DivDefined` holds exactly when
  an early exit is taken (`rhs > lhs`, or `lhs == rhs`, which covers `0 / 0`)
  or when the divisor is non-zero and the doubling loop of `uint128_div` and
  `uint128_rem` stops before it shifts a bit out of 128 bits. Every such input
  stops, with the right result, and the division methods require it. On the
  other inputs the divisor wraps. When it wraps to 0 the C loops forever: a
  non-zero dividend with a zero divisor, or `rhs == 2^127` with
  `lhs == 2^127 + 1`. On the other wrapping inputs the C stops with a wrong
  result, which the model does not compute. For example, with
  `lhs = 3 * 2^126` and `rhs = 3 * 2^126 - 1` the divisor wraps to
  `2^128 - 4`, the loop stops, and both walks end with 3, where the quotient
  and the remainder are 1 and 1. `WrappingDivisor` shows that this pair lies
  outside `DivDefined`. `SmallDividend` shows that `rhs != 0` with a dividend
  below 2^127 meets `DivDefined`.
- Int128Div: requires that the magnitudes it passes on meet `DivDefined`. A
  quirk operand, whose magnitude is 2^128 - S(x), is therefore covered only
  when the doubling does not wrap.
- Int128Rem: requires the same, except that the early exits for `INT128_MIN`
  need nothing.
- Shift counts of 0 and of 128 or more shift a 64-bit word by its width or
  more, which C leaves undefined. The shifts require 1 <= n <= 127.
- The promotion of uint16_t operands to int in `muli16` and `mulu16` is
  undefined behaviour in C when the product passes INT_MAX. `MulI` and `MulU`
  take the product modulo 2^16, as a 32-bit unsigned multiply would.
- AddU, SubU, MulU: the ensures say only that the result is a w-bit unsigned
  value. What each computes is stated by `SignedMatchesUnsigned`,
  `NarrowSubUUndoesAdd` and `Width64`.
- The narrow helpers are one function per operation with the width as a
  parameter (8, 16, 32 or 64), not one copy per width.
- Union type punning is not modelled as a mechanism. It is replaced by
  `ToUnsigned` and `ToSigned`, which assume the two's-complement layout the
  prelude demands with its preprocessor check.
- The `rd*` and `wr*` pointer load and store helpers (prelude.h:139-220) are
  memory plumbing and are not modelled.
- The float typedefs and the preprocessor platform checks (prelude.h:33-43)
  are not modelled.
- `__c0_u64_mul`'s local `product[4]` array is only initialised and read. It is
  a sequence here.
- The test harness (`main` and the assertion order in test.c) is not
  modelled. Its assertions appear as the example lemmas and methods.
- Words are unbounded integers restricted to [0, 2^64), not bit-vectors. Every
  C operator is written out with its wrap-around.
