/**
 * The integer types of the WHATWG Infra Standard, section 4.3 (Primitive data types), as
 * src/num.ts checks them: is a value an 8-, 16-, 32-, 64- or 128-bit signed or unsigned
 * integer?
 *
 * A JavaScript `number` is modelled as a real (its IEEE-754 rounding, NaN and the infinities are
 * not), `Number.isInteger` as "equals its floor", and a `bigint` as an unbounded integer.
 */
module Num {
  import opened Wrappers

  /** The argument of the 64- and 128-bit checks: a `number` or a `bigint`. */
  datatype Numeric = Number(x: real) | BigInt(n: int)

  /** `Number.isInteger`. */
  predicate IsInteger(x: real) {
    x.Floor as real == x
  }

  /** `checkInt`: `n` is an integer within [min, max], both ends included. */
  predicate CheckInt(n: real, min: real, max: real) {
    IsInteger(n) && n >= min && n <= max
  }

  /** `bigCheck`: a `number` that is not an integer fails at once; an integral `number` is
      converted to a `bigint`, and the `bigint` is compared with [min, max]. */
  predicate BigCheck(n: Numeric, min: int, max: int) {
    if n.Number? && !IsInteger(n.x) then false
    else
      var b := if n.Number? then n.x.Floor else n.n;
      b >= min && b <= max
  }

  predicate IsUint8(n: real) {
    CheckInt(n, 0.0, 255.0)
  }

  predicate IsUint16(n: real) {
    CheckInt(n, 0.0, 65535.0)
  }

  predicate IsUint32(n: real) {
    CheckInt(n, 0.0, 4_294_967_295.0)
  }

  predicate IsUint64(n: Numeric) {
    BigCheck(n, 0, 18_446_744_073_709_551_615)
  }

  predicate IsUint128(n: Numeric) {
    BigCheck(n, 0, 340_282_366_920_938_463_463_374_607_431_768_211_455)
  }

  predicate IsInt8(n: real) {
    CheckInt(n, -128.0, 127.0)
  }

  predicate IsInt16(n: real) {
    CheckInt(n, -32768.0, 32767.0)
  }

  predicate IsInt32(n: real) {
    CheckInt(n, -2_147_483_648.0, 2_147_483_647.0)
  }

  predicate IsInt64(n: Numeric) {
    BigCheck(n, -1 * 9_223_372_036_854_775_808, 9_223_372_036_854_775_807)
  }

  predicate IsInt128(n: Numeric) {
    BigCheck(n, -1 * 170_141_183_460_469_231_731_687_303_715_884_105_728,
      170_141_183_460_469_231_731_687_303_715_884_105_727)
  }

  // ---------------------------------------------------------------------------
  // Reference definitions: the ranges Infra gives, as powers of two
  // ---------------------------------------------------------------------------

  function Pow2(k: nat): (p: nat)
    ensures p >= 1
  {
    if k == 0 then 1 else 2 * Pow2(k - 1)
  }

  /** An unsigned integer of `bits` bits: an integer in [0, 2^bits - 1]. */
  predicate UnsignedFits(v: int, bits: nat) {
    0 <= v <= Pow2(bits) - 1
  }

  /** A signed integer of `bits` bits: an integer in [-2^(bits - 1), 2^(bits - 1) - 1]. */
  predicate SignedFits(v: int, bits: nat)
    requires bits >= 1
  {
    -(Pow2(bits - 1) as int) <= v <= Pow2(bits - 1) - 1
  }

  /** The integer a `number` or `bigint` stands for, if it is one. */
  function IntegerValue(n: Numeric): Option<int> {
    match n
    case Number(x) => if IsInteger(x) then Some(x.Floor) else None
    case BigInt(b) => Some(b)
  }

  lemma {:induction false} Pow2Add(a: nat, b: nat)
    ensures Pow2(a + b) == Pow2(a) * Pow2(b)
  {
    if a > 0 {
      Pow2Add(a - 1, b);
      assert Pow2(a + b) == 2 * Pow2(a - 1 + b);
    }
  }

  /** The powers of two behind the 8-bit bounds. */
  lemma Pow2Byte()
    ensures Pow2(7) == 128 && Pow2(8) == 256
  {
    assert Pow2(4) == 16;
    Pow2Add(4, 4);
  }

  /** The powers of two behind the 16-bit bounds. */
  lemma Pow2Short()
    ensures Pow2(15) == 32768 && Pow2(16) == 65536
  {
    Pow2Byte();
    Pow2Add(8, 8);
  }

  /** The powers of two behind the 32-bit bounds. */
  lemma Pow2Word()
    ensures Pow2(31) == 2_147_483_648 && Pow2(32) == 4_294_967_296
  {
    Pow2Short();
    Pow2Add(16, 16);
  }

  /** The powers of two behind the 64-bit bounds. */
  lemma Pow2Long()
    ensures Pow2(63) == 9_223_372_036_854_775_808 && Pow2(64) == 18_446_744_073_709_551_616
  {
    Pow2Word();
    Pow2Add(32, 32);
  }

  /** The powers of two behind the 128-bit bounds. */
  lemma Pow2Wide()
    ensures Pow2(127) == 170_141_183_460_469_231_731_687_303_715_884_105_728
    ensures Pow2(128) == 340_282_366_920_938_463_463_374_607_431_768_211_456
  {
    Pow2Long();
    Pow2Add(64, 64);
  }

  // ---------------------------------------------------------------------------
  // Each check accepts exactly its Infra range
  // ---------------------------------------------------------------------------

  /** `checkInt` on an integral number is the inclusive range test; on any other number it is
      false. */
  lemma CheckIntExact(v: int, x: real, min: real, max: real)
    ensures CheckInt(v as real, min, max) <==> min <= v as real <= max
    ensures !IsInteger(x) ==> !CheckInt(x, min, max)
  {
    assert (v as real).Floor == v;
  }

  /** An integral `number` and the `bigint` of equal value give `bigCheck` the same answer, and a
      non-integral `number` is rejected. */
  lemma BigCheckNumberAsBigInt(v: int, x: real, min: int, max: int)
    ensures BigCheck(Number(v as real), min, max) == BigCheck(BigInt(v), min, max)
    ensures BigCheck(BigInt(v), min, max) <==> min <= v <= max
    ensures !IsInteger(x) ==> !BigCheck(Number(x), min, max)
  {
    assert (v as real).Floor == v;
  }

  /** The 8-, 16- and 32-bit unsigned checks accept exactly the integers 0 .. 2^k - 1. */
  lemma UnsignedSmallExact(x: real)
    ensures IsUint8(x) <==> IsInteger(x) && UnsignedFits(x.Floor, 8)
    ensures IsUint16(x) <==> IsInteger(x) && UnsignedFits(x.Floor, 16)
    ensures IsUint32(x) <==> IsInteger(x) && UnsignedFits(x.Floor, 32)
  {
    Pow2Byte();
    Pow2Short();
    Pow2Word();
  }

  /** The 8-, 16- and 32-bit signed checks accept exactly the integers -2^(k-1) .. 2^(k-1) - 1. */
  lemma SignedSmallExact(x: real)
    ensures IsInt8(x) <==> IsInteger(x) && SignedFits(x.Floor, 8)
    ensures IsInt16(x) <==> IsInteger(x) && SignedFits(x.Floor, 16)
    ensures IsInt32(x) <==> IsInteger(x) && SignedFits(x.Floor, 32)
  {
    Pow2Byte();
    Pow2Short();
    Pow2Word();
  }

  /** The 64-bit unsigned check accepts exactly the integers 0 .. 2^64 - 1, whether given as a
      `number` or a `bigint`. */
  lemma Uint64Exact(n: Numeric)
    ensures IsUint64(n) <==> IntegerValue(n).Some? && UnsignedFits(IntegerValue(n).value, 64)
  {
    Pow2Long();
  }

  /** The 128-bit unsigned check accepts exactly the integers 0 .. 2^128 - 1. */
  lemma Uint128Exact(n: Numeric)
    ensures IsUint128(n) <==> IntegerValue(n).Some? && UnsignedFits(IntegerValue(n).value, 128)
  {
    Pow2Wide();
  }

  /** The 64-bit signed check accepts exactly the integers -2^63 .. 2^63 - 1. */
  lemma Int64Exact(n: Numeric)
    ensures IsInt64(n) <==> IntegerValue(n).Some? && SignedFits(IntegerValue(n).value, 64)
  {
    Pow2Long();
  }

  /** The 128-bit signed check accepts exactly the integers -2^127 .. 2^127 - 1. */
  lemma Int128Exact(n: Numeric)
    ensures IsInt128(n) <==> IntegerValue(n).Some? && SignedFits(IntegerValue(n).value, 128)
  {
    Pow2Wide();
  }

  /** Every check implies the next wider one of the same signedness. */
  lemma Widening(x: real, n: Numeric)
    ensures IsUint8(x) ==> IsUint16(x)
    ensures IsUint16(x) ==> IsUint32(x)
    ensures IsUint32(x) ==> IsUint64(Number(x))
    ensures IsUint64(n) ==> IsUint128(n)
    ensures IsInt8(x) ==> IsInt16(x)
    ensures IsInt16(x) ==> IsInt32(x)
    ensures IsInt32(x) ==> IsInt64(Number(x))
    ensures IsInt64(n) ==> IsInt128(n)
  {
  }

  /** A number that is not an integer, such as 0.5, fails every check. */
  lemma NonIntegersRejected(x: real)
    requires !IsInteger(x)
    ensures !IsUint8(x) && !IsUint16(x) && !IsUint32(x)
    ensures !IsUint64(Number(x)) && !IsUint128(Number(x))
    ensures !IsInt8(x) && !IsInt16(x) && !IsInt32(x)
    ensures !IsInt64(Number(x)) && !IsInt128(Number(x))
  {
  }

  /** The doc-comment examples of the unsigned checks. */
  lemma UnsignedCases()
    ensures !IsInteger(0.5)
    ensures IsUint8(0.0) && IsUint8(255.0) && !IsUint8(-1.0) && !IsUint8(256.0) && !IsUint8(0.5)
    ensures IsUint16(0.0) && IsUint16(65535.0) && !IsUint16(-1.0) && !IsUint16(65536.0)
    ensures IsUint32(4_294_967_295.0) && !IsUint32(-1.0) && !IsUint32(4_294_967_296.0) && !IsUint32(0.5)
    ensures IsUint64(BigInt(0)) && IsUint64(BigInt(Pow2(64) - 1))
    ensures !IsUint64(Number(-1.0)) && !IsUint64(BigInt(Pow2(64))) && !IsUint64(Number(0.5))
    ensures IsUint128(BigInt(0)) && IsUint128(BigInt(Pow2(128) - 1))
    ensures !IsUint128(Number(-1.0)) && !IsUint128(BigInt(Pow2(128)))
  {
    Pow2Long();
    Pow2Wide();
  }

  /** The doc-comment examples of the signed checks. */
  lemma SignedCases()
    ensures IsInt8(-128.0) && IsInt8(127.0) && !IsInt8(-129.0) && !IsInt8(128.0) && !IsInt8(0.5)
    ensures IsInt16(-32768.0) && IsInt16(32767.0) && !IsInt16(-32769.0) && !IsInt16(32768.0) && !IsInt16(0.5)
    ensures IsInt32(-2_147_483_648.0) && IsInt32(2_147_483_647.0)
    ensures !IsInt32(-2_147_483_649.0) && !IsInt32(2_147_483_648.0) && !IsInt32(0.5)
    ensures IsInt64(BigInt(-1 * 9_223_372_036_854_775_808)) && IsInt64(BigInt(9_223_372_036_854_775_807))
    ensures !IsInt64(BigInt(-1 * 9_223_372_036_854_775_809)) && !IsInt64(BigInt(9_223_372_036_854_775_808))
    ensures !IsInt64(Number(0.5))
  {
  }
}
