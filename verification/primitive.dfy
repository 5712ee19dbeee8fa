/** The fixed-width integer types that `lcvdef.hpp` names (`uchar`, `schar`,
    `ushort`, `short`, `uint`, `int`) and the conversions C++ performs
    between them. */
module Primitive {

  /** One byte of pixel memory. */
  type byte = b: int | 0 <= b < 256

  datatype IntType = UChar | SChar | UShort | Short | UInt | Int

  const INT32_MIN: int := -0x8000_0000
  const INT32_MAX: int := 0x7fff_ffff

  /** 2 to the power of the width of `t` in bits. */
  function Modulus(t: IntType): int {
    match t
    case UChar | SChar => 0x100
    case UShort | Short => 0x1_0000
    case UInt | Int => 0x1_0000_0000
  }

  function MinValue(t: IntType): int {
    match t
    case UChar | UShort | UInt => 0
    case SChar => -0x80
    case Short => -0x8000
    case Int => INT32_MIN
  }

  function MaxValue(t: IntType): int {
    MinValue(t) + Modulus(t) - 1
  }

  predicate InRange(t: IntType, v: int) {
    MinValue(t) <= v <= MaxValue(t)
  }

  /** The value a C++ conversion `(t)v` yields: the unique value of `t`
      congruent to `v` modulo 2^bits (two's complement for the signed
      types). */
  function Convert(t: IntType, v: int): (r: int)
    ensures InRange(t, r)
    ensures (v - r) % Modulus(t) == 0
    ensures InRange(t, v) ==> r == v
  {
    MinValue(t) + (v - MinValue(t)) % Modulus(t)
  }

  function Min(a: int, b: int): int {
    if a <= b then a else b
  }

  function Max(a: int, b: int): int {
    if a >= b then a else b
  }
}
