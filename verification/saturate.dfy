/** The integer `clip` helpers and the integer-to-integer `saturate_cast`
    specialisations of `saturate.hpp`. Every specialisation is written with
    the exact template arguments the source passes to `clip`, so the value
    is computed through the same intermediate C++ conversions. */
module Saturate {
  import opened Primitive

  /** `clip<rt, IType, ut>(v, hi)`: `v` and `hi` are converted to `ut`, the
      smaller one is converted to `rt`. When nothing wraps it is min(v, hi). */
  function Clip(rt: IntType, ut: IntType, v: int, hi: int): (r: int)
    ensures InRange(rt, r)
    ensures InRange(ut, v) && InRange(ut, hi) && InRange(rt, Min(v, hi)) ==> r == Min(v, hi)
  {
    Convert(rt, Min(Convert(ut, v), Convert(ut, hi)))
  }

  /** `clip<rt, IType, ut>(v, hi, lo)`: max(min(v, hi), lo), evaluated in
      `ut` and converted to `rt`. */
  function Clip3(rt: IntType, ut: IntType, v: int, hi: int, lo: int): (r: int)
    ensures InRange(rt, r)
    ensures InRange(ut, v) && InRange(ut, hi) && InRange(ut, lo) && InRange(rt, Max(Min(v, hi), lo))
            ==> r == Max(Min(v, hi), lo)
  {
    Convert(rt, Max(Min(Convert(ut, v), Convert(ut, hi)), Convert(ut, lo)))
  }

  /** The saturating value of `v` in `t`: `v` itself when `t` can hold it,
      otherwise the nearest bound of `t`. */
  function Clamp(t: IntType, v: int): int {
    if v < MinValue(t) then MinValue(t)
    else if v > MaxValue(t) then MaxValue(t)
    else v
  }

  /** The (target, source) pairs for which `saturate.hpp` declares an
      explicit integer specialisation. */
  predicate Specialised(to: IntType, from: IntType) {
    match to
    case UChar => from != UChar
    case SChar => from != SChar
    case UShort => from in {SChar, Short, UInt, Int}
    case Short => from in {UShort, UInt, Int}
    case UInt => from in {SChar, Short, Int}
    case Int => from == UInt
  }

  /** The primary template `T(v)`, used for every pair without a
      specialisation. All such pairs widen, so the value is kept exactly. */
  function GenericCast(to: IntType, from: IntType, v: int): (r: int)
    requires InRange(from, v)
    requires !Specialised(to, from)
    ensures r == v
  {
    Convert(to, v)
  }

  function ToUChar(from: IntType, v: int): (r: int)
    requires InRange(from, v)
    ensures r == Clamp(UChar, v)
  {
    match from
    case UChar => GenericCast(UChar, from, v)
    case SChar => Clip3(UChar, Int, v, 0xff, 0)
    case UShort => Clip(UChar, UInt, v, 0xff)
    case Short => Clip3(UChar, Int, v, 0xff, 0)
    case UInt => Clip(UChar, UInt, v, 0xff)
    case Int => Clip3(UChar, Int, v, 0xff, 0)
  }

  function ToSChar(from: IntType, v: int): (r: int)
    requires InRange(from, v)
    ensures r == Clamp(SChar, v)
  {
    match from
    case UChar => Clip(SChar, UInt, v, 0x7f)
    case SChar => GenericCast(SChar, from, v)
    case UShort => Clip(SChar, UInt, v, 0x7f)
    case Short => Clip3(SChar, Int, v, 0x7f, -0x80)
    case UInt => Clip(SChar, UInt, v, 0x7f)
    case Int => Clip3(SChar, Int, v, 0x7f, -0x80)
  }

  function ToUShort(from: IntType, v: int): (r: int)
    requires InRange(from, v)
    ensures r == Clamp(UShort, v)
  {
    match from
    case UChar => GenericCast(UShort, from, v)
    case SChar => Clip3(UShort, Int, v, 0xffff, 0)
    case UShort => GenericCast(UShort, from, v)
    case Short => Clip3(UShort, Int, v, 0xffff, 0)
    case UInt => Clip(UShort, UInt, v, 0xffff)
    case Int => Clip3(UShort, Int, v, 0xffff, 0)
  }

  function ToShort(from: IntType, v: int): (r: int)
    requires InRange(from, v)
    ensures r == Clamp(Short, v)
  {
    match from
    case UChar => GenericCast(Short, from, v)
    case SChar => GenericCast(Short, from, v)
    case UShort => Clip(Short, UInt, v, 0x7fff)
    case Short => GenericCast(Short, from, v)
    case UInt => Clip(Short, UInt, v, 0x7fff)
    case Int => Clip3(Short, Int, v, 0x7fff, -0x8000)
  }

  /** The `uint` specialisations clip in the source's own type and then cast
      the `uint` result to `uint` once more. */
  function ToUInt(from: IntType, v: int): (r: int)
    requires InRange(from, v)
    ensures r == Clamp(UInt, v)
  {
    match from
    case UChar => GenericCast(UInt, from, v)
    case SChar => Convert(UInt, Clip3(UInt, SChar, v, 0x7f, 0))
    case UShort => GenericCast(UInt, from, v)
    case Short => Convert(UInt, Clip3(UInt, Short, v, 0x7fff, 0))
    case UInt => GenericCast(UInt, from, v)
    case Int => Convert(UInt, Clip3(UInt, Int, v, INT32_MAX, 0))
  }

  function ToInt(from: IntType, v: int): (r: int)
    requires InRange(from, v)
    ensures r == Clamp(Int, v)
  {
    match from
    case UInt => Clip(Int, UInt, v, INT32_MAX)
    case _ => GenericCast(Int, from, v)
  }

  /** `saturate_cast<to>(v)` for a `v` of integer type `from`. */
  function SaturateCast(to: IntType, from: IntType, v: int): (r: int)
    requires InRange(from, v)
    ensures InRange(to, r)
    ensures r == Clamp(to, v)
    ensures InRange(to, v) ==> r == v
  {
    match to
    case UChar => ToUChar(from, v)
    case SChar => ToSChar(from, v)
    case UShort => ToUShort(from, v)
    case Short => ToShort(from, v)
    case UInt => ToUInt(from, v)
    case Int => ToInt(from, v)
  }

  /** A saturating cast is idempotent: saturating an already saturated value
      changes nothing. */
  lemma SaturateCastIdempotent(to: IntType, from: IntType, v: int)
    requires InRange(from, v)
    requires InRange(from, SaturateCast(to, from, v))
    ensures SaturateCast(to, from, SaturateCast(to, from, v)) == SaturateCast(to, from, v)
  {
  }

  /** Saturation is monotone: it never reverses the order of two values. */
  lemma SaturateCastMonotone(to: IntType, from: IntType, v: int, w: int)
    requires InRange(from, v) && InRange(from, w)
    requires v <= w
    ensures SaturateCast(to, from, v) <= SaturateCast(to, from, w)
  {
  }
}
