/** `lcvModulo` of `lcvmath.hpp`: a remainder that is never negative for a
    positive divisor, built from the C++ `%` operator. C++ integer division
    truncates toward zero, unlike Dafny's Euclidean `/` and `%`, so the
    truncating operators are defined here explicitly. */
module LcvMath {

  function Abs(a: int): nat {
    if a < 0 then -a else a
  }

  /** C++ `a / b`: the quotient truncated toward zero. */
  function TruncDiv(a: int, b: int): int
    requires b != 0
  {
    var q := Abs(a) / Abs(b);
    if (a < 0) != (b < 0) then -q else q
  }

  /** C++ `a % b`: the remainder that goes with `TruncDiv`. It has the sign
      of `a` and is smaller than `b` in magnitude. */
  function TruncRem(a: int, b: int): (r: int)
    requires b != 0
    ensures a == b * TruncDiv(a, b) + r
    ensures Abs(r) < Abs(b)
    ensures a >= 0 ==> r >= 0
    ensures a <= 0 ==> r <= 0
  {
    var r := a - b * TruncDiv(a, b);
    TruncRemMagnitude(a, b);
    r
  }

  /** The truncated remainder has the magnitude of the Euclidean remainder of
      the magnitudes, and the sign of the dividend. */
  lemma TruncRemMagnitude(a: int, b: int)
    requires b != 0
    ensures Abs(a - b * TruncDiv(a, b)) == Abs(a) % Abs(b)
    ensures a >= 0 ==> a - b * TruncDiv(a, b) >= 0
    ensures a <= 0 ==> a - b * TruncDiv(a, b) <= 0
  {
    var aa := Abs(a);
    var bb := Abs(b);
    var q: int := aa / bb;
    var p: int := bb * q;
    assert aa == p + aa % bb && 0 <= aa % bb < bb;
    TruncProduct(a, b);
  }

  /** `b * (a / b)` in C++ is the product of the magnitudes with the sign of
      `a`. */
  lemma TruncProduct(a: int, b: int)
    requires b != 0
    ensures b * TruncDiv(a, b) == if a < 0 then -(Abs(b) * (Abs(a) / Abs(b))) else Abs(b) * (Abs(a) / Abs(b))
  {
    var q: int := Abs(a) / Abs(b);
    SignCases(a < 0, b, Abs(b), TruncDiv(a, b), q);
  }

  lemma SignCases(neg: bool, b: int, bb: int, t: int, q: int)
    requires bb > 0 && (b < 0 ==> b == -bb) && (b >= 0 ==> b == bb)
    requires t == if neg != (b < 0) then -q else q
    ensures b * t == if neg then -(bb * q) else bb * q
  {
    MulSigns(bb, q);
  }

  lemma MulSigns(x: int, y: int)
    ensures (-x) * y == -(x * y) && x * (-y) == -(x * y) && (-x) * (-y) == x * y
  {
  }

  /** `lcvModulo(a, b)`, that is `(b + a % b) % b` with truncating `%`. For
      a positive divisor it is the mathematical (Euclidean) remainder; for a
      negative one it lies in (b, 0]. */
  function Modulo(a: int, b: int): (r: int)
    requires b != 0
    ensures b > 0 ==> 0 <= r < b && r == a % b
    ensures b < 0 ==> b < r <= 0
  {
    var s := b + TruncRem(a, b);
    var r := TruncRem(s, b);
    if b > 0 then
      assert a == b * (TruncDiv(a, b) + TruncDiv(s, b) - 1) + r;
      RemainderUnique(a, b, TruncDiv(a, b) + TruncDiv(s, b) - 1, r);
      r
    else
      r
  }

  lemma MulAtLeast(b: int, x: int)
    requires b > 0 && x >= 1
    ensures b * x >= b
  {
    var y := x - 1;
    assert b * x == b * y + b;
  }

  /** Quotient and remainder by a positive divisor are unique. */
  lemma RemainderUnique(a: int, b: int, q: int, r: int)
    requires b > 0
    requires a == b * q + r
    requires 0 <= r < b
    ensures a % b == r && a / b == q
  {
    var q0 := a / b;
    var r0 := a % b;
    assert a == b * q0 + r0;
    assert b * (q - q0) == r0 - r;
    if q > q0 {
      MulAtLeast(b, q - q0);
    } else if q < q0 {
      MulAtLeast(b, q0 - q);
    }
  }

  /** An index already in [0, b) is returned unchanged. */
  lemma ModuloInRange(a: int, b: int)
    requires 0 <= a < b
    ensures Modulo(a, b) == a
  {
    RemainderUnique(a, b, 0, a);
  }

  /** Negative indices wrap to the top of the range: -1 becomes b - 1. */
  lemma ModuloMinusOne(b: int)
    requires b > 0
    ensures Modulo(-1, b) == b - 1
  {
    RemainderUnique(-1, b, -1, b - 1);
  }

  /** Shifting the dividend by a multiple of the divisor does not change the
      result: `lcvModulo` is periodic with period `b`. */
  lemma ModuloPeriodic(a: int, b: int, k: int)
    requires b > 0
    ensures Modulo(a + k * b, b) == Modulo(a, b)
  {
    var r := a % b;
    assert a + k * b == b * (a / b + k) + r;
    RemainderUnique(a + k * b, b, a / b + k, r);
  }
}
