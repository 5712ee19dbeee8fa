/** The small value types of `element.hpp`, `point.hpp`, `size.hpp` and
    `rect.hpp`. `Element_` is modelled for any integer `Type`; the arithmetic
    of `br()`, `area()` and the two-point rectangle is modelled for the
    `int` instantiations `Point`, `Size` and `Rect`, as `int` arithmetic that
    wraps around modulo 2^32. */
module Geometry {
  import opened Primitive
  import opened Outcome

  // ---------------------------------------------------------------------
  // Element_<Type, N>

  /** `Element_<Type, N>`: the `N` values of its array. */
  datatype Element = Element(data: seq<int>)

  /** `e` is an `Element_<t, n>`. */
  predicate ElementOk(t: IntType, n: nat, e: Element) {
    |e.data| == n && forall i :: 0 <= i < n ==> InRange(t, e.data[i])
  }

  /** `Element_()`: the array is cleared with `memset`, so every value is
      zero. */
  function ZeroElement(t: IntType, n: nat): (e: Element)
    ensures ElementOk(t, n, e)
    ensures forall i :: 0 <= i < n ==> Index(e, i) == 0
  {
    Element(seq(n, _ => 0))
  }

  /** The constructors taking two to six values: each asserts that it was
      called with exactly `N` of them, then stores them in order. */
  function MakeElement(n: nat, args: seq<int>): (r: Result<Element>)
    requires 2 <= |args| <= 6
    ensures r.Ok? <==> |args| == n
    ensures r.Fail? ==> r.failure == AssertionFailed
    ensures r.Ok? ==> |r.value.data| == n && forall i :: 0 <= i < n ==> Index(r.value, i) == args[i]
  {
    if |args| != n then Fail(AssertionFailed) else Ok(Element(args))
  }

  /** `operator[](i)`: the `i`-th value, with no bounds check in the
      source. */
  function Index(e: Element, i: int): int
    requires 0 <= i < |e.data|
  {
    e.data[i]
  }

  /** An element is rebuilt by passing its own values to the constructor of
      its arity. */
  lemma ElementRebuilt(t: IntType, n: nat, e: Element)
    requires 2 <= n <= 6 && ElementOk(t, n, e)
    ensures MakeElement(n, seq(n, i requires 0 <= i < n => Index(e, i))) == Ok(e)
  {
    assert seq(n, i requires 0 <= i < n => Index(e, i)) == e.data;
  }

  // ---------------------------------------------------------------------
  // Point_<Type> and Point3_<Type>

  datatype Point = Point(x: int, y: int)

  datatype Point3 = Point3(x: int, y: int, z: int)

  predicate PointOk(t: IntType, p: Point) {
    InRange(t, p.x) && InRange(t, p.y)
  }

  predicate Point3Ok(t: IntType, p: Point3) {
    InRange(t, p.x) && InRange(t, p.y) && InRange(t, p.z)
  }

  /** `Point_()`. */
  function DefaultPoint(): Point {
    Point(0, 0)
  }

  /** `Point3_()`. */
  function DefaultPoint3(): Point3 {
    Point3(0, 0, 0)
  }

  /** `Point_(const Size_&)`: width becomes x, height becomes y. */
  function PointOfSize(s: Size): Point {
    Point(s.width, s.height)
  }

  /** `Point_(const Element_<Type, 2>&)`. */
  function PointOfElement(e: Element): Point
    requires |e.data| == 2
  {
    Point(Index(e, 0), Index(e, 1))
  }

  /** `operator Element_<AnotherType, 2>()`: the two-value constructor of
      the target type, whose `N == 2` assertion always holds. */
  function ElementOfPoint(to: IntType, p: Point): (e: Element)
    ensures ElementOk(to, 2, e)
  {
    MakeElement(2, [Convert(to, p.x), Convert(to, p.y)]).value
  }

  /** `operator Point_<AnotherType>()`: each coordinate converted. */
  function CastPoint(to: IntType, p: Point): (q: Point)
    ensures PointOk(to, q)
  {
    Point(Convert(to, p.x), Convert(to, p.y))
  }

  /** `Point3_(const Point_&)`: the point lifted to `z == 0`. */
  function Point3OfPoint(p: Point): Point3 {
    Point3(p.x, p.y, 0)
  }

  /** `Point3_(const Element_<Type, 3>&)`. */
  function Point3OfElement(e: Element): Point3
    requires |e.data| == 3
  {
    Point3(Index(e, 0), Index(e, 1), Index(e, 2))
  }

  /** `operator Element_<AnotherType, 3>()`. */
  function ElementOfPoint3(to: IntType, p: Point3): (e: Element)
    ensures ElementOk(to, 3, e)
  {
    MakeElement(3, [Convert(to, p.x), Convert(to, p.y), Convert(to, p.z)]).value
  }

  /** `operator Point3_<AnotherType>()`. */
  function CastPoint3(to: IntType, p: Point3): (q: Point3)
    ensures Point3Ok(to, q)
  {
    Point3(Convert(to, p.x), Convert(to, p.y), Convert(to, p.z))
  }

  /** A point survives the trip through `Element_<Type, 2>` and back, in
      both directions. */
  lemma PointElementRoundTrip(t: IntType, p: Point, e: Element)
    requires PointOk(t, p) && ElementOk(t, 2, e)
    ensures PointOfElement(ElementOfPoint(t, p)) == p
    ensures ElementOfPoint(t, PointOfElement(e)) == e
  {
    assert [e.data[0], e.data[1]] == e.data;
  }

  /** A 3-D point survives the trip through `Element_<Type, 3>` and back,
      in both directions. */
  lemma Point3ElementRoundTrip(t: IntType, p: Point3, e: Element)
    requires Point3Ok(t, p) && ElementOk(t, 3, e)
    ensures Point3OfElement(ElementOfPoint3(t, p)) == p
    ensures ElementOfPoint3(t, Point3OfElement(e)) == e
  {
    assert [e.data[0], e.data[1], e.data[2]] == e.data;
  }

  /** A conversion to a type that holds both coordinates loses nothing:
      converting back gives the point again. */
  lemma CastRoundTrip(from: IntType, to: IntType, p: Point, q: Point3)
    requires PointOk(from, p) && PointOk(to, p)
    requires Point3Ok(from, q) && Point3Ok(to, q)
    ensures CastPoint(to, p) == p && CastPoint(from, CastPoint(to, p)) == p
    ensures CastPoint3(to, q) == q && CastPoint3(from, CastPoint3(to, q)) == q
  {
  }

  /** A point lifted to 3-D keeps its coordinates and lies in the plane
      `z == 0`; the default 3-D point is the lift of the default point. */
  lemma LiftKeepsCoordinates(p: Point)
    ensures var q := Point3OfPoint(p); q.x == p.x && q.y == p.y && q.z == 0
    ensures Point3OfPoint(DefaultPoint()) == DefaultPoint3()
  {
  }

  // ---------------------------------------------------------------------
  // Size_<Type>

  datatype Size = Size(width: int, height: int)

  /** `Size_()`. */
  function DefaultSize(): Size {
    Size(0, 0)
  }

  /** `Size_(const Point_&)`: x becomes width, y becomes height. */
  function SizeOfPoint(p: Point): Size {
    Size(p.x, p.y)
  }

  /** `area()`: the product, computed in C++ and converted to `Type`. */
  function SizeArea(s: Size): (a: int)
    ensures InRange(Int, a)
  {
    Convert(Int, s.width * s.height)
  }

  /** `empty()`: a zero width or a zero height. */
  predicate SizeEmpty(s: Size) {
    s.width == 0 || s.height == 0
  }

  /** `operator Size_<AnotherType>()`. */
  function CastSize(to: IntType, s: Size): Size {
    Size(Convert(to, s.width), Convert(to, s.height))
  }

  /** `Point_(Size_(p)) == p` and `Size_(Point_(s)) == s`. */
  lemma SizePointRoundTrip(p: Point, s: Size)
    ensures PointOfSize(SizeOfPoint(p)) == p
    ensures SizeOfPoint(PointOfSize(s)) == s
  {
  }

  /** An empty size has area zero; when the product fits `int` the
      converse holds too. */
  lemma EmptyIffNoArea(s: Size)
    ensures SizeEmpty(s) ==> SizeArea(s) == 0
    ensures InRange(Int, s.width * s.height) ==> (SizeArea(s) == 0 <==> SizeEmpty(s))
  {
    if s.width != 0 && s.height != 0 {
      NonZeroProduct(s.width, s.height);
    }
  }

  lemma NonZeroProduct(a: int, b: int)
    requires a != 0 && b != 0
    ensures a * b != 0
  {
    if a > 0 && b > 0 {
      assert a * b >= b by { MulAtLeast(a, b); }
    } else if a > 0 {
      assert a * -b >= -b by { MulAtLeast(a, -b); }
    } else if b > 0 {
      assert -a * b >= b by { MulAtLeast(-a, b); }
    } else {
      assert -a * -b >= -b by { MulAtLeast(-a, -b); }
    }
  }

  lemma MulAtLeast(a: int, b: int)
    requires a >= 1 && b >= 1
    ensures a * b >= b
  {
  }

  /** Without that condition the area can wrap to zero: a 65536 by 65536
      size is not empty, yet its area wraps to 0. */
  lemma AreaWrapsToZero()
    ensures !SizeEmpty(Size(0x1_0000, 0x1_0000))
    ensures SizeArea(Size(0x1_0000, 0x1_0000)) == 0
  {
    assert 0x1_0000 * 0x1_0000 == Modulus(Int);
  }

  // ---------------------------------------------------------------------
  // Rect_<Type>

  datatype Rect = Rect(x: int, y: int, width: int, height: int)

  predicate RectOk(t: IntType, r: Rect) {
    InRange(t, r.x) && InRange(t, r.y) && InRange(t, r.width) && InRange(t, r.height)
  }

  /** `Rect_()`. */
  function DefaultRect(): Rect {
    Rect(0, 0, 0, 0)
  }

  /** `Rect_(const Point_& org, const Size_& size)`. */
  function RectOfPointSize(org: Point, size: Size): Rect {
    Rect(org.x, org.y, size.width, size.height)
  }

  /** `Rect_(const Point_& pt1, const Point_& pt2)`: the corner `pt1` and the
      extent `pt2 - pt1`, converted to `Type`. */
  function RectOfPoints(pt1: Point, pt2: Point): (r: Rect)
    requires PointOk(Int, pt1)
    ensures RectOk(Int, r)
  {
    Rect(pt1.x, pt1.y, Convert(Int, pt2.x - pt1.x), Convert(Int, pt2.y - pt1.y))
  }

  /** `area()` and `empty()` are those of the rectangle's size. */
  function RectArea(r: Rect): (a: int)
    ensures a == SizeArea(RectSize(r))
  {
    Convert(Int, r.width * r.height)
  }

  predicate RectEmpty(r: Rect) {
    r.width == 0 || r.height == 0
  }

  /** `tl()`: the top-left corner. */
  function Tl(r: Rect): Point {
    Point(r.x, r.y)
  }

  /** `br()`: the corner one past the bottom right, `(x + width, y +
      height)` converted to `Type`. */
  function Br(r: Rect): (p: Point)
    ensures PointOk(Int, p)
  {
    Point(Convert(Int, r.x + r.width), Convert(Int, r.y + r.height))
  }

  /** `size()`. */
  function RectSize(r: Rect): Size {
    Size(r.width, r.height)
  }

  /** `operator Rect_<AnotherType>()`. */
  function CastRect(to: IntType, r: Rect): (q: Rect)
    ensures RectOk(to, q)
  {
    Rect(Convert(to, r.x), Convert(to, r.y), Convert(to, r.width), Convert(to, r.height))
  }

  /** Every default value is zero, and the default rectangle is made of the
      default point and size. */
  lemma DefaultsAreZero()
    ensures DefaultPoint() == Point(0, 0) && DefaultPoint3() == Point3(0, 0, 0)
    ensures DefaultSize() == Size(0, 0) && DefaultRect() == Rect(0, 0, 0, 0)
    ensures Tl(DefaultRect()) == DefaultPoint() && RectSize(DefaultRect()) == DefaultSize()
  {
  }

  /** The default size and rectangle are empty and have area zero. */
  lemma DefaultsAreEmpty()
    ensures SizeEmpty(DefaultSize()) && SizeArea(DefaultSize()) == 0
    ensures RectEmpty(DefaultRect()) && RectArea(DefaultRect()) == 0
  {
    EmptyIffNoArea(DefaultSize());
  }

  /** Adding a multiple of 2^bits does not change a conversion. */
  lemma ConvertShift(t: IntType, v: int, k: int)
    ensures Convert(t, v + k * Modulus(t)) == Convert(t, v)
  {
    var m := Modulus(t);
    var lo := MinValue(t);
    var q := (v - lo) / m;
    var rem := (v - lo) % m;
    assert v - lo == q * m + rem;
    assert v + k * m - lo == (q + k) * m + rem;
    DivModUnique(v + k * m - lo, m, q + k, rem);
  }

  /** Euclidean division is unique. */
  lemma DivModUnique(a: int, m: int, q: int, rem: int)
    requires m > 0 && 0 <= rem < m && a == q * m + rem
    ensures a % m == rem
  {
    var q0 := a / m;
    var r0 := a % m;
    assert (q0 - q) * m == rem - r0;
    if q0 > q {
      MulAtLeast(q0 - q, m);
    } else if q0 < q {
      MulAtLeast(q - q0, m);
    }
  }

  /** Converting an intermediate result to `Type` and going on with it is
      the same as converting only at the end. */
  lemma ConvertInner(t: IntType, a: int, b: int)
    ensures Convert(t, a + Convert(t, b)) == Convert(t, a + b)
  {
    var m := Modulus(t);
    var c := Convert(t, b);
    var k := (b - c) / m;
    assert b - c == k * m by { DivExact(b - c, m); }
    assert a + c == (a + b) + (-k) * m;
    ConvertShift(t, a + b, -k);
  }

  lemma DivExact(x: int, m: int)
    requires m > 0 && x % m == 0
    ensures x == (x / m) * m
  {
  }

  /** Adding back a difference that was converted to `Type` returns the
      value of `Type` it was taken from. */
  lemma AddBack(t: IntType, a: int, b: int)
    requires InRange(t, b)
    ensures Convert(t, a + Convert(t, b - a)) == b
  {
    ConvertInner(t, a, b - a);
    assert a + (b - a) == b;
  }

  /** Taking away what was added, after a conversion to `Type`, returns the
      value of `Type` that was added. */
  lemma SubtractBack(t: IntType, a: int, w: int)
    requires InRange(t, w)
    ensures Convert(t, Convert(t, a + w) - a) == w
  {
    ConvertInner(t, -a, a + w);
    assert Convert(t, a + w) - a == -a + Convert(t, a + w);
    assert -a + (a + w) == w;
  }

  /** `Rect_(pt1, pt2)` has `pt1` as its top-left and `pt2` as its
      bottom-right corner, even when `pt2 - pt1` wraps around. */
  lemma CornersRoundTrip(pt1: Point, pt2: Point)
    requires PointOk(Int, pt1) && PointOk(Int, pt2)
    ensures Tl(RectOfPoints(pt1, pt2)) == pt1
    ensures Br(RectOfPoints(pt1, pt2)) == pt2
  {
    var r := RectOfPoints(pt1, pt2);
    assert r.width == Convert(Int, pt2.x - pt1.x) && r.height == Convert(Int, pt2.y - pt1.y);
    assert Convert(Int, pt1.x + r.width) == pt2.x by { AddBack(Int, pt1.x, pt2.x); }
    assert Convert(Int, pt1.y + r.height) == pt2.y by { AddBack(Int, pt1.y, pt2.y); }
  }

  /** Conversely a rectangle is rebuilt from its two corners. */
  lemma RectFromCorners(r: Rect)
    requires RectOk(Int, r)
    ensures RectOfPoints(Tl(r), Br(r)) == r
  {
    SubtractBack(Int, r.x, r.width);
    SubtractBack(Int, r.y, r.height);
  }

  /** `Rect_(r.tl(), r.size()) == r`, and a rectangle built from an origin
      and a size gives them back. */
  lemma OriginSizeRoundTrip(r: Rect, org: Point, size: Size)
    ensures RectOfPointSize(Tl(r), RectSize(r)) == r
    ensures Tl(RectOfPointSize(org, size)) == org && RectSize(RectOfPointSize(org, size)) == size
  {
  }

  /** A conversion to a type that holds every field loses nothing. */
  lemma CastRectRoundTrip(from: IntType, to: IntType, r: Rect)
    requires RectOk(from, r) && RectOk(to, r)
    ensures CastRect(to, r) == r && CastRect(from, CastRect(to, r)) == r
  {
  }
}
