/** The colour conversions of `color.hpp`: per-pixel channel permutations,
    alpha insertion and removal, and integer averaging to gray on 8-bit
    interleaved buffers, and `cvtColor`, which picks the routine for a
    conversion code. Every routine asserts the type of its source, builds a
    fresh `dst_image` of the same `cols` and `rows`, fills it in a nested
    loop, and only then assigns it to `dst`. */
module Color {
  import opened Primitive
  import opened Outcome
  import opened MatrixModel
  import opened MatrixOps

  // ---------------------------------------------------------------------
  // Pixel kernels

  /** The eight routines `cvtColor_*`. */
  datatype Conversion =
    | BGR2RGB | BGR2BGRA | BGR2GRAY
    | BGRA2RGBA | BGRA2BGR | BGRA2GRAY
    | GRAY2BGR | GRAY2BGRA

  /** The channel count a routine asserts of its source: `LCV_8UC3` is three
      8-bit channels, `LCV_8UC4` four and `LCV_8UC1` one. */
  function SrcChannels(c: Conversion): nat {
    match c
    case BGR2RGB | BGR2BGRA | BGR2GRAY => 3
    case BGRA2RGBA | BGRA2BGR | BGRA2GRAY => 4
    case GRAY2BGR | GRAY2BGRA => 1
  }

  /** The channel count of the `dst_image` a routine builds. */
  function DstChannels(c: Conversion): nat {
    match c
    case BGR2RGB | BGRA2BGR | GRAY2BGR => 3
    case BGR2BGRA | BGRA2RGBA | GRAY2BGRA => 4
    case BGR2GRAY | BGRA2GRAY => 1
  }

  /** `(byte)(((int)b + g + r) / 3)`: the mean of three channels rounded
      down. It never exceeds 255, so the cast to `byte` keeps the value, and
      it lies between the smallest and the largest channel. */
  function Gray(b: byte, g: byte, r: byte): (v: byte)
    ensures 3 * v <= b + g + r < 3 * v + 3
    ensures Min(b, Min(g, r)) <= v <= Max(b, Max(g, r))
  {
    Convert(UChar, (b + g + r) / 3)
  }

  /** The output pixel the inner loop of routine `c` writes for input pixel
      `p` (channel 0 first). */
  function ConvertPixel(c: Conversion, p: seq<byte>): (q: seq<byte>)
    requires |p| == SrcChannels(c)
    ensures |q| == DstChannels(c)
  {
    match c
    case BGR2RGB => [p[2], p[1], p[0]]
    case BGR2BGRA => [p[0], p[1], p[2], 0]
    case BGR2GRAY => [Gray(p[0], p[1], p[2])]
    case BGRA2RGBA => [p[2], p[1], p[0], p[3]]
    case BGRA2BGR => [p[0], p[1], p[2]]
    case BGRA2GRAY => [Gray(p[0], p[1], p[2])]
    case GRAY2BGR => [p[0], p[0], p[0]]
    case GRAY2BGRA => [p[0], p[0], p[0], 0]
  }

  /** Pixels `ps`, end to end. */
  function Concat(ps: seq<seq<byte>>): seq<byte> {
    if ps == [] then [] else Concat(ps[..|ps| - 1]) + ps[|ps| - 1]
  }

  /** Every pixel of `ps` is `e` bytes wide. */
  predicate Uniform(ps: seq<seq<byte>>, e: nat) {
    forall j :: 0 <= j < |ps| ==> |ps[j]| == e
  }

  /** Pixel `i` of `Concat(ps)` is `ps[i]`. */
  lemma {:induction false} ConcatPixel(ps: seq<seq<byte>>, e: nat, i: nat)
    requires Uniform(ps, e) && i < |ps|
    ensures |Concat(ps)| == |ps| * e && (i + 1) * e <= |Concat(ps)|
    ensures Pixel(Concat(ps), e, i) == ps[i]
  {
    var init := ps[..|ps| - 1];
    ConcatLength(init, e);
    MulStep(|init|, e);
    if i < |ps| - 1 {
      ConcatPixel(init, e, i);
      PixelOfAppend(Concat(ps), Concat(init), ps[|ps| - 1], e, i, ps[i]);
    } else {
      PixelOfLast(Concat(ps), Concat(init), ps[|ps| - 1], e, i);
    }
  }

  lemma {:induction false} ConcatLength(ps: seq<seq<byte>>, e: nat)
    requires Uniform(ps, e)
    ensures |Concat(ps)| == |ps| * e
  {
    if ps != [] {
      ConcatLength(ps[..|ps| - 1], e);
      MulStep(|ps| - 1, e);
    }
  }

  /** The converted pixels of the first `n` pixels of `src`, one by one. */
  function Outputs(c: Conversion, src: seq<byte>, n: nat): (ps: seq<seq<byte>>)
    requires n * SrcChannels(c) <= |src|
    ensures |ps| == n && Uniform(ps, DstChannels(c))
  {
    seq(n, i requires 0 <= i < n => ScaleBound(i + 1, n, SrcChannels(c), 0);
      ConvertPixel(c, Pixel(src, SrcChannels(c), i)))
  }

  /** The first `n` pixels of `src`, each converted, end to end. */
  function ConvertPixels(c: Conversion, src: seq<byte>, n: nat): (r: seq<byte>)
    requires n * SrcChannels(c) <= |src|
    ensures |r| == n * DstChannels(c)
  {
    ConcatLength(Outputs(c, src, n), DstChannels(c));
    Concat(Outputs(c, src, n))
  }

  lemma MulStep(i: nat, e: nat)
    ensures i * e + e == (i + 1) * e
  {
  }

  /** Pixel `i` of the converted buffer is pixel `i` of the source,
      converted. */
  lemma ConvertPixelsAt(c: Conversion, src: seq<byte>, n: nat, i: nat)
    requires n * SrcChannels(c) <= |src| && i < n
    ensures (i + 1) * SrcChannels(c) <= |src|
    ensures (i + 1) * DstChannels(c) <= |ConvertPixels(c, src, n)|
    ensures Pixel(ConvertPixels(c, src, n), DstChannels(c), i) == ConvertPixel(c, Pixel(src, SrcChannels(c), i))
  {
    ScaleBound(i + 1, n, SrcChannels(c), 0);
    ConcatPixel(Outputs(c, src, n), DstChannels(c), i);
  }

  /** One more pixel converted comes last. */
  lemma ConvertPixelsNext(c: Conversion, src: seq<byte>, i: nat)
    requires (i + 1) * SrcChannels(c) <= |src|
    ensures i * SrcChannels(c) <= |src|
    ensures ConvertPixels(c, src, i + 1) == ConvertPixels(c, src, i) + ConvertPixel(c, Pixel(src, SrcChannels(c), i))
  {
    MulStep(i, SrcChannels(c));
    var ps := Outputs(c, src, i + 1);
    assert ps[..i] == Outputs(c, src, i);
  }

  /** Appending leaves the pixels already there alone. */
  lemma PixelOfAppend(s: seq<byte>, a: seq<byte>, b: seq<byte>, e: nat, i: nat, p: seq<byte>)
    requires s == a + b && (i + 1) * e <= |a| && Pixel(a, e, i) == p
    ensures (i + 1) * e <= |s| && Pixel(s, e, i) == p
  {
    assert (a + b)[i * e .. (i + 1) * e] == a[i * e .. (i + 1) * e];
  }

  /** The pixel appended to `i` whole pixels is pixel `i`. */
  lemma PixelOfLast(s: seq<byte>, a: seq<byte>, b: seq<byte>, e: nat, i: nat)
    requires s == a + b && |a| == i * e && |b| == e
    ensures (i + 1) * e == |s| && Pixel(s, e, i) == b
  {
    assert (i + 1) * e == i * e + e;
  }

  /** Two buffers of `n` pixels that agree pixel by pixel are equal. */
  lemma {:induction false} PixelsDetermine(a: seq<byte>, b: seq<byte>, e: nat, n: nat)
    requires |a| == n * e && |b| == n * e
    requires forall i :: 0 <= i < n ==> Pixel(a, e, i) == Pixel(b, e, i)
    ensures a == b
  {
    if n > 0 {
      var m := (n - 1) * e;
      assert |a| == m + e;
      forall i | 0 <= i < n - 1
        ensures Pixel(a[..m], e, i) == Pixel(b[..m], e, i)
      {
        MulMono(e, i + 1, n - 1);
        PixelOfPrefix(a, m, e, i);
        PixelOfPrefix(b, m, e, i);
      }
      PixelsDetermine(a[..m], b[..m], e, n - 1);
      assert a[m..] == Pixel(a, e, n - 1) && b[m..] == Pixel(b, e, n - 1);
      assert a == a[..m] + a[m..] && b == b[..m] + b[m..];
    }
  }

  /** Converting with `c1` and then `c2` is converting with `c3` on whole
      buffers as soon as it is so on every pixel. */
  lemma Composition(c1: Conversion, c2: Conversion, c3: Conversion, src: seq<byte>, n: nat)
    requires DstChannels(c1) == SrcChannels(c2) && SrcChannels(c3) == SrcChannels(c1) && DstChannels(c3) == DstChannels(c2)
    requires forall p :: |p| == SrcChannels(c1) ==> ConvertPixel(c2, ConvertPixel(c1, p)) == ConvertPixel(c3, p)
    requires n * SrcChannels(c1) <= |src|
    ensures ConvertPixels(c2, ConvertPixels(c1, src, n), n) == ConvertPixels(c3, src, n)
  {
    var mid := ConvertPixels(c1, src, n);
    var a := ConvertPixels(c2, mid, n);
    var b := ConvertPixels(c3, src, n);
    forall i | 0 <= i < n
      ensures Pixel(a, DstChannels(c2), i) == Pixel(b, DstChannels(c2), i)
    {
      ConvertPixelsAt(c1, src, n, i);
      ConvertPixelsAt(c2, mid, n, i);
      ConvertPixelsAt(c3, src, n, i);
    }
    PixelsDetermine(a, b, DstChannels(c2), n);
  }

  /** Converting with `c1` and then `c2` gives back the source pixels as soon
      as `c2` undoes `c1` on every pixel. */
  lemma RoundTrip(c1: Conversion, c2: Conversion, src: seq<byte>, n: nat)
    requires DstChannels(c1) == SrcChannels(c2) && DstChannels(c2) == SrcChannels(c1)
    requires forall p :: |p| == SrcChannels(c1) ==> ConvertPixel(c2, ConvertPixel(c1, p)) == p
    requires n * SrcChannels(c1) <= |src|
    ensures ConvertPixels(c2, ConvertPixels(c1, src, n), n) == src[..n * SrcChannels(c1)]
  {
    var k := SrcChannels(c1);
    var mid := ConvertPixels(c1, src, n);
    var a := ConvertPixels(c2, mid, n);
    var b := src[..n * k];
    forall i | 0 <= i < n
      ensures Pixel(a, k, i) == Pixel(b, k, i)
    {
      ConvertPixelsAt(c1, src, n, i);
      ConvertPixelsAt(c2, mid, n, i);
      PixelOfPrefix(src, n * k, k, i);
    }
    PixelsDetermine(a, b, k, n);
  }

  /** `BGR2RGB` is its own inverse. */
  lemma SwapRedBlueInvolution(src: seq<byte>, n: nat)
    requires n * 3 <= |src|
    ensures ConvertPixels(BGR2RGB, ConvertPixels(BGR2RGB, src, n), n) == src[..n * 3]
  {
    forall p: seq<byte> | |p| == 3
      ensures ConvertPixel(BGR2RGB, ConvertPixel(BGR2RGB, p)) == p
    {
      assert p == [p[0], p[1], p[2]];
    }
    RoundTrip(BGR2RGB, BGR2RGB, src, n);
  }

  /** `BGRA2RGBA` is its own inverse and keeps alpha. */
  lemma SwapRedBlueAlphaInvolution(src: seq<byte>, n: nat)
    requires n * 4 <= |src|
    ensures ConvertPixels(BGRA2RGBA, ConvertPixels(BGRA2RGBA, src, n), n) == src[..n * 4]
  {
    forall p: seq<byte> | |p| == 4
      ensures ConvertPixel(BGRA2RGBA, ConvertPixel(BGRA2RGBA, p)) == p
    {
      assert p == [p[0], p[1], p[2], p[3]];
    }
    RoundTrip(BGRA2RGBA, BGRA2RGBA, src, n);
  }

  /** Dropping the alpha channel that `BGR2BGRA` added gives back the
      source. */
  lemma AlphaRoundTrip(src: seq<byte>, n: nat)
    requires n * 3 <= |src|
    ensures ConvertPixels(BGRA2BGR, ConvertPixels(BGR2BGRA, src, n), n) == src[..n * 3]
  {
    forall p: seq<byte> | |p| == 3
      ensures ConvertPixel(BGRA2BGR, ConvertPixel(BGR2BGRA, p)) == p
    {
      assert p == [p[0], p[1], p[2]];
    }
    RoundTrip(BGR2BGRA, BGRA2BGR, src, n);
  }

  /** The mean of three equal channels is that channel. */
  lemma GrayOfEqual(g: byte)
    ensures Gray(g, g, g) == g
  {
  }

  /** Averaging a gray image spread over three channels gives it back. */
  lemma GrayRoundTrip(src: seq<byte>, n: nat)
    requires n <= |src|
    ensures ConvertPixels(BGR2GRAY, ConvertPixels(GRAY2BGR, src, n), n) == src[..n]
  {
    forall p: seq<byte> | |p| == 1
      ensures ConvertPixel(BGR2GRAY, ConvertPixel(GRAY2BGR, p)) == p
    {
      GrayOfEqual(p[0]);
      assert p == [p[0]];
    }
    RoundTrip(GRAY2BGR, BGR2GRAY, src, n);
  }

  /** The same with the alpha channel in between. */
  lemma GrayAlphaRoundTrip(src: seq<byte>, n: nat)
    requires n <= |src|
    ensures ConvertPixels(BGRA2GRAY, ConvertPixels(GRAY2BGRA, src, n), n) == src[..n]
  {
    forall p: seq<byte> | |p| == 1
      ensures ConvertPixel(BGRA2GRAY, ConvertPixel(GRAY2BGRA, p)) == p
    {
      GrayOfEqual(p[0]);
      assert p == [p[0]];
    }
    RoundTrip(GRAY2BGRA, BGRA2GRAY, src, n);
  }

  /** `BGRA2GRAY` ignores alpha: it is `BGR2GRAY` after dropping alpha. */
  lemma GrayIgnoresAlpha(src: seq<byte>, n: nat)
    requires n * 4 <= |src|
    ensures ConvertPixels(BGRA2GRAY, src, n) == ConvertPixels(BGR2GRAY, ConvertPixels(BGRA2BGR, src, n), n)
  {
    forall p: seq<byte> | |p| == 4
      ensures ConvertPixel(BGR2GRAY, ConvertPixel(BGRA2BGR, p)) == ConvertPixel(BGRA2GRAY, p)
    {
    }
    Composition(BGRA2BGR, BGR2GRAY, BGRA2GRAY, src, n);
  }

  // ---------------------------------------------------------------------
  // The nested loop

  /** The number of pixels `for (y = 0; y < rows; ++y) for (x = 0; x < cols;
      ++x)` visits: none unless both bounds are positive. */
  function Visited(cols: int, rows: int): nat {
    if cols > 0 && rows > 0 then
      MulMono(cols, 0, rows);
      cols * rows
    else
      0
  }

  /** One more row visits `cols` more pixels. */
  lemma VisitedNextRow(cols: int, y: nat)
    requires cols > 0
    ensures Visited(cols, y + 1) == Visited(cols, y) + cols
  {
  }

  lemma VisitedMono(cols: int, a: int, b: int)
    requires 0 <= a <= b
    ensures Visited(cols, a) <= Visited(cols, b)
  {
    if cols > 0 && a > 0 {
      MulMono(cols, a, b);
    }
  }

  /** The loops of a routine: for each row `y` and column `x`, pixel
      `y * cols + x` of the source is converted into the same pixel of
      `dst_image`. The result is what the loops write, in the order they
      write it; `dst_image` keeps the allocator's bytes after it. */
  method ConvertBuffer(c: Conversion, src: seq<byte>, cols: int, rows: int) returns (out: seq<byte>)
    requires Visited(cols, rows) * SrcChannels(c) <= |src|
    ensures out == ConvertPixels(c, src, Visited(cols, rows))
  {
    var total := Visited(cols, rows);
    out := [];
    var y := 0;
    while y < rows
      invariant 0 <= y <= Max(rows, 0)
      invariant Visited(cols, y) <= total && Visited(cols, y) * SrcChannels(c) <= |src|
      invariant out == ConvertPixels(c, src, Visited(cols, y))
    {
      VisitedMono(cols, y + 1, rows);
      if cols > 0 {
        VisitedNextRow(cols, y);
      }
      ScaleBound(Visited(cols, y + 1), total, SrcChannels(c), DstChannels(c));
      out := ConvertRow(c, src, out, Visited(cols, y), Visited(cols, y + 1));
      y := y + 1;
    }
  }

  /** `n <= total` pixels fit wherever `total` pixels fit. */
  lemma ScaleBound(n: nat, total: nat, k: nat, d: nat)
    requires n <= total
    ensures n * k <= total * k && n * d <= total * d
  {
    MulMono(k, n, total);
    MulMono(d, n, total);
  }

  /** The inner loop: pixels `start .. end - 1` of one row, after the pixels
      before `start`; `i` is `y * cols + x`. */
  method ConvertRow(c: Conversion, src: seq<byte>, out0: seq<byte>, start: nat, end: nat) returns (out: seq<byte>)
    requires start <= end && end * SrcChannels(c) <= |src| && start * SrcChannels(c) <= |src|
    requires out0 == ConvertPixels(c, src, start)
    ensures out == ConvertPixels(c, src, end)
  {
    out := out0;
    var i := start;
    while i < end
      invariant start <= i <= end && i * SrcChannels(c) <= |src|
      invariant out == ConvertPixels(c, src, i)
    {
      ScaleBound(i + 1, end, SrcChannels(c), DstChannels(c));
      ConvertPixelsNext(c, src, i);
      out := out + ConvertPixel(c, Pixel(src, SrcChannels(c), i));
      i := i + 1;
    }
  }

  // ---------------------------------------------------------------------
  // The routines on matrices

  /** The `8uc<k>` type assertion of routine `c` holds of `m`. */
  predicate SourceTypeOk(c: Conversion, m: Matrix) {
    m.nchans == SrcChannels(c) && m.depth == 8
  }

  /** The request `Matrix dst_image(src.cols, src.rows, LCV_8UC<k>)` makes
      of `malloc`: `cols * rows * k * 8` bytes. */
  function OutputSize(w: World, src: Var, c: Conversion): int
    requires src in w.vars
  {
    w.vars[src].cols * w.vars[src].rows * DstChannels(c) * 8
  }

  /** The pixels of a source of the right type lie inside its bytes. */
  lemma InputFits(w: World, src: Var, c: Conversion)
    requires PointersOk(w) && src in w.vars && SourceTypeOk(c, w.vars[src])
    ensures Visited(w.vars[src].cols, w.vars[src].rows) * SrcChannels(c) <= |Bytes(w, w.vars[src])|
  {
    var s := w.vars[src];
    assert PointerOk(w, s);
    assert ElemSize(s) == SrcChannels(c);
    if s.cols > 0 && s.rows > 0 {
      assert Visited(s.cols, s.rows) * SrcChannels(c) == Footprint(s);
    }
  }

  /** The converted pixels fit in the block `dst_image` gets. */
  lemma OutputFits(cols: int, rows: int, d: nat, size: int)
    requires size == cols * rows * d * 8 && size >= 0
    ensures Visited(cols, rows) * d <= size
  {
    if cols > 0 && rows > 0 {
      var p := cols * rows;
      assert size == p * d * 8;
      MulMono(p, 0, d);
      assert p * d >= 0;
    }
  }

  /** The converted pixels of a source of the right type. */
  function Converted(w: World, src: Var, c: Conversion): (r: seq<byte>)
    requires PointersOk(w) && src in w.vars && SourceTypeOk(c, w.vars[src])
    ensures |r| == Visited(w.vars[src].cols, w.vars[src].rows) * DstChannels(c)
  {
    InputFits(w, src, c);
    ConvertPixels(c, Bytes(w, w.vars[src]), Visited(w.vars[src].cols, w.vars[src].rows))
  }

  /** `cvtColor_<c>(src, dst)`: assert the type of `src`, build `dst_image`
      (which throws when `malloc` fails), convert every pixel into it,
      `dst = dst_image`, and destroy `dst_image` (here `tmp`). `dst` may be
      `src`: the pixels are read before `dst` changes. */
  function ConvertColor(w: World, c: Conversion, src: Var, dst: Var, tmp: Var, alloc: Option<seq<byte>>): (r: Result<World>)
    requires Valid(w) && src in w.vars && dst in w.vars && tmp !in w.vars
    requires Fits(alloc, OutputSize(w, src, c))
    ensures r == Fail(AssertionFailed) <==> !SourceTypeOk(c, w.vars[src])
    ensures r == Fail(BadAlloc) <==> SourceTypeOk(c, w.vars[src]) && alloc.None?
    ensures r.Ok? <==> SourceTypeOk(c, w.vars[src]) && alloc.Some?
    ensures r.Ok? ==> Valid(r.value) && r.value.vars.Keys == w.vars.Keys
  {
    var s := w.vars[src];
    if !SourceTypeOk(c, s) then
      Fail(AssertionFailed)
    else if alloc.None? then
      Fail(BadAlloc)
    else
      OutputFits(s.cols, s.rows, DstChannels(c), |alloc.value|);
      var r := Produce(w, dst, tmp, s.cols, s.rows, DstChannels(c), 8, alloc, Converted(w, src, c));
      assert r.Ok?;
      r
  }

  /** `cvtColor_<c>(src, dst)` as the routine runs it: the nested loops of
      `ConvertBuffer` produce the pixels that are written into `dst_image`.
      The outcome is the one `ConvertColor` describes. */
  method RunConvertColor(w: World, c: Conversion, src: Var, dst: Var, tmp: Var, alloc: Option<seq<byte>>) returns (r: Result<World>)
    requires Valid(w) && src in w.vars && dst in w.vars && tmp !in w.vars
    requires Fits(alloc, OutputSize(w, src, c))
    ensures r == ConvertColor(w, c, src, dst, tmp, alloc)
  {
    var s := w.vars[src];
    if !SourceTypeOk(c, s) {
      return Fail(AssertionFailed);
    }
    if alloc.None? {
      return Fail(BadAlloc);
    }
    InputFits(w, src, c);
    var pixels := ConvertBuffer(c, Bytes(w, s), s.cols, s.rows);
    OutputFits(s.cols, s.rows, DstChannels(c), |alloc.value|);
    r := Produce(w, dst, tmp, s.cols, s.rows, DstChannels(c), 8, alloc, pixels);
  }

  /** After a conversion `dst` has the source's `cols` and `rows`, the
      output type, and sole ownership of a block no object held before,
      which starts with the converted pixels. */
  lemma ConvertColorTarget(w: World, c: Conversion, src: Var, dst: Var, tmp: Var, alloc: Option<seq<byte>>)
    requires Valid(w) && src in w.vars && dst in w.vars && tmp !in w.vars
    requires Fits(alloc, OutputSize(w, src, c)) && alloc.Some? && SourceTypeOk(c, w.vars[src])
    ensures |Converted(w, src, c)| <= |alloc.value|
    ensures var r := ConvertColor(w, c, src, dst, tmp, alloc).value;
      var s := w.vars[src];
      var m := r.vars[dst];
      && Valid(r) && r.vars.Keys == w.vars.Keys
      && m.cols == s.cols && m.rows == s.rows && m.nchans == DstChannels(c) && m.depth == 8
      && PointerOk(r, m) && m.data.Some? && m.data.value !in w.blocks && Refs(r.vars, m.data.value) == {dst}
      && Bytes(r, m) == Overwrite(alloc.value, Converted(w, src, c))
  {
    var s := w.vars[src];
    OutputFits(s.cols, s.rows, DstChannels(c), |alloc.value|);
    var content := Converted(w, src, c);
    assert Convert(UShort, DstChannels(c)) == DstChannels(c) && Convert(UShort, 8) == 8;
    ProduceTarget(w, dst, tmp, s.cols, s.rows, DstChannels(c), 8, alloc, content);
    var r := ConvertColor(w, c, src, dst, tmp, alloc).value;
    assert PointersOk(r);
  }

  /** A conversion changes no object but `dst`, not even one that shared
      `dst`'s old block. */
  lemma ConvertColorFrame(w: World, c: Conversion, src: Var, dst: Var, tmp: Var, alloc: Option<seq<byte>>)
    requires Valid(w) && src in w.vars && dst in w.vars && tmp !in w.vars
    requires Fits(alloc, OutputSize(w, src, c)) && alloc.Some? && SourceTypeOk(c, w.vars[src])
    ensures var r := ConvertColor(w, c, src, dst, tmp, alloc).value;
      forall u :: u in w.vars && u != dst ==> r.vars[u] == w.vars[u] && Bytes(r, w.vars[u]) == Bytes(w, w.vars[u])
  {
    var s := w.vars[src];
    OutputFits(s.cols, s.rows, DstChannels(c), |alloc.value|);
    ProduceFrame(w, dst, tmp, s.cols, s.rows, DstChannels(c), 8, alloc, Converted(w, src, c));
  }

  /** A pixel inside the prefix written over a buffer is the prefix's. */
  lemma PixelOfOverwrite(b: seq<byte>, p: seq<byte>, e: nat, i: nat)
    requires |p| <= |b| && (i + 1) * e <= |p|
    ensures Pixel(Overwrite(b, p), e, i) == Pixel(p, e, i)
  {
    PixelOfPrefix(Overwrite(b, p), |p|, e, i);
  }

  /** After a conversion, `at(y, x)` of `dst` is what `at(y, x)` of `src`
      read before, converted, at every position of `src`; this holds when
      `dst` is `src` too. */
  lemma ConvertColorPixels(w: World, c: Conversion, src: Var, dst: Var, tmp: Var, alloc: Option<seq<byte>>, y: int, x: int)
    requires Valid(w) && src in w.vars && dst in w.vars && tmp !in w.vars
    requires Fits(alloc, OutputSize(w, src, c)) && alloc.Some? && SourceTypeOk(c, w.vars[src])
    requires 0 <= y < w.vars[src].rows && 0 <= x < w.vars[src].cols
    ensures var r := ConvertColor(w, c, src, dst, tmp, alloc).value;
      var s := w.vars[src];
      var m := r.vars[dst];
      && PointerOk(w, s) && s.data.Some? && ElemSize(s) == SrcChannels(c)
      && PointerOk(r, m) && m.data.Some? && 0 <= y < m.rows && 0 <= x < m.cols && ElemSize(m) == DstChannels(c)
      && At(r, m, y, x) == ConvertPixel(c, At(w, s, y, x))
  {
    var r := ConvertColor(w, c, src, dst, tmp, alloc).value;
    var s := w.vars[src];
    assert PointerOk(w, s) && s.data.Some? by {
      assert PointersOk(w);
    }
    InputFits(w, src, c);
    ConvertColorTarget(w, c, src, dst, tmp, alloc);
    ConvertedAt(w, s, r, r.vars[dst], c, alloc.value, Converted(w, src, c), y, x);
  }

  /** The pixel arithmetic of `ConvertColorPixels`, apart from the heaps. */
  lemma ConvertedAt(ws: World, s: Matrix, wr: World, m: Matrix, c: Conversion, alloc: seq<byte>, conv: seq<byte>, y: int, x: int)
    requires PointerOk(ws, s) && s.data.Some? && SourceTypeOk(c, s)
    requires PointerOk(wr, m) && m.data.Some?
    requires m.cols == s.cols && m.rows == s.rows && m.nchans == DstChannels(c) && m.depth == 8
    requires 0 <= y < s.rows && 0 <= x < s.cols
    requires Visited(s.cols, s.rows) * SrcChannels(c) <= |Bytes(ws, s)|
    requires conv == ConvertPixels(c, Bytes(ws, s), Visited(s.cols, s.rows)) && |conv| <= |alloc|
    requires Bytes(wr, m) == Overwrite(alloc, conv)
    ensures ElemSize(s) == SrcChannels(c) && ElemSize(m) == DstChannels(c)
    ensures At(wr, m, y, x) == ConvertPixel(c, At(ws, s, y, x))
  {
    var i := ElementIndex(s, y, x);
    var n := Visited(s.cols, s.rows);
    assert 0 <= i < n by {
      ElementInBounds(s, y, x);
    }
    ConvertPixelsAt(c, Bytes(ws, s), n, i);
    PixelOfOverwrite(alloc, conv, DstChannels(c), i);
  }

  /** A conversion of `n` pixels reads only the first `n` pixels. */
  lemma ConvertPixelsReadsPrefix(c: Conversion, a: seq<byte>, b: seq<byte>, n: nat)
    requires n * SrcChannels(c) <= |a| && n * SrcChannels(c) <= |b|
    requires a[..n * SrcChannels(c)] == b[..n * SrcChannels(c)]
    ensures ConvertPixels(c, a, n) == ConvertPixels(c, b, n)
  {
    forall i | 0 <= i < n
      ensures Pixel(ConvertPixels(c, a, n), DstChannels(c), i) == Pixel(ConvertPixels(c, b, n), DstChannels(c), i)
    {
      ReadsPrefixAt(c, a, b, n, i);
    }
    PixelsDetermine(ConvertPixels(c, a, n), ConvertPixels(c, b, n), DstChannels(c), n);
  }

  lemma ReadsPrefixAt(c: Conversion, a: seq<byte>, b: seq<byte>, n: nat, i: nat)
    requires n * SrcChannels(c) <= |a| && n * SrcChannels(c) <= |b|
    requires a[..n * SrcChannels(c)] == b[..n * SrcChannels(c)] && i < n
    ensures (i + 1) * DstChannels(c) <= |ConvertPixels(c, a, n)| == |ConvertPixels(c, b, n)|
    ensures Pixel(ConvertPixels(c, a, n), DstChannels(c), i) == Pixel(ConvertPixels(c, b, n), DstChannels(c), i)
  {
    var k := SrcChannels(c);
    ConvertPixelsAt(c, a, n, i);
    ConvertPixelsAt(c, b, n, i);
    assert Pixel(a, k, i) == Pixel(b, k, i) by {
      MulMono(k, i + 1, n);
      SamePrefixPixel(a, b, n * k, k, i);
    }
  }

  // ---------------------------------------------------------------------
  // The dispatcher

  /** The enumerators of `ColorConversionCodes`, numbered in declaration
      order from 0. */
  const COLOR_RGB2BGR: int := 0
  const COLOR_BGR2RGB: int := 1
  const COLOR_BGR2BGRA: int := 2
  const COLOR_BGR2GRAY: int := 3
  const COLOR_RGBA2BGRA: int := 4
  const COLOR_BGRA2RGBA: int := 5
  const COLOR_BGRA2BGR: int := 6
  const COLOR_BGRA2GRAY: int := 7
  const COLOR_GRAY2BGR: int := 8
  const COLOR_GRAY2BGRA: int := 9

  /** The routine the `switch` of `cvtColor` calls for `code`, if any. Both
      spellings of a red-blue swap share one routine. */
  function RoutineFor(code: int): (r: Option<Conversion>)
    ensures r.None? <==> code < COLOR_RGB2BGR || code > COLOR_GRAY2BGRA
  {
    if code == COLOR_RGB2BGR || code == COLOR_BGR2RGB then Some(BGR2RGB)
    else if code == COLOR_BGR2BGRA then Some(BGR2BGRA)
    else if code == COLOR_BGR2GRAY then Some(BGR2GRAY)
    else if code == COLOR_RGBA2BGRA || code == COLOR_BGRA2RGBA then Some(BGRA2RGBA)
    else if code == COLOR_BGRA2BGR then Some(BGRA2BGR)
    else if code == COLOR_BGRA2GRAY then Some(BGRA2GRAY)
    else if code == COLOR_GRAY2BGR then Some(GRAY2BGR)
    else if code == COLOR_GRAY2BGRA then Some(GRAY2BGRA)
    else None
  }

  /** `cvtColor(src, dst, code)`: run the routine for `code`; a code the
      `switch` does not list does nothing. */
  function CvtColor(w: World, src: Var, dst: Var, tmp: Var, code: int, alloc: Option<seq<byte>>): (r: Result<World>)
    requires Valid(w) && src in w.vars && dst in w.vars && tmp !in w.vars
    requires RoutineFor(code).Some? ==> Fits(alloc, OutputSize(w, src, RoutineFor(code).value))
    ensures RoutineFor(code).None? ==> r == Ok(w)
    ensures RoutineFor(code).Some? ==>
      var c := RoutineFor(code).value;
      && (r == Fail(AssertionFailed) <==> !SourceTypeOk(c, w.vars[src]))
      && (r == Fail(BadAlloc) <==> SourceTypeOk(c, w.vars[src]) && alloc.None?)
      && (r.Ok? <==> SourceTypeOk(c, w.vars[src]) && alloc.Some?)
    ensures r.Ok? ==> Valid(r.value) && r.value.vars.Keys == w.vars.Keys
  {
    match RoutineFor(code)
    case None => Ok(w)
    case Some(c) => ConvertColor(w, c, src, dst, tmp, alloc)
  }

  /** For a listed code, `cvtColor` runs that code's routine: it succeeds on
      a source of the right type with a non-NULL block, and every pixel of
      `dst` is then the routine's conversion of the source pixel at the same
      position. */
  lemma CvtColorRuns(w: World, src: Var, dst: Var, tmp: Var, code: int, alloc: Option<seq<byte>>, y: int, x: int)
    requires Valid(w) && src in w.vars && dst in w.vars && tmp !in w.vars
    requires RoutineFor(code).Some?
    requires Fits(alloc, OutputSize(w, src, RoutineFor(code).value)) && alloc.Some?
    requires SourceTypeOk(RoutineFor(code).value, w.vars[src])
    requires 0 <= y < w.vars[src].rows && 0 <= x < w.vars[src].cols
    ensures CvtColor(w, src, dst, tmp, code, alloc).Ok?
    ensures var c := RoutineFor(code).value;
      var r := CvtColor(w, src, dst, tmp, code, alloc).value;
      var s := w.vars[src];
      var m := r.vars[dst];
      && PointerOk(w, s) && s.data.Some? && ElemSize(s) == SrcChannels(c)
      && PointerOk(r, m) && m.data.Some? && 0 <= y < m.rows && 0 <= x < m.cols && ElemSize(m) == DstChannels(c)
      && At(r, m, y, x) == ConvertPixel(c, At(w, s, y, x))
  {
    var c := RoutineFor(code).value;
    assert CvtColor(w, src, dst, tmp, code, alloc) == ConvertColor(w, c, src, dst, tmp, alloc);
    ConvertColorPixels(w, c, src, dst, tmp, alloc, y, x);
  }

  /** The routine of a code reads the channel layout its name starts with
      and writes the one it ends with: `BGR` and `RGB` are three channels,
      `BGRA` and `RGBA` four, `GRAY` one. */
  lemma RoutineLayouts()
    ensures RoutineFor(COLOR_RGB2BGR) == RoutineFor(COLOR_BGR2RGB)
    ensures RoutineFor(COLOR_RGBA2BGRA) == RoutineFor(COLOR_BGRA2RGBA)
    ensures forall code :: COLOR_RGB2BGR <= code <= COLOR_BGR2GRAY ==> SrcChannels(RoutineFor(code).value) == 3
    ensures forall code :: COLOR_RGBA2BGRA <= code <= COLOR_BGRA2GRAY ==> SrcChannels(RoutineFor(code).value) == 4
    ensures forall code :: COLOR_GRAY2BGR <= code <= COLOR_GRAY2BGRA ==> SrcChannels(RoutineFor(code).value) == 1
    ensures forall code :: code in {COLOR_RGB2BGR, COLOR_BGR2RGB, COLOR_BGRA2BGR, COLOR_GRAY2BGR} ==> DstChannels(RoutineFor(code).value) == 3
    ensures forall code :: code in {COLOR_BGR2BGRA, COLOR_RGBA2BGRA, COLOR_BGRA2RGBA, COLOR_GRAY2BGRA} ==> DstChannels(RoutineFor(code).value) == 4
    ensures forall code :: code in {COLOR_BGR2GRAY, COLOR_BGRA2GRAY} ==> DstChannels(RoutineFor(code).value) == 1
  {
  }

  /** `cvtColor` in place with `COLOR_BGR2RGB` and then `COLOR_RGB2BGR`
      gives back the pixels an object had, with its shape. */
  lemma SwapTwiceInPlace(w: World, v: Var, tmp: Var, a1: Option<seq<byte>>, a2: Option<seq<byte>>)
    requires Valid(w) && v in w.vars && tmp !in w.vars && SourceTypeOk(BGR2RGB, w.vars[v])
    requires Fits(a1, OutputSize(w, v, BGR2RGB)) && a1.Some?
    requires Fits(a2, OutputSize(w, v, BGR2RGB)) && a2.Some?
    ensures var w1 := CvtColor(w, v, v, tmp, COLOR_BGR2RGB, a1).value;
      && Valid(w1) && v in w1.vars && tmp !in w1.vars && SourceTypeOk(BGR2RGB, w1.vars[v])
      && OutputSize(w1, v, BGR2RGB) == OutputSize(w, v, BGR2RGB)
    ensures var w1 := CvtColor(w, v, v, tmp, COLOR_BGR2RGB, a1).value;
      var w2 := CvtColor(w1, v, v, tmp, COLOR_RGB2BGR, a2).value;
      var s := w.vars[v];
      var n := Visited(s.cols, s.rows) * 3;
      && v in w2.vars && SameShape(w2.vars[v], s)
      && n <= |Bytes(w, s)| && n <= |Bytes(w2, w2.vars[v])|
      && Bytes(w2, w2.vars[v])[..n] == Bytes(w, s)[..n]
  {
    var s := w.vars[v];
    var count := Visited(s.cols, s.rows);
    var w1 := CvtColor(w, v, v, tmp, COLOR_BGR2RGB, a1).value;
    assert w1 == ConvertColor(w, BGR2RGB, v, v, tmp, a1).value;
    ConvertColorTarget(w, BGR2RGB, v, v, tmp, a1);
    InputFits(w, v, BGR2RGB);
    var m1 := w1.vars[v];
    var w2 := CvtColor(w1, v, v, tmp, COLOR_RGB2BGR, a2).value;
    assert w2 == ConvertColor(w1, BGR2RGB, v, v, tmp, a2).value;
    ConvertColorTarget(w1, BGR2RGB, v, v, tmp, a2);
    InputFits(w1, v, BGR2RGB);
    SwapTwiceBytes(Bytes(w, s), Bytes(w1, m1), Bytes(w2, w2.vars[v]), a1.value, a2.value, count);
  }

  /** `SwapTwiceInPlace` on the buffers alone. */
  lemma SwapTwiceBytes(b0: seq<byte>, b1: seq<byte>, b2: seq<byte>, a1: seq<byte>, a2: seq<byte>, count: nat)
    requires count * 3 <= |b0| && count * 3 <= |a1| && b1 == Overwrite(a1, ConvertPixels(BGR2RGB, b0, count))
    requires count * 3 <= |a2| && b2 == Overwrite(a2, ConvertPixels(BGR2RGB, b1, count))
    ensures count * 3 <= |b2| && b2[..count * 3] == b0[..count * 3]
  {
    var once := ConvertPixels(BGR2RGB, b0, count);
    assert b1[..count * 3] == once;
    ConvertPixelsReadsPrefix(BGR2RGB, b1, once, count);
    SwapRedBlueInvolution(b0, count);
  }
}
