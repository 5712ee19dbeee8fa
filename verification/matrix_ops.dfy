/** The operations of `lcv::Matrix` that read and write pixel bytes:
    `create(cols, rows, channels)`, the `Matrix(cols, rows, channels)`
    constructor, `zeros`, `setTo`, `copyTo`, `clone`, and the pointer and
    element accessors. */
module MatrixOps {
  import opened Primitive
  import opened Outcome
  import opened MatrixModel
  import opened MatrixFactory

  // ---------------------------------------------------------------------
  // Byte buffers

  /** Pixel `i` of a row-major buffer whose pixels are `e` bytes wide. */
  function Pixel(b: seq<byte>, e: nat, i: nat): (r: seq<byte>)
    requires (i + 1) * e <= |b|
    ensures |r| == e
  {
    b[i * e .. (i + 1) * e]
  }

  /** `prefix` copied over the start of `b`, the rest of `b` kept
      (`memmove(b, prefix, |prefix|)`). */
  function Overwrite(b: seq<byte>, prefix: seq<byte>): (r: seq<byte>)
    requires |prefix| <= |b|
    ensures |r| == |b| && r[..|prefix|] == prefix && r[|prefix|..] == b[|prefix|..]
  {
    prefix + b[|prefix|..]
  }

  /** `n` copies of `value`, end to end. */
  function Repeat(value: seq<byte>, n: nat): (r: seq<byte>)
    ensures |r| == n * |value|
  {
    if n == 0 then [] else Repeat(value, n - 1) + value
  }

  /** Every pixel of `Repeat(value, n)` is `value`. */
  lemma {:induction false} RepeatPixel(value: seq<byte>, n: nat, i: nat)
    requires i < n
    ensures (i + 1) * |value| <= |Repeat(value, n)|
    ensures Pixel(Repeat(value, n), |value|, i) == value
  {
    var e := |value|;
    var prev := Repeat(value, n - 1);
    assert Repeat(value, n) == prev + value;
    assert |prev| == (n - 1) * e;
    if i < n - 1 {
      RepeatPixel(value, n - 1, i);
      assert Repeat(value, n)[i * e .. (i + 1) * e] == prev[i * e .. (i + 1) * e];
    } else {
      assert i * e == |prev|;
    }
  }

  /** The loop of `setTo`: `ptr<Element>()[i] = value` for `i` from 0 to
      `count - 1`, on a buffer; `at` is the byte offset `i * |value|` of
      pixel `i`. */
  method FillPixels(b: seq<byte>, value: seq<byte>, count: nat) returns (r: seq<byte>)
    requires count * |value| <= |b|
    ensures r == Overwrite(b, Repeat(value, count))
  {
    r := b;
    var i := 0;
    var at := 0;
    while i < count
      invariant 0 <= i <= count && at == i * |value|
      invariant r == Overwrite(b, Repeat(value, i))
    {
      OverwriteStep(b, value, i, count, at);
      r := r[..at] + value + r[at + |value|..];
      i := i + 1;
      at := at + |value|;
    }
  }

  /** Writing pixel `i` (at byte offset `at`) after pixels `0 .. i - 1` have
      been written. */
  lemma OverwriteStep(b: seq<byte>, value: seq<byte>, i: nat, count: nat, at: nat)
    requires i < count && count * |value| <= |b| && at == i * |value|
    ensures at + |value| == (i + 1) * |value| <= |b|
    ensures var r := Overwrite(b, Repeat(value, i));
      r[..at] + value + r[at + |value|..] == Overwrite(b, Repeat(value, i + 1))
  {
    MulMono(|value|, i + 1, count);
  }

  // ---------------------------------------------------------------------
  // Writing a block

  /** The heap with block `id` holding `bytes`. */
  function WriteBlock(w: World, id: nat, bytes: seq<byte>): (r: World)
    ensures r.vars == w.vars && r.counts == w.counts && r.next == w.next
  {
    w.(blocks := w.blocks[id := bytes])
  }

  /** Writing a block with the same length keeps the invariant; every object
      that points at the block sees the new bytes, and every other object
      sees what it saw before. */
  lemma WriteBlockValid(w: World, id: nat, bytes: seq<byte>)
    requires Valid(w) && id in w.blocks && |bytes| == |w.blocks[id]|
    ensures Valid(WriteBlock(w, id, bytes))
    ensures forall u :: u in w.vars ==>
      Bytes(WriteBlock(w, id, bytes), w.vars[u]) == if w.vars[u].data == Some(id) then bytes else Bytes(w, w.vars[u])
  {
    WriteBlockPointers(w, id, bytes);
  }

  lemma WriteBlockPointers(w: World, id: nat, bytes: seq<byte>)
    requires PointersOk(w) && id in w.blocks && |bytes| == |w.blocks[id]|
    ensures PointersOk(WriteBlock(w, id, bytes))
  {
    var r := WriteBlock(w, id, bytes);
    forall u | u in w.vars
      ensures PointerOk(r, w.vars[u])
    {
      assert PointerOk(w, w.vars[u]);
    }
  }

  // ---------------------------------------------------------------------
  // Geometry of the buffer

  /** The pixel count `cols * rows` is never negative once the pixels have a
      non-zero width and fit in a block. */
  lemma PixelCount(m: Matrix)
    requires ElemSize(m) > 0 && Footprint(m) >= 0
    ensures m.cols * m.rows >= 0
  {
    NonNegativeFactor(m.cols * m.rows, ElemSize(m));
  }

  /** `ptr(y)`: the byte offset of row `y`, `y * cols * elemSize()`. */
  function RowOffset(m: Matrix, y: int): int {
    y * m.cols * ElemSize(m)
  }

  /** `ptr<Element>(y)` and `at<Element>(y, x)`: the index, counted in
      `Element`s, of pixel (y, x), namely `y * cols + x`. */
  function ElementIndex(m: Matrix, y: int, x: int): int {
    y * m.cols + x
  }

  /** A position inside the matrix designates a pixel inside the buffer,
      which lies in row `y`: at `ptr(y)` plus `x` elements, before `ptr(y + 1)`. */
  lemma ElementInBounds(m: Matrix, y: int, x: int)
    requires 0 <= y < m.rows && 0 <= x < m.cols && ElemSize(m) >= 0
    ensures 0 <= ElementIndex(m, y, x) < m.cols * m.rows
    ensures (ElementIndex(m, y, x) + 1) * ElemSize(m) <= Footprint(m)
    ensures ElementIndex(m, y, x) * ElemSize(m) == RowOffset(m, y) + x * ElemSize(m)
    ensures RowOffset(m, y) <= ElementIndex(m, y, x) * ElemSize(m)
    ensures (ElementIndex(m, y, x) + 1) * ElemSize(m) <= RowOffset(m, y + 1)
  {
    var e := ElemSize(m);
    var i := ElementIndex(m, y, x);
    IndexBound(m.cols, m.rows, y, x);
    assert (i + 1) * e <= m.cols * m.rows * e by {
      ScaleRight(i + 1, m.cols * m.rows, e);
    }
    assert i * e == y * m.cols * e + x * e by {
      Distrib(y * m.cols, x, e);
    }
    assert 0 <= x * e by {
      ScaleRight(0, x, e);
    }
    assert (i + 1) * e <= (y + 1) * m.cols * e by {
      Distrib(y * m.cols, x + 1, e);
      ScaleRight(x + 1, m.cols, e);
      Distrib(y * m.cols, m.cols, e);
      assert (y + 1) * m.cols == y * m.cols + m.cols;
    }
  }

  /** `y * cols + x` indexes a `cols` by `rows` grid. */
  lemma IndexBound(cols: int, rows: int, y: int, x: int)
    requires 0 <= y < rows && 0 <= x < cols
    ensures 0 <= y * cols + x < cols * rows
  {
    MulMono(cols, y, rows - 1);
    assert cols * (rows - 1) == cols * rows - cols;
  }

  lemma Distrib(a: int, b: int, c: int)
    ensures (a + b) * c == a * c + b * c
  {
  }

  lemma ScaleRight(a: int, b: int, c: int)
    requires a <= b && c >= 0
    ensures a * c <= b * c
  {
    MulMono(c, a, b);
  }

  /** Distinct positions designate distinct pixels: the layout is row-major
      without overlap. */
  lemma ElementIndexInjective(m: Matrix, y1: int, x1: int, y2: int, x2: int)
    requires 0 <= y1 < m.rows && 0 <= x1 < m.cols
    requires 0 <= y2 < m.rows && 0 <= x2 < m.cols
    requires ElementIndex(m, y1, x1) == ElementIndex(m, y2, x2)
    ensures y1 == y2 && x1 == x2
  {
    if y1 < y2 {
      MulMono(m.cols, y1 + 1, y2);
    } else if y2 < y1 {
      MulMono(m.cols, y2 + 1, y1);
    }
  }

  /** `at<Element>(y, x)` with `Element` `elemSize()` bytes wide: the bytes of
      pixel (y, x). */
  function At(w: World, m: Matrix, y: int, x: int): (r: seq<byte>)
    requires PointerOk(w, m) && m.data.Some?
    requires 0 <= y < m.rows && 0 <= x < m.cols
    ensures |r| == ElemSize(m)
  {
    ElementInBounds(m, y, x);
    Pixel(Bytes(w, m), ElemSize(m), ElementIndex(m, y, x))
  }

  // ---------------------------------------------------------------------
  // setTo

  /** `setTo(value)`, also reached through `operator=(const Element&)`: after
      asserting that the value is one pixel wide, store it in each of the
      `cols * rows` pixels. `value` is the object representation of the
      `Element`, which is never empty in C++. */
  function SetTo(w: World, v: Var, value: seq<byte>): (r: Result<World>)
    requires Valid(w) && v in w.vars
    requires |value| > 0
    ensures r.Fail? <==> |value| != ElemSize(w.vars[v])
    ensures r.Fail? ==> r.failure == AssertionFailed
    ensures r.Ok? ==> r.value.vars == w.vars && r.value.counts == w.counts
  {
    var m := w.vars[v];
    if |value| != ElemSize(m) then
      Fail(AssertionFailed)
    else if m.data.None? then
      Ok(w)
    else
      assert PointerOk(w, m);
      PixelCount(m);
      Ok(WriteBlock(w, m.data.value, Overwrite(Bytes(w, m), Repeat(value, m.cols * m.rows))))
  }

  /** `setTo(value)` as the source runs it: the loop of `FillPixels` writes
      the pixels into the block. The outcome is the one `SetTo` describes. */
  method RunSetTo(w: World, v: Var, value: seq<byte>) returns (r: Result<World>)
    requires Valid(w) && v in w.vars
    requires |value| > 0
    ensures r == SetTo(w, v, value)
  {
    var m := w.vars[v];
    if |value| != ElemSize(m) {
      return Fail(AssertionFailed);
    }
    if m.data.None? {
      return Ok(w);
    }
    assert PointerOk(w, m);
    PixelCount(m);
    var bytes := FillPixels(Bytes(w, m), value, m.cols * m.rows);
    r := Ok(WriteBlock(w, m.data.value, bytes));
  }

  /** A successful `setTo` keeps the invariant and makes every pixel `value`
      (bytes past the pixels are kept); the write is seen through every
      object sharing the data, and no other object's bytes change. */
  lemma SetToValid(w: World, v: Var, value: seq<byte>)
    requires Valid(w) && v in w.vars && |value| > 0
    requires SetTo(w, v, value).Ok?
    ensures var r := SetTo(w, v, value).value;
      var m := w.vars[v];
      && Valid(r)
      && m.cols * m.rows >= 0
      && Footprint(m) <= |Bytes(r, m)| == |Bytes(w, m)|
      && Bytes(r, m)[..Footprint(m)] == Repeat(value, m.cols * m.rows)
      && Bytes(r, m)[Footprint(m)..] == Bytes(w, m)[Footprint(m)..]
    ensures var r := SetTo(w, v, value).value;
      forall u :: u in w.vars ==>
        Bytes(r, w.vars[u]) == if w.vars[u].data == w.vars[v].data then Bytes(r, w.vars[v]) else Bytes(w, w.vars[u])
  {
    var m := w.vars[v];
    assert PointerOk(w, m);
    if m.data.Some? {
      PixelCount(m);
      var bytes := Overwrite(Bytes(w, m), Repeat(value, m.cols * m.rows));
      WriteBlockValid(w, m.data.value, bytes);
    }
  }

  /** A pixel inside a prefix of a buffer is the same pixel of the buffer. */
  lemma PixelOfPrefix(b: seq<byte>, k: nat, e: nat, i: nat)
    requires k <= |b| && (i + 1) * e <= k
    ensures Pixel(b, e, i) == Pixel(b[..k], e, i)
  {
  }

  /** After `setTo(value)`, `at(y, x)` reads `value` at every position, through
      the object written and through every object sharing its data. */
  lemma SetToVisibleThroughAlias(w: World, v: Var, u: Var, value: seq<byte>, y: int, x: int)
    requires Valid(w) && v in w.vars && u in w.vars && |value| > 0
    requires SetTo(w, v, value).Ok?
    requires w.vars[u].data.Some? && w.vars[u].data == w.vars[v].data
    requires 0 <= y < w.vars[u].rows && 0 <= x < w.vars[u].cols
    ensures var r := SetTo(w, v, value).value;
      PointerOk(r, r.vars[u]) && At(r, r.vars[u], y, x) == value
  {
    SetToValid(w, v, value);
    var r := SetTo(w, v, value).value;
    var m := w.vars[v];
    var mu := w.vars[u];
    var e := ElemSize(m);
    var b := Bytes(r, m);
    assert SameShape(mu, m) && r.vars[u] == mu;
    assert PointerOk(r, mu) by {
      assert PointersOk(r);
    }
    assert Bytes(r, mu) == b;
    var i := ElementIndex(m, y, x);
    assert ElementIndex(mu, y, x) == i && ElemSize(mu) == e;
    PixelOfFill(b, m, y, x, value);
  }

  /** In a buffer whose pixels were all set to `value`, the pixel at any
      position is `value`. */
  lemma PixelOfFill(b: seq<byte>, m: Matrix, y: int, x: int, value: seq<byte>)
    requires 0 <= y < m.rows && 0 <= x < m.cols && |value| == ElemSize(m)
    requires m.cols * m.rows >= 0 && 0 <= Footprint(m) <= |b|
    requires b[..Footprint(m)] == Repeat(value, m.cols * m.rows)
    ensures (ElementIndex(m, y, x) + 1) * ElemSize(m) <= |b|
    ensures Pixel(b, ElemSize(m), ElementIndex(m, y, x)) == value
  {
    var i := ElementIndex(m, y, x);
    ElementInBounds(m, y, x);
    PixelOfPrefix(b, Footprint(m), ElemSize(m), i);
    RepeatPixel(value, m.cols * m.rows, i);
  }

  // ---------------------------------------------------------------------
  // create(cols, rows, channels) and the constructor

  /** The channel string names a depth and a channel count that pass the
      assertions of `parse_channels`. */
  function Parsed(channels: string): Result<Channels> {
    ParseChannels(channels, 0, 0)
  }

  /** The allocator's answer fits the request `create` makes for `channels`. */
  predicate AllocFor(channels: string, cols: int, rows: int, alloc: Option<seq<byte>>) {
    Parsed(channels).Ok? ==>
      Fits(alloc, cols * rows * Parsed(channels).value.nchans * Parsed(channels).value.depth)
  }

  /** `m` has the shape `create(cols, rows, channels)` gives: the parsed
      channel count and depth stored as `uint16_t`, and a data block. */
  predicate ShapedFrom(m: Matrix, cols: int, rows: int, channels: string)
    requires Recognize(channels).Some?
  {
    var p := Recognize(channels).value;
    && m.cols == cols && m.rows == rows
    && m.nchans == Convert(UShort, DecimalValue(p.chansDigits))
    && m.depth == Convert(UShort, DecimalValue(p.depthDigits))
    && m.data.Some?
  }

  /** Object `v` of `r` is what `create(cols, rows, channels)` makes from
      a heap whose allocated ids were `held`: the parsed shape and a block
      with a new id, holding the allocator's bytes. */
  predicate CreatedFrom(r: World, held: set<nat>, v: Var, cols: int, rows: int, channels: string, alloc: Option<seq<byte>>)
    requires Recognize(channels).Some?
  {
    var p := Recognize(channels).value;
    && v in r.vars && alloc.Some?
    && ShapedFrom(r.vars[v], cols, rows, channels)
    && r.vars[v].data.value !in held
    && Bytes(r, r.vars[v]) == alloc.value
    && |alloc.value| == cols * rows * DecimalValue(p.chansDigits) * DecimalValue(p.depthDigits)
  }

  /** `create(cols, rows, channels)`: parse the channel string, then create
      with the primitive attributes. The string must match the pattern:
      otherwise `parse_channels` leaves `nchans` and `depth` uninitialised. */
  function CreateFrom(w: World, v: Var, cols: int, rows: int, channels: string, alloc: Option<seq<byte>>): (r: Result<World>)
    requires Valid(w) && v in w.vars
    requires Recognize(channels).Some?
    requires AllocFor(channels, cols, rows, alloc)
    ensures var p := Recognize(channels).value;
      var d := DecimalValue(p.depthDigits);
      var n := DecimalValue(p.chansDigits);
      && (d > INT32_MAX || n > INT32_MAX ==> r == Fail(OutOfRange))
      && (d <= INT32_MAX && n <= INT32_MAX && !(IsPowerOfTwo(d) && n > 0) ==> r == Fail(AssertionFailed))
      && (d <= INT32_MAX && n <= INT32_MAX && IsPowerOfTwo(d) && n > 0 && alloc.None? ==> r == Fail(BadAlloc))
      && (d <= INT32_MAX && n <= INT32_MAX && IsPowerOfTwo(d) && n > 0 && alloc.Some? ==> r.Ok?)
    ensures r.Ok? ==> Valid(r.value) && r.value.vars.Keys == w.vars.Keys
    ensures r.Ok? ==> CreatedFrom(r.value, w.blocks.Keys, v, cols, rows, channels, alloc)
    ensures r.Ok? ==>
      forall u :: u in w.vars && u != v ==> r.value.vars[u] == w.vars[u] && Bytes(r.value, w.vars[u]) == Bytes(w, w.vars[u])
  {
    var ch :- Parsed(channels);
    if alloc.None? then
      Fail(BadAlloc)
    else
      CreateValid(w, v, cols, rows, ch.nchans, ch.depth, alloc);
      Create(w, v, cols, rows, ch.nchans, ch.depth, alloc)
  }

  /** `create(cols, rows, channels)` exactly as `matrix.hpp` writes it, on
      top of `CreateAsWritten`: on a live object that owns or shares a block
      it increments the old counter (see `CreateAsWrittenUseAfterFree` and
      `CreateAsWrittenLeaks`). */
  function CreateFromAsWritten(w: World, v: Var, cols: int, rows: int, channels: string, alloc: Option<seq<byte>>): (r: Result<World>)
    requires v in w.vars && CanDecref(w, w.vars[v])
    requires Recognize(channels).Some?
    requires AllocFor(channels, cols, rows, alloc)
    ensures var p := Recognize(channels).value;
      var d := DecimalValue(p.depthDigits);
      var n := DecimalValue(p.chansDigits);
      && (d > INT32_MAX || n > INT32_MAX ==> r == Fail(OutOfRange))
      && (d <= INT32_MAX && n <= INT32_MAX && !(IsPowerOfTwo(d) && n > 0) ==> r == Fail(AssertionFailed))
      && (d <= INT32_MAX && n <= INT32_MAX && IsPowerOfTwo(d) && n > 0 && alloc.None? ==> r == Fail(BadAlloc))
      && (d <= INT32_MAX && n <= INT32_MAX && IsPowerOfTwo(d) && n > 0 && alloc.Some? ==>
            var m := w.vars[v];
            var sole := m.counter.Some? && w.counts[m.counter.value] == 1;
            (r == Fail(UseAfterFree) <==> sole) && (r.Ok? <==> !sole))
  {
    var ch :- Parsed(channels);
    CreateAsWritten(w, v, cols, rows, ch.nchans, ch.depth, alloc)
  }

  /** The constructor `Matrix(cols, rows, channels)` is exactly the code as
      written: it calls `create` on a fresh object, where the corrected and
      the as-written `create` agree. */
  lemma ConstructFromAsWritten(w: World, v: Var, cols: int, rows: int, channels: string, alloc: Option<seq<byte>>)
    requires Valid(w) && v !in w.vars
    requires Recognize(channels).Some?
    requires AllocFor(channels, cols, rows, alloc)
    ensures ConstructFrom(w, v, cols, rows, channels, alloc) == CreateFromAsWritten(Construct(w, v), v, cols, rows, channels, alloc)
  {
    var w1 := Construct(w, v);
    if Parsed(channels).Ok? {
      var ch := Parsed(channels).value;
      CreateAsWrittenOnFreshObject(w1, v, cols, rows, ch.nchans, ch.depth, alloc);
    }
  }

  /** The constructor `Matrix(cols, rows, channels)`: `init()`, then
      `create(cols, rows, channels)`, for a new object `v`. */
  function ConstructFrom(w: World, v: Var, cols: int, rows: int, channels: string, alloc: Option<seq<byte>>): (r: Result<World>)
    requires Valid(w) && v !in w.vars
    requires Recognize(channels).Some?
    requires AllocFor(channels, cols, rows, alloc)
    ensures var p := Recognize(channels).value;
      var d := DecimalValue(p.depthDigits);
      var n := DecimalValue(p.chansDigits);
      && (d > INT32_MAX || n > INT32_MAX ==> r == Fail(OutOfRange))
      && (d <= INT32_MAX && n <= INT32_MAX && !(IsPowerOfTwo(d) && n > 0) ==> r == Fail(AssertionFailed))
      && (d <= INT32_MAX && n <= INT32_MAX && IsPowerOfTwo(d) && n > 0 && alloc.None? ==> r == Fail(BadAlloc))
      && (d <= INT32_MAX && n <= INT32_MAX && IsPowerOfTwo(d) && n > 0 && alloc.Some? ==> r.Ok?)
    ensures r.Ok? ==> Valid(r.value) && r.value.vars.Keys == w.vars.Keys + {v}
    ensures r.Ok? ==> CreatedFrom(r.value, w.blocks.Keys, v, cols, rows, channels, alloc)
  {
    ConstructValid(w, v);
    var w1 := Construct(w, v);
    assert w1.blocks.Keys == w.blocks.Keys;
    CreateFrom(w1, v, cols, rows, channels, alloc)
  }

  /** The constructor touches no object that existed before it. */
  lemma ConstructFromFrame(w: World, v: Var, cols: int, rows: int, channels: string, alloc: Option<seq<byte>>)
    requires Valid(w) && v !in w.vars
    requires Recognize(channels).Some?
    requires AllocFor(channels, cols, rows, alloc)
    requires ConstructFrom(w, v, cols, rows, channels, alloc).Ok?
    ensures var r := ConstructFrom(w, v, cols, rows, channels, alloc).value;
      forall u :: u in w.vars ==> u in r.vars && r.vars[u] == w.vars[u] && Bytes(r, w.vars[u]) == Bytes(w, w.vars[u])
  {
    ConstructValid(w, v);
    var w1 := Construct(w, v);
    var r := ConstructFrom(w, v, cols, rows, channels, alloc).value;
    var created := CreateFrom(w1, v, cols, rows, channels, alloc);
    assert created.Ok? && r == created.value;
    forall u | u in w.vars
      ensures u in r.vars && r.vars[u] == w.vars[u] && Bytes(r, w.vars[u]) == Bytes(w, w.vars[u])
    {
      assert u in w1.vars && u != v && w1.vars[u] == w.vars[u];
      SameBlocks(w1, w, w.vars[u]);
    }
  }

  // ---------------------------------------------------------------------
  // zeros

  /** The byte count `zeros` passes to `memset`:
      `cols * rows * (depth / 8) * nchans`, with the stored type fields. */
  function ZeroCount(cols: int, rows: int, m: Matrix): int {
    cols * rows * (m.depth / 8) * m.nchans
  }

  /** The `memset` of `zeros` stays inside the block `create` allocated. */
  lemma ZeroCountFits(cols: int, rows: int, n: nat, d: nat)
    requires cols * rows * n * d >= 0
    ensures var m := Matrix(cols, rows, Convert(UShort, n), Convert(UShort, d), None, None);
      0 <= ZeroCount(cols, rows, m) <= cols * rows * n * d
  {
    var n1 := Convert(UShort, n);
    var d1 := Convert(UShort, d);
    var cr := cols * rows;
    var k := (d1 / 8) * n1;
    var p := n * d;
    assert 0 <= k <= p by {
      ConvertBelow(n);
      ConvertBelow(d);
      MulMono(n1, d1 / 8, d);
      MulMono(d, n1, n);
    }
    assert cols * rows * n * d == cr * p by {
      MulAssoc(cr, n, d);
    }
    ScaleBounds(cr, k, p);
    assert ZeroCount(cols, rows, Matrix(cols, rows, n1, d1, None, None)) == cr * k by {
      MulAssoc(cr, d1 / 8, n1);
    }
  }

  /** `zeros(cols, rows, channels)`: construct a new object `v`, then set the
      first `cols * rows * (depth / 8) * nchans` bytes of its block to 0. */
  function Zeros(w: World, v: Var, cols: int, rows: int, channels: string, alloc: Option<seq<byte>>): (r: Result<World>)
    requires Valid(w) && v !in w.vars
    requires Recognize(channels).Some?
    requires AllocFor(channels, cols, rows, alloc)
    ensures r.Ok? <==> ConstructFrom(w, v, cols, rows, channels, alloc).Ok?
    ensures var p := Recognize(channels).value;
      var d := DecimalValue(p.depthDigits);
      var n := DecimalValue(p.chansDigits);
      d <= INT32_MAX && n <= INT32_MAX && IsPowerOfTwo(d) && n > 0 && alloc.Some? ==> r.Ok?
    ensures r.Ok? ==> r.value.vars == ConstructFrom(w, v, cols, rows, channels, alloc).value.vars
  {
    var w1 :- ConstructFrom(w, v, cols, rows, channels, alloc);
    var m := w1.vars[v];
    var ch := Parsed(channels).value;
    ZeroCountFits(cols, rows, ch.nchans, ch.depth);
    Ok(WriteBlock(w1, m.data.value, Overwrite(Bytes(w1, m), seq(ZeroCount(cols, rows, m), _ => 0))))
  }

  /** A successful `zeros` keeps the invariant, gives the new object the
      block `ZeroedFrom` describes, and changes no other object. */
  lemma ZerosValid(w: World, v: Var, cols: int, rows: int, channels: string, alloc: Option<seq<byte>>)
    requires Valid(w) && v !in w.vars
    requires Recognize(channels).Some?
    requires AllocFor(channels, cols, rows, alloc)
    requires Zeros(w, v, cols, rows, channels, alloc).Ok?
    ensures ZeroedFrom(Zeros(w, v, cols, rows, channels, alloc).value, w, v, cols, rows, channels, alloc)
    ensures var r := Zeros(w, v, cols, rows, channels, alloc).value;
      forall u :: u in w.vars ==> u in r.vars && r.vars[u] == w.vars[u] && Bytes(r, w.vars[u]) == Bytes(w, w.vars[u])
  {
    ZerosBlock(w, v, cols, rows, channels, alloc);
    ZerosFrame(w, v, cols, rows, channels, alloc);
  }

  lemma ZerosBlock(w: World, v: Var, cols: int, rows: int, channels: string, alloc: Option<seq<byte>>)
    requires Valid(w) && v !in w.vars
    requires Recognize(channels).Some?
    requires AllocFor(channels, cols, rows, alloc)
    requires Zeros(w, v, cols, rows, channels, alloc).Ok?
    ensures ZeroedFrom(Zeros(w, v, cols, rows, channels, alloc).value, w, v, cols, rows, channels, alloc)
  {
    var w1 := ConstructFrom(w, v, cols, rows, channels, alloc).value;
    var m := w1.vars[v];
    var ch := Parsed(channels).value;
    ZeroCountFits(cols, rows, ch.nchans, ch.depth);
    var k := ZeroCount(cols, rows, m);
    var bytes := Overwrite(Bytes(w1, m), seq(k, _ => 0));
    var r := WriteBlock(w1, m.data.value, bytes);
    assert r == Zeros(w, v, cols, rows, channels, alloc).value;
    WriteBlockValid(w1, m.data.value, bytes);
    assert m.depth % 8 == 0 ==> Footprint(m) == k by {
      if m.depth % 8 == 0 {
        WholeBytes(m);
      }
    }
    assert r.vars[v] == m;
    assert Bytes(r, m) == bytes;
  }

  lemma ZerosFrame(w: World, v: Var, cols: int, rows: int, channels: string, alloc: Option<seq<byte>>)
    requires Valid(w) && v !in w.vars
    requires Recognize(channels).Some?
    requires AllocFor(channels, cols, rows, alloc)
    requires Zeros(w, v, cols, rows, channels, alloc).Ok?
    ensures var r := Zeros(w, v, cols, rows, channels, alloc).value;
      forall u :: u in w.vars ==> u in r.vars && r.vars[u] == w.vars[u] && Bytes(r, w.vars[u]) == Bytes(w, w.vars[u])
  {
    var w1 := ConstructFrom(w, v, cols, rows, channels, alloc).value;
    assert forall u :: u in w.vars ==> u in w1.vars && w1.vars[u] == w.vars[u] && Bytes(w1, w.vars[u]) == Bytes(w, w.vars[u]) by {
      ConstructFromFrame(w, v, cols, rows, channels, alloc);
    }
    var m := w1.vars[v];
    var ch := Parsed(channels).value;
    ZeroCountFits(cols, rows, ch.nchans, ch.depth);
    var k := ZeroCount(cols, rows, m);
    var bytes := Overwrite(Bytes(w1, m), seq(k, _ => 0));
    var r := WriteBlock(w1, m.data.value, bytes);
    assert r == Zeros(w, v, cols, rows, channels, alloc).value;
    assert forall u :: u in w1.vars ==> Bytes(r, w1.vars[u]) == if w1.vars[u].data == m.data then bytes else Bytes(w1, w1.vars[u]) by {
      WriteBlockValid(w1, m.data.value, bytes);
    }
    forall u | u in w.vars
      ensures u in r.vars && r.vars[u] == w.vars[u] && Bytes(r, w.vars[u]) == Bytes(w, w.vars[u])
    {
      assert PointerOk(w, w.vars[u]);
      assert w.vars[u].data != m.data;
    }
  }

  /** Object `v` of `r` is what `zeros(cols, rows, channels)` makes: the
      shape `create` gives, and a fresh block whose first
      `cols * rows * (depth / 8) * nchans` bytes are 0 and whose remaining
      bytes are the allocator's; with a whole-byte depth that covers every
      pixel. */
  predicate ZeroedFrom(r: World, before: World, v: Var, cols: int, rows: int, channels: string, alloc: Option<seq<byte>>)
    requires Recognize(channels).Some?
  {
    && Valid(r) && v in r.vars && alloc.Some?
    && var m := r.vars[v];
       var k := ZeroCount(cols, rows, m);
       && ShapedFrom(m, cols, rows, channels)
       && m.data.value !in before.blocks
       && 0 <= k <= |Bytes(r, m)| == |alloc.value|
       && Bytes(r, m)[..k] == seq(k, _ => 0)
       && Bytes(r, m)[k..] == alloc.value[k..]
       && (m.depth % 8 == 0 ==> Footprint(m) == k)
  }

  /** With a whole-byte depth the pixels are exactly the bytes `zeros`
      clears. */
  lemma WholeBytes(m: Matrix)
    requires m.depth % 8 == 0
    ensures Footprint(m) == ZeroCount(m.cols, m.rows, m)
  {
    assert m.depth == (m.depth / 8) * 8;
    assert m.depth * m.nchans == ((m.depth / 8) * m.nchans) * 8;
    assert ElemSize(m) == (m.depth / 8) * m.nchans;
  }

  /** The heap after `zeros(1, 1, "4uc2")` on an empty heap with `Sevens`. */
  const SubByteZeros: World :=
    World(map[0 := Matrix(1, 1, 2, 4, Some(0), Some(0))], map[0 := 1], map[0 := Sevens], 1)

  /** With a depth below 8 bits `zeros` clears nothing: "4uc2" gives
      one-byte pixels, yet `(depth / 8) * nchans` is 0, so the pixel keeps the
      allocator's byte. */
  lemma ZerosSubByteDepth()
    ensures Valid(Start) && Recognize("4uc2").Some? && AllocFor("4uc2", 1, 1, Some(Sevens))
    ensures Zeros(Start, 0, 1, 1, "4uc2", Some(Sevens)) == Ok(SubByteZeros)
    ensures var m := SubByteZeros.vars[0];
      ElemSize(m) == 1 && Footprint(m) == 1 && Bytes(SubByteZeros, m)[0] == 7
  {
    StartValid();
    SubByteConstruct();
    SubByteWrite();
  }

  lemma SubByteWrite()
    ensures var m := SubByteZeros.vars[0];
      && m.data == Some(0)
      && WriteBlock(SubByteZeros, 0, Overwrite(Bytes(SubByteZeros, m), seq(ZeroCount(1, 1, m), _ => 0))) == SubByteZeros
  {
    var m := Matrix(1, 1, 2, 4, Some(0), Some(0));
    assert SubByteZeros.vars[0] == m;
    assert ZeroCount(1, 1, m) == 0;
    assert seq(0, _ => 0) == [];
    assert Overwrite(Sevens, []) == Sevens;
    assert SubByteZeros.blocks[0 := Sevens] == SubByteZeros.blocks;
  }

  lemma SubByteParse()
    ensures Recognize("4uc2").Some? && Parsed("4uc2") == Ok(Channels(2, 4))
  {
    var p := Match("4", 'u', "2");
    assert Spell(p) == "4uc2";
    RecognizeComplete(p);
    assert DecimalValue("4") == 4 && DecimalValue("2") == 2;
    assert Pow2(2) == 4;
    Pow2Log2(2);
  }

  lemma SubByteCreate()
    ensures Create(Construct(Start, 0), 0, 1, 1, 2, 4, Some(Sevens)) == Ok(SubByteZeros)
  {
    var w1 := Construct(Start, 0);
    assert Release(w1, 0) == Start by {
      assert w1.vars - {0} == map[];
    }
    assert Convert(UShort, 2) == 2 && Convert(UShort, 4) == 4;
  }

  lemma SubByteConstruct()
    ensures Recognize("4uc2").Some? && AllocFor("4uc2", 1, 1, Some(Sevens))
    ensures ConstructFrom(Start, 0, 1, 1, "4uc2", Some(Sevens)) == Ok(SubByteZeros)
  {
    StartValid();
    SubByteParse();
    SubByteCreate();
  }

  // ---------------------------------------------------------------------
  // copyTo and clone

  /** A temporary `tmp` (a local `Matrix m;`) on which `create` succeeded. */
  function Temporary(w: World, tmp: Var, cols: int, rows: int, nchans: int, depth: int, alloc: Option<seq<byte>>): (r: World)
    requires Valid(w) && tmp !in w.vars
    requires nchans >= 0 && depth >= 0
    requires Fits(alloc, cols * rows * nchans * depth) && alloc.Some?
    ensures Valid(r) && r.vars.Keys == w.vars.Keys + {tmp}
    ensures r.vars[tmp].data.Some? && r.vars[tmp].data.value in r.blocks
    ensures |r.blocks[r.vars[tmp].data.value]| == |alloc.value|
  {
    ConstructValid(w, tmp);
    CreateValid(Construct(w, tmp), tmp, cols, rows, nchans, depth, alloc);
    Create(Construct(w, tmp), tmp, cols, rows, nchans, depth, alloc).value
  }

  /** The temporary has the requested shape and sole ownership of a block no
      object of `w` held, holding the allocator's bytes; the objects of `w`
      are untouched. */
  lemma TemporaryFacts(w: World, tmp: Var, cols: int, rows: int, nchans: int, depth: int, alloc: Option<seq<byte>>)
    requires Valid(w) && tmp !in w.vars
    requires nchans >= 0 && depth >= 0
    requires Fits(alloc, cols * rows * nchans * depth) && alloc.Some?
    ensures var r := Temporary(w, tmp, cols, rows, nchans, depth, alloc);
      var m := r.vars[tmp];
      && m.cols == cols && m.rows == rows
      && m.nchans == Convert(UShort, nchans) && m.depth == Convert(UShort, depth)
      && m.data.Some? && m.counter == m.data && m.data.value !in w.blocks
      && Bytes(r, m) == alloc.value
      && Refs(r.vars, m.data.value) == {tmp}
    ensures var r := Temporary(w, tmp, cols, rows, nchans, depth, alloc);
      forall u :: u in w.vars ==> r.vars[u] == w.vars[u] && Bytes(r, w.vars[u]) == Bytes(w, w.vars[u])
  {
    var w1 := Construct(w, tmp);
    assert Valid(w1) && tmp in w1.vars && CanDecref(w1, w1.vars[tmp]) by {
      ConstructValid(w, tmp);
    }
    var r := Temporary(w, tmp, cols, rows, nchans, depth, alloc);
    assert r.vars[tmp].counter == r.vars[tmp].data && r.vars[tmp].data.Some?
      && r.vars[tmp].data.value !in w1.blocks by {
      CreateValid(w1, tmp, cols, rows, nchans, depth, alloc);
    }
    TemporaryTarget(w, tmp, cols, rows, nchans, depth, alloc);
    assert w1.blocks == w.blocks;
    TemporaryFrame(w, tmp, cols, rows, nchans, depth, alloc);
  }

  lemma TemporaryTarget(w: World, tmp: Var, cols: int, rows: int, nchans: int, depth: int, alloc: Option<seq<byte>>)
    requires Valid(w) && tmp !in w.vars
    requires nchans >= 0 && depth >= 0
    requires Fits(alloc, cols * rows * nchans * depth) && alloc.Some?
    ensures var r := Temporary(w, tmp, cols, rows, nchans, depth, alloc);
      var m := r.vars[tmp];
      && m.cols == cols && m.rows == rows
      && m.nchans == Convert(UShort, nchans) && m.depth == Convert(UShort, depth)
      && m.data.Some? && m.counter == m.data && m.data.value !in Construct(w, tmp).blocks
      && Bytes(r, m) == alloc.value
      && Refs(r.vars, m.data.value) == {tmp}
  {
    ConstructValid(w, tmp);
    var w1 := Construct(w, tmp);
    CreateValid(w1, tmp, cols, rows, nchans, depth, alloc);
    var r := Temporary(w, tmp, cols, rows, nchans, depth, alloc);
    var m := r.vars[tmp];
    var id := m.data.value;
    assert tmp in Refs(r.vars, id) && r.counts[id] == 1 by {
      assert PointerOk(r, m);
    }
    SingletonSet(Refs(r.vars, id), tmp);
  }

  lemma TemporaryFrame(w: World, tmp: Var, cols: int, rows: int, nchans: int, depth: int, alloc: Option<seq<byte>>)
    requires Valid(w) && tmp !in w.vars
    requires nchans >= 0 && depth >= 0
    requires Fits(alloc, cols * rows * nchans * depth) && alloc.Some?
    ensures var r := Temporary(w, tmp, cols, rows, nchans, depth, alloc);
      forall u :: u in w.vars ==> r.vars[u] == w.vars[u] && Bytes(r, w.vars[u]) == Bytes(w, w.vars[u])
  {
    var w1 := Construct(w, tmp);
    assert Valid(w1) && tmp in w1.vars by {
      ConstructValid(w, tmp);
    }
    var r := Temporary(w, tmp, cols, rows, nchans, depth, alloc);
    assert forall u :: u in w1.vars && u != tmp ==> r.vars[u] == w1.vars[u] && Bytes(r, r.vars[u]) == Bytes(w1, w1.vars[u]) by {
      CreateValid(w1, tmp, cols, rows, nchans, depth, alloc);
    }
    forall u | u in w.vars
      ensures r.vars[u] == w.vars[u] && Bytes(r, w.vars[u]) == Bytes(w, w.vars[u])
    {
      assert u in w1.vars && u != tmp && w1.vars[u] == w.vars[u];
      SameBlocks(w1, w, w.vars[u]);
    }
  }

  /** `matrix = m;` followed by the end of `m`'s scope: `dst` is
      copy-assigned from the temporary, which is then destroyed. */
  function Handover(w: World, dst: Var, tmp: Var): (r: World)
    requires Valid(w) && dst in w.vars && tmp in w.vars && dst != tmp
    ensures Valid(r) && r.vars.Keys == w.vars.Keys - {tmp}
  {
    var w1 := CopyAssign(w, dst, tmp);
    assert Valid(w1) && w1.vars.Keys == w.vars.Keys by {
      CopyAssignValid(w, dst, tmp);
    }
    assert CanDecref(w1, w1.vars[tmp]) && Valid(Release(w1, tmp)) by {
      ReleaseValid(w1, tmp);
    }
    Release(w1, tmp)
  }

  /** When the temporary is the sole owner of its block, after the hand-over
      `dst` is: it has the temporary's attributes and bytes, and no other
      object changes. */
  lemma HandoverFacts(w: World, dst: Var, tmp: Var)
    requires Valid(w) && dst in w.vars && tmp in w.vars && dst != tmp
    requires w.vars[tmp].counter.Some? && Refs(w.vars, w.vars[tmp].counter.value) == {tmp}
    ensures var r := Handover(w, dst, tmp);
      && r.vars[dst] == w.vars[tmp]
      && Bytes(r, r.vars[dst]) == Bytes(w, w.vars[tmp])
      && Refs(r.vars, w.vars[tmp].counter.value) == {dst}
    ensures var r := Handover(w, dst, tmp);
      forall u :: u in w.vars && u != dst && u != tmp ==> r.vars[u] == w.vars[u] && Bytes(r, w.vars[u]) == Bytes(w, w.vars[u])
  {
    HandoverTarget(w, dst, tmp);
    HandoverBytes(w, dst, tmp);
    HandoverFrame(w, dst, tmp);
  }

  /** After the hand-over `dst` holds the temporary's attributes, and is the
      only object on its counter. */
  lemma HandoverTarget(w: World, dst: Var, tmp: Var)
    requires Valid(w) && dst in w.vars && tmp in w.vars && dst != tmp
    requires w.vars[tmp].counter.Some? && Refs(w.vars, w.vars[tmp].counter.value) == {tmp}
    ensures var r := Handover(w, dst, tmp);
      r.vars[dst] == w.vars[tmp] && Refs(r.vars, w.vars[tmp].counter.value) == {dst}
  {
    var c := w.vars[tmp].counter.value;
    var w1 := CopyAssign(w, dst, tmp);
    assert w1.vars[dst] == w.vars[tmp];
    SoleReference(w.vars, w1.vars, dst, tmp, c);
  }

  /** Map form of the hand-over: when `tmp` alone held counter `c` and `dst`
      takes it over, with every other object unchanged, then once `tmp` is
      gone `dst` alone holds `c`. */
  lemma SoleReference(before: map<Var, Matrix>, after: map<Var, Matrix>, dst: Var, tmp: Var, c: nat)
    requires dst in after && after[dst].counter == Some(c) && dst != tmp
    requires Refs(before, c) == {tmp}
    requires after.Keys <= before.Keys
    requires forall u :: u in before && u != dst ==> u in after && after[u] == before[u]
    ensures Refs(after - {tmp}, c) == {dst}
  {
    forall u | u in after - {tmp}
      ensures u in Refs(after - {tmp}, c) <==> u == dst
    {
      if u != dst {
        assert u !in Refs(before, c);
      }
    }
  }

  /** After the hand-over `dst` sees the temporary's bytes. */
  lemma HandoverBytes(w: World, dst: Var, tmp: Var)
    requires Valid(w) && dst in w.vars && tmp in w.vars && dst != tmp
    requires w.vars[tmp].counter.Some? && Refs(w.vars, w.vars[tmp].counter.value) == {tmp}
    ensures var r := Handover(w, dst, tmp);
      dst in r.vars && Bytes(r, r.vars[dst]) == Bytes(w, w.vars[tmp])
  {
    CopyAssignValid(w, dst, tmp);
    var w1 := CopyAssign(w, dst, tmp);
    ReleaseFrame(w1, tmp);
  }

  /** The hand-over changes no object other than `dst` and `tmp`. */
  lemma HandoverFrame(w: World, dst: Var, tmp: Var)
    requires Valid(w) && dst in w.vars && tmp in w.vars && dst != tmp
    ensures var r := Handover(w, dst, tmp);
      forall u :: u in w.vars && u != dst && u != tmp ==> r.vars[u] == w.vars[u] && Bytes(r, w.vars[u]) == Bytes(w, w.vars[u])
  {
    var w1 := CopyAssign(w, dst, tmp);
    assert PointersOk(w1) && CountsOk(w1) && tmp in w1.vars by {
      CopyAssignValid(w, dst, tmp);
    }
    CopyAssignFrame(w, dst, tmp);
    ReleaseFrame(w1, tmp);
    var r := Release(w1, tmp);
    assert r == Handover(w, dst, tmp);
    forall u | u in w.vars && u != dst && u != tmp
      ensures r.vars[u] == w.vars[u] && Bytes(r, w.vars[u]) == Bytes(w, w.vars[u])
    {
      assert w1.vars[u] == w.vars[u];
    }
  }

  /** The pattern `copyTo` and the colour conversions share: a temporary
      `tmp` is `create`d with the given shape, `content` is written at the
      start of its block, `dst` is copy-assigned from it, and the temporary is
      destroyed. */
  function Produce(w: World, dst: Var, tmp: Var, cols: int, rows: int, nchans: int, depth: int,
                   alloc: Option<seq<byte>>, content: seq<byte>): (r: Result<World>)
    requires Valid(w) && dst in w.vars && tmp !in w.vars
    requires nchans >= 0 && depth >= 0
    requires Fits(alloc, cols * rows * nchans * depth)
    requires alloc.Some? ==> |content| <= |alloc.value|
    ensures alloc.None? <==> r == Fail(BadAlloc)
    ensures r.Ok? ==> Valid(r.value) && r.value.vars.Keys == w.vars.Keys
  {
    if alloc.None? then
      Fail(BadAlloc)
    else
      var w1 := Temporary(w, tmp, cols, rows, nchans, depth, alloc);
      var id := w1.vars[tmp].data.value;
      var bytes := Overwrite(w1.blocks[id], content);
      WriteBlockValid(w1, id, bytes);
      Ok(Handover(WriteBlock(w1, id, bytes), dst, tmp))
  }

  /** A successful `Produce` gives `dst` the requested shape and sole
      ownership of a block no object held before, which starts with
      `content`; no other object changes. */
  lemma ProduceValid(w: World, dst: Var, tmp: Var, cols: int, rows: int, nchans: int, depth: int,
                     alloc: Option<seq<byte>>, content: seq<byte>)
    requires Valid(w) && dst in w.vars && tmp !in w.vars
    requires nchans >= 0 && depth >= 0
    requires Fits(alloc, cols * rows * nchans * depth)
    requires alloc.Some? && |content| <= |alloc.value|
    ensures var r := Produce(w, dst, tmp, cols, rows, nchans, depth, alloc, content).value;
      var m := r.vars[dst];
      && m.cols == cols && m.rows == rows
      && m.nchans == Convert(UShort, nchans) && m.depth == Convert(UShort, depth)
      && m.data.Some? && m.data.value !in w.blocks
      && Bytes(r, m) == Overwrite(alloc.value, content)
      && Refs(r.vars, m.data.value) == {dst}
    ensures var r := Produce(w, dst, tmp, cols, rows, nchans, depth, alloc, content).value;
      forall u :: u in w.vars && u != dst ==> r.vars[u] == w.vars[u] && Bytes(r, w.vars[u]) == Bytes(w, w.vars[u])
  {
    ProduceTarget(w, dst, tmp, cols, rows, nchans, depth, alloc, content);
    ProduceFrame(w, dst, tmp, cols, rows, nchans, depth, alloc, content);
  }

  lemma ProduceTarget(w: World, dst: Var, tmp: Var, cols: int, rows: int, nchans: int, depth: int,
                      alloc: Option<seq<byte>>, content: seq<byte>)
    requires Valid(w) && dst in w.vars && tmp !in w.vars
    requires nchans >= 0 && depth >= 0
    requires Fits(alloc, cols * rows * nchans * depth)
    requires alloc.Some? && |content| <= |alloc.value|
    ensures var r := Produce(w, dst, tmp, cols, rows, nchans, depth, alloc, content).value;
      var m := r.vars[dst];
      && m.cols == cols && m.rows == rows
      && m.nchans == Convert(UShort, nchans) && m.depth == Convert(UShort, depth)
      && m.data.Some? && m.data.value !in w.blocks
      && Bytes(r, m) == Overwrite(alloc.value, content)
      && Refs(r.vars, m.data.value) == {dst}
  {
    var w1 := Temporary(w, tmp, cols, rows, nchans, depth, alloc);
    var id := w1.vars[tmp].data.value;
    var bytes := Overwrite(w1.blocks[id], content);
    var w2 := WriteBlock(w1, id, bytes);
    assert Valid(w2) && w2.vars == w1.vars && Refs(w2.vars, id) == {tmp} && dst in w2.vars && tmp in w2.vars
      && w2.vars[tmp] == w1.vars[tmp] && Bytes(w2, w2.vars[tmp]) == bytes
      && bytes == Overwrite(alloc.value, content) && id !in w.blocks by {
      TemporaryFacts(w, tmp, cols, rows, nchans, depth, alloc);
      WriteBlockValid(w1, id, bytes);
    }
    HandoverFacts(w2, dst, tmp);
  }

  lemma ProduceFrame(w: World, dst: Var, tmp: Var, cols: int, rows: int, nchans: int, depth: int,
                     alloc: Option<seq<byte>>, content: seq<byte>)
    requires Valid(w) && dst in w.vars && tmp !in w.vars
    requires nchans >= 0 && depth >= 0
    requires Fits(alloc, cols * rows * nchans * depth)
    requires alloc.Some? && |content| <= |alloc.value|
    ensures var r := Produce(w, dst, tmp, cols, rows, nchans, depth, alloc, content).value;
      forall u :: u in w.vars && u != dst ==> r.vars[u] == w.vars[u] && Bytes(r, w.vars[u]) == Bytes(w, w.vars[u])
  {
    var w1 := Temporary(w, tmp, cols, rows, nchans, depth, alloc);
    var id := w1.vars[tmp].data.value;
    var bytes := Overwrite(w1.blocks[id], content);
    var w2 := WriteBlock(w1, id, bytes);
    assert Valid(w2) && dst in w2.vars && tmp in w2.vars by {
      TemporaryFacts(w, tmp, cols, rows, nchans, depth, alloc);
      WriteBlockValid(w1, id, bytes);
    }
    assert forall u :: u in w.vars ==> w2.vars[u] == w.vars[u] && Bytes(w2, w.vars[u]) == Bytes(w, w.vars[u]) by {
      TemporaryFacts(w, tmp, cols, rows, nchans, depth, alloc);
      WriteBlockValid(w1, id, bytes);
      forall u | u in w.vars
        ensures w2.vars[u] == w.vars[u] && Bytes(w2, w.vars[u]) == Bytes(w, w.vars[u])
      {
        assert PointerOk(w, w.vars[u]);
        assert w1.vars[u] == w.vars[u] && w.vars[u].data != Some(id);
      }
    }
    HandoverFrame(w2, dst, tmp);
  }

  /** What the invariant says about a source object: its type fields are
      `uint16_t` values and its pixels fit in its bytes. */
  lemma SourcePixels(w: World, src: Var)
    requires PointersOk(w) && src in w.vars
    ensures var s := w.vars[src];
      && 0 <= s.nchans && 0 <= s.depth
      && Convert(UShort, s.nchans) == s.nchans && Convert(UShort, s.depth) == s.depth
      && 0 <= Footprint(s) <= |Bytes(w, s)|
  {
    var s := w.vars[src];
    assert PointerOk(w, s);
    UShortKept(s.nchans);
    UShortKept(s.depth);
    if s.data.None? {
      NoPixels(s);
    } else {
      assert Bytes(w, s) == w.blocks[s.data.value];
    }
  }

  /** A `uint16_t` value is stored unchanged. */
  lemma UShortKept(x: int)
    requires InRange(UShort, x)
    ensures 0 <= x && Convert(UShort, x) == x
  {
  }

  /** An object in the `init()` state has no pixels. */
  lemma NoPixels(m: Matrix)
    requires m.cols == 0 && m.rows == 0
    ensures Footprint(m) == 0
  {
  }

  /** The pixels of `copyTo`'s source: the first `cols * rows * elemSize()`
      bytes it designates, which `deep_copy` moves. */
  function SourceBytes(w: World, src: Var): (r: seq<byte>)
    requires PointersOk(w) && src in w.vars
    ensures |r| == Footprint(w.vars[src])
  {
    SourcePixels(w, src);
    Bytes(w, w.vars[src])[..Footprint(w.vars[src])]
  }

  /** The request `deep_copy` passes to `malloc` for a copy of `src`. */
  function CopySize(w: World, src: Var): int
    requires src in w.vars
  {
    var s := w.vars[src];
    s.cols * s.rows * s.nchans * s.depth
  }

  /** `copyTo(matrix)` on `src` with `matrix` being `dst`: a local `m` (here
      `tmp`) is `deep_copy`d from `src` (created with its shape, then the
      pixels `memmove`d), `dst = m` copy-assigns, and `m` is destroyed. `dst`
      may be `src` itself: the pixels are read before anything changes. */
  function CopyTo(w: World, src: Var, dst: Var, tmp: Var, alloc: Option<seq<byte>>): (r: Result<World>)
    requires Valid(w) && src in w.vars && dst in w.vars && tmp !in w.vars
    requires Fits(alloc, CopySize(w, src))
    ensures alloc.None? <==> r == Fail(BadAlloc)
    ensures r.Ok? ==> Valid(r.value) && r.value.vars.Keys == w.vars.Keys
  {
    var s := w.vars[src];
    SourcePixels(w, src);
    if alloc.Some? then
      FootprintFits(s.cols, s.rows, s.nchans, s.depth);
      Produce(w, dst, tmp, s.cols, s.rows, s.nchans, s.depth, alloc, SourceBytes(w, src))
    else
      Fail(BadAlloc)
  }

  /** After `copyTo`, `dst` has the shape of `src` and a block of its own, no
      object held before, whose pixels are those of `src` (the bytes past
      them are the allocator's); no object other than `dst` changes, not even
      one that shared `dst`'s old block. */
  lemma CopyToValid(w: World, src: Var, dst: Var, tmp: Var, alloc: Option<seq<byte>>)
    requires Valid(w) && src in w.vars && dst in w.vars && tmp !in w.vars
    requires Fits(alloc, CopySize(w, src)) && alloc.Some?
    ensures var r := CopyTo(w, src, dst, tmp, alloc).value;
      var s := w.vars[src];
      var m := r.vars[dst];
      && SameShape(m, s) && m.data.Some? && m.data.value !in w.blocks
      && Refs(r.vars, m.data.value) == {dst}
      && 0 <= Footprint(s) <= |Bytes(r, m)| == |alloc.value|
      && Bytes(r, m)[..Footprint(s)] == SourceBytes(w, src)
      && Bytes(r, m)[Footprint(s)..] == alloc.value[Footprint(s)..]
    ensures var r := CopyTo(w, src, dst, tmp, alloc).value;
      forall u :: u in w.vars && u != dst ==> r.vars[u] == w.vars[u] && Bytes(r, w.vars[u]) == Bytes(w, w.vars[u])
  {
    var s := w.vars[src];
    SourcePixels(w, src);
    FootprintFits(s.cols, s.rows, s.nchans, s.depth);
    var content := SourceBytes(w, src);
    ProduceTarget(w, dst, tmp, s.cols, s.rows, s.nchans, s.depth, alloc, content);
    ProduceFrame(w, dst, tmp, s.cols, s.rows, s.nchans, s.depth, alloc, content);
  }

  /** After `copyTo`, `at(y, x)` of `dst` reads what `at(y, x)` of `src` read
      before, at every position of `src`. */
  lemma CopyToPixels(w: World, src: Var, dst: Var, tmp: Var, alloc: Option<seq<byte>>, y: int, x: int)
    requires Valid(w) && src in w.vars && dst in w.vars && tmp !in w.vars
    requires Fits(alloc, CopySize(w, src)) && alloc.Some?
    requires 0 <= y < w.vars[src].rows && 0 <= x < w.vars[src].cols
    ensures var r := CopyTo(w, src, dst, tmp, alloc).value;
      && PointerOk(w, w.vars[src]) && w.vars[src].data.Some?
      && PointerOk(r, r.vars[dst]) && r.vars[dst].data.Some? && SameShape(r.vars[dst], w.vars[src])
      && At(r, r.vars[dst], y, x) == At(w, w.vars[src], y, x)
  {
    var r := CopyTo(w, src, dst, tmp, alloc).value;
    var s := w.vars[src];
    var m := r.vars[dst];
    assert PointerOk(w, s) && s.data.Some? by {
      SourcePixels(w, src);
      assert PointerOk(w, s);
    }
    assert PointerOk(r, m) by {
      assert PointersOk(r);
    }
    CopyToPrefix(w, src, dst, tmp, alloc);
    SameShapeAt(r, m, w, s, y, x);
  }

  /** The part of `CopyToValid` that `CopyToPixels` reads. */
  lemma CopyToPrefix(w: World, src: Var, dst: Var, tmp: Var, alloc: Option<seq<byte>>)
    requires Valid(w) && src in w.vars && dst in w.vars && tmp !in w.vars
    requires Fits(alloc, CopySize(w, src)) && alloc.Some?
    ensures var r := CopyTo(w, src, dst, tmp, alloc).value;
      var s := w.vars[src];
      var m := r.vars[dst];
      && SameShape(m, s) && m.data.Some? && 0 <= Footprint(s) <= |Bytes(r, m)|
      && Footprint(s) <= |Bytes(w, s)| && Bytes(r, m)[..Footprint(s)] == Bytes(w, s)[..Footprint(s)]
  {
    SourcePixels(w, src);
    CopyToValid(w, src, dst, tmp, alloc);
  }

  /** `SameShapePixel` read through `at(y, x)`. */
  lemma SameShapeAt(wa: World, a: Matrix, ws: World, s: Matrix, y: int, x: int)
    requires PointerOk(wa, a) && a.data.Some? && PointerOk(ws, s) && s.data.Some? && SameShape(a, s)
    requires 0 <= y < s.rows && 0 <= x < s.cols
    requires Bytes(wa, a)[..Footprint(s)] == Bytes(ws, s)[..Footprint(s)]
    ensures At(wa, a, y, x) == At(ws, s, y, x)
  {
    SameShapePixel(a, Bytes(wa, a), s, Bytes(ws, s), y, x);
  }

  /** Two objects of the same shape whose buffers agree on the pixels of
      the first read the same pixel at every position. */
  lemma SameShapePixel(a: Matrix, ba: seq<byte>, s: Matrix, bs: seq<byte>, y: int, x: int)
    requires SameShape(a, s) && 0 <= y < s.rows && 0 <= x < s.cols && s.depth >= 0 && s.nchans >= 0
    requires 0 <= Footprint(s) <= |ba| && Footprint(s) <= |bs| && ba[..Footprint(s)] == bs[..Footprint(s)]
    ensures (ElementIndex(s, y, x) + 1) * ElemSize(s) <= |bs|
    ensures (ElementIndex(a, y, x) + 1) * ElemSize(a) <= |ba|
    ensures Pixel(ba, ElemSize(a), ElementIndex(a, y, x)) == Pixel(bs, ElemSize(s), ElementIndex(s, y, x))
  {
    ElementInBounds(s, y, x);
    SamePrefixPixel(ba, bs, Footprint(s), ElemSize(s), ElementIndex(s, y, x));
  }

  /** Two buffers that agree on their first `f` bytes agree on every pixel
      inside them. */
  lemma SamePrefixPixel(a: seq<byte>, b: seq<byte>, f: nat, e: nat, i: nat)
    requires f <= |a| && f <= |b| && a[..f] == b[..f] && (i + 1) * e <= f
    ensures Pixel(a, e, i) == Pixel(b, e, i)
  {
    PixelOfPrefix(a, f, e, i);
    PixelOfPrefix(b, f, e, i);
  }

  /** `clone()` on `src`: a new object `v` is default-constructed and
      `copyTo` fills it; it is returned by value (the copy is elided). */
  function Clone(w: World, src: Var, v: Var, tmp: Var, alloc: Option<seq<byte>>): (r: Result<World>)
    requires Valid(w) && src in w.vars && v !in w.vars && tmp !in w.vars && tmp != v
    requires Fits(alloc, CopySize(w, src))
    ensures alloc.None? <==> r == Fail(BadAlloc)
    ensures r.Ok? ==> Valid(r.value) && r.value.vars.Keys == w.vars.Keys + {v}
  {
    var w1 := Construct(w, v);
    assert Valid(w1) && src in w1.vars && v in w1.vars && tmp !in w1.vars by {
      ConstructValid(w, v);
    }
    assert CopySize(w1, src) == CopySize(w, src) by {
      assert w1.vars[src] == w.vars[src];
    }
    assert w1.vars.Keys == w.vars.Keys + {v};
    CopyTo(w1, src, v, tmp, alloc)
  }

  /** The clone has the shape and the pixels of its source in a block of
      its own that no object held before; no existing object changes. */
  lemma CloneValid(w: World, src: Var, v: Var, tmp: Var, alloc: Option<seq<byte>>)
    requires Valid(w) && src in w.vars && v !in w.vars && tmp !in w.vars && tmp != v
    requires Fits(alloc, CopySize(w, src)) && alloc.Some?
    ensures var r := Clone(w, src, v, tmp, alloc).value;
      var s := w.vars[src];
      var m := r.vars[v];
      && SameShape(m, s) && m.data.Some? && m.data.value !in w.blocks
      && Refs(r.vars, m.data.value) == {v}
      && 0 <= Footprint(s) <= |Bytes(r, m)| == |alloc.value|
      && Bytes(r, m)[..Footprint(s)] == SourceBytes(w, src)
    ensures var r := Clone(w, src, v, tmp, alloc).value;
      forall u :: u in w.vars ==> r.vars[u] == w.vars[u] && Bytes(r, w.vars[u]) == Bytes(w, w.vars[u])
  {
    CloneTarget(w, src, v, tmp, alloc);
    CloneFrame(w, src, v, tmp, alloc);
  }

  lemma CloneTarget(w: World, src: Var, v: Var, tmp: Var, alloc: Option<seq<byte>>)
    requires Valid(w) && src in w.vars && v !in w.vars && tmp !in w.vars && tmp != v
    requires Fits(alloc, CopySize(w, src)) && alloc.Some?
    ensures var r := Clone(w, src, v, tmp, alloc).value;
      var s := w.vars[src];
      var m := r.vars[v];
      && SameShape(m, s) && m.data.Some? && m.data.value !in w.blocks
      && Refs(r.vars, m.data.value) == {v}
      && 0 <= Footprint(s) <= |Bytes(r, m)| == |alloc.value|
      && Bytes(r, m)[..Footprint(s)] == SourceBytes(w, src)
  {
    var w1 := Construct(w, v);
    CloneStep(w, src, v, tmp, alloc);
    CopyToValid(w1, src, v, tmp, alloc);
  }

  /** `clone()` is `copyTo` into a default-constructed object, whose
      construction changes neither the source nor any block. */
  lemma CloneStep(w: World, src: Var, v: Var, tmp: Var, alloc: Option<seq<byte>>)
    requires Valid(w) && src in w.vars && v !in w.vars && tmp !in w.vars && tmp != v
    requires Fits(alloc, CopySize(w, src))
    ensures var w1 := Construct(w, v);
      && Valid(w1) && src in w1.vars && v in w1.vars && tmp !in w1.vars
      && w1.vars[src] == w.vars[src] && w1.blocks == w.blocks
      && Fits(alloc, CopySize(w1, src))
      && SourceBytes(w1, src) == SourceBytes(w, src)
      && Clone(w, src, v, tmp, alloc) == CopyTo(w1, src, v, tmp, alloc)
  {
    var w1 := Construct(w, v);
    ConstructValid(w, v);
    assert w1.vars[src] == w.vars[src];
  }

  lemma CloneFrame(w: World, src: Var, v: Var, tmp: Var, alloc: Option<seq<byte>>)
    requires Valid(w) && src in w.vars && v !in w.vars && tmp !in w.vars && tmp != v
    requires Fits(alloc, CopySize(w, src)) && alloc.Some?
    ensures var r := Clone(w, src, v, tmp, alloc).value;
      forall u :: u in w.vars ==> r.vars[u] == w.vars[u] && Bytes(r, w.vars[u]) == Bytes(w, w.vars[u])
  {
    var w1 := Construct(w, v);
    var r := Clone(w, src, v, tmp, alloc).value;
    assert forall u :: u in w1.vars && u != v ==> r.vars[u] == w1.vars[u] && Bytes(r, w1.vars[u]) == Bytes(w1, w1.vars[u]) by {
      ConstructValid(w, v);
      assert r == CopyTo(w1, src, v, tmp, alloc).value;
      CopyToValid(w1, src, v, tmp, alloc);
    }
    forall u | u in w.vars
      ensures r.vars[u] == w.vars[u] && Bytes(r, w.vars[u]) == Bytes(w, w.vars[u])
    {
      assert u in w1.vars && u != v && w1.vars[u] == w.vars[u];
      SameBlocks(w1, w, w.vars[u]);
    }
  }

  /** Two heaps with the same blocks show every object the same bytes. */
  lemma SameBlocks(a: World, b: World, m: Matrix)
    requires a.blocks == b.blocks
    ensures Bytes(a, m) == Bytes(b, m)
  {
  }

  /** A clone is independent of its source: `setTo` on the clone leaves
      every byte the source designates unchanged (contrast `CopyAliases`). */
  lemma CloneIndependent(w: World, src: Var, v: Var, tmp: Var, alloc: Option<seq<byte>>, value: seq<byte>)
    requires Valid(w) && src in w.vars && v !in w.vars && tmp !in w.vars && tmp != v
    requires Fits(alloc, CopySize(w, src)) && alloc.Some? && |value| > 0
    ensures var r := Clone(w, src, v, tmp, alloc).value;
      && v in r.vars
      && var r2 := SetTo(r, v, value);
         r2.Ok? ==> src in r2.value.vars && Bytes(r2.value, r2.value.vars[src]) == Bytes(w, w.vars[src])
  {
    var r := Clone(w, src, v, tmp, alloc).value;
    assert Valid(r) && v in r.vars && src in r.vars && r.vars[src] == w.vars[src]
      && Bytes(r, w.vars[src]) == Bytes(w, w.vars[src])
      && r.vars[v].data.Some? && r.vars[v].data.value !in w.blocks by {
      CloneTarget(w, src, v, tmp, alloc);
      CloneFrame(w, src, v, tmp, alloc);
    }
    assert w.vars[src].data != r.vars[v].data by {
      assert PointerOk(w, w.vars[src]);
    }
    if SetTo(r, v, value).Ok? {
      var r2 := SetTo(r, v, value).value;
      assert Bytes(r2, r.vars[src]) == Bytes(r, r.vars[src]) by {
        SetToValid(r, v, value);
      }
    }
  }

  /** A copy made by the copy constructor is not independent: after `setTo`
      on the copy the source designates the very same bytes. */
  lemma CopyAliases(w: World, v: Var, src: Var, value: seq<byte>)
    requires Valid(w) && v !in w.vars && src in w.vars && w.vars[src].data.Some? && |value| > 0
    ensures CanIncref(w, w.vars[src])
    ensures var r := Copy(w, v, src);
      && Valid(r) && v in r.vars
      && var r2 := SetTo(r, v, value);
         r2.Ok? ==> src in r2.value.vars && Bytes(r2.value, r2.value.vars[src]) == Bytes(r2.value, r2.value.vars[v])
  {
    CopyValid(w, v, src);
    var r := Copy(w, v, src);
    if SetTo(r, v, value).Ok? {
      SetToValid(r, v, value);
      assert src in r.vars && r.vars[src].data == r.vars[v].data;
    }
  }
}
