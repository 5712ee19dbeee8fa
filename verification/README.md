# liteCV core in Dafny

A model of the core of liteCV, a small header-only C++ image library, with
proofs about it. The model covers:

- **`Matrix`**: the reference-counted image buffer. It is modelled as an
  abstract heap. A `World` holds the live `Matrix` objects, the reference
  counters and the byte blocks.
  - Covered: construction, copy and move, copy and move assignment,
    destruction, `create`, `zeros`, `setTo`, `copyTo`, `clone`, `empty`,
    `elemSize`, `elemSize1`, `ptr(y)` and `at(y, x)`.
  - The heap invariant `MatrixModel.Valid` says:
    - every counter equals the number of objects that point at it;
    - a block is freed exactly when its last reference goes;
    - every object's pixels fit in its block.
  - Every operation except `create` as written is proved to keep this invariant; `MatrixModel.CreateAsWrittenLeaks` shows how that one breaks it (see ## Findings).
- **`parse_channels`**: reads channel strings such as `"8uc3"`. The regular
  expression is replaced by a recogniser proved to accept exactly the
  strings of that shape.
- **`saturate_cast`**: the integer-to-integer specialisations.
- **`lcvModulo`**.
- **The four border-extrapolation policies** and the policy lookup.
- **The eight `cvtColor` routines** and the `cvtColor` dispatcher.
- **The value types `Element_`, `Point_`, `Point3_`, `Size_` and `Rect_`.**

Failures are values of `Outcome.Result`:

| failure | what it stands for |
|---|---|
| `AssertionFailed` | an `assert` fires |
| `BadAlloc` | `malloc` returns NULL and `create` throws |
| `OutOfRange` | `std::stoi` throws |
| `UseAfterFree` | the code as written touches a freed counter |

The allocator is a parameter. `None` stands for NULL. `Some(bytes)` is a
fresh block of exactly the requested size, holding unspecified `bytes`.

C++ integer conversions are written out explicitly in `Primitive.Convert`.
These truncations of the source are modelled:

- the `uint16_t` type fields of a `Matrix`;
- `saturate_cast`'s intermediate casts;
- `int` overflow in `Size_`, `Rect_` and the `malloc` request;
- the truncating `%` that `lcvModulo` uses.

The other `int` products of `Matrix` are computed over unbounded integers;
"## Left out" lists them on the `MatrixModel.Create` line.

Each loop of the source is a method whose loop invariants prove it computes
the functional model:

- `MatrixOps.FillPixels`, the loop of `setTo`, which `MatrixOps.RunSetTo`
  runs;
- `Color.ConvertBuffer` and `Color.ConvertRow`, the nested loops of a
  colour routine, which `Color.RunConvertColor` runs.

## Model

| member | source | states |
|---|---|---|
| MatrixFactory.Recognize | liteCV/core/matrix.factory.hpp:11-13 | a match is only reported for a string that is a well-formed `digits class-char 'c' digits` spelling of the input |
| MatrixFactory.RecognizeComplete | liteCV/core/matrix.factory.hpp:11-13 | every well-formed spelling is recognised and split back into the same depth digits, class character and channel digits |
| MatrixFactory.BitTrickIsPowerOfTwo | liteCV/core/matrix.factory.hpp:23 | for positive `d`, `d & (d - 1) == 0` holds exactly when `d` is a power of two |
| MatrixFactory.PowersOfTwoPass | liteCV/core/matrix.factory.hpp:23 | every power of two passes the depth assertion |
| MatrixFactory.ParseChannels | liteCV/core/matrix.factory.hpp:9-29 | a non-matching string leaves both out-parameters untouched; a number beyond `int` makes `stoi` throw; otherwise the result is (channels, depth) exactly when the depth is a power of two and the channel count is positive, and an assertion failure in every other case |
| MatrixFactory.ClassLetterIgnored | liteCV/core/matrix.factory.hpp:11-19 | the class letter (`f`, `i`, `u` or `\|`) never changes the outcome |
| MatrixFactory.Examples | liteCV/core/matrix.factory.hpp:9-29 | "8uc3" gives 3 channels of depth 8; "8\|c1" is accepted; "8uc0" fails the channel assertion; "8uc" leaves the out-parameters alone |
| MatrixFactory.ExampleOutOfRange | liteCV/core/matrix.factory.hpp:18-19 | a depth of 2^31 makes `stoi` throw `out_of_range` |
| MatrixModel.StartValid | liteCV/core/matrix.hpp:15-24 | the empty heap satisfies the invariant |
| MatrixModel.Decref | liteCV/core/matrix.hpp:34-46 | a null counter is left alone; a counter above 1 is decremented; a counter at 1 is deleted along with the data block; no object changes |
| MatrixModel.Release | liteCV/core/matrix.hpp:92-95 | the destructor removes exactly the destroyed object |
| MatrixModel.ReleaseValid | liteCV/core/matrix.hpp:34-46 | destruction keeps the invariant; the counter disappears exactly when the destroyed object was its only reference; no other object's bytes change |
| MatrixModel.ReleaseFreesLast | liteCV/core/matrix.hpp:38-44 | the counter is deleted if and only if the destroyed object was the last one holding it |
| MatrixModel.LastReference | liteCV/core/matrix.hpp:38-44 | a counter holding 1 is held by no other object |
| MatrixModel.ReleaseFrame | liteCV/core/matrix.hpp:92-95 | destroying an object leaves every other object's bytes unchanged |
| MatrixModel.Construct | liteCV/core/matrix.hpp:87-90 | the default constructor adds exactly one empty object and changes nothing else |
| MatrixModel.ConstructValid | liteCV/core/matrix.hpp:87-90 | default construction keeps the invariant |
| MatrixModel.Copy | liteCV/core/matrix.hpp:62-72 | the copy has the source's shape and data pointer and shares the source's counter when there is one; no existing object changes and the blocks are unchanged |
| MatrixModel.CopyValid | liteCV/core/matrix.hpp:62-72 | copying keeps the invariant; the copy and its source designate the very same bytes |
| MatrixModel.CopyCountsShared | liteCV/core/matrix.hpp:27-32 | after a copy the shared counter equals the old sharers plus the copy |
| MatrixModel.Move | liteCV/core/matrix.hpp:74-84 | the new object takes every attribute of the source; the source is reset to the `init()` state; counters and blocks are unchanged |
| MatrixModel.MoveValid | liteCV/core/matrix.hpp:103-107 | moving keeps the invariant |
| MatrixModel.MoveRefs | liteCV/core/matrix.hpp:74-84 | a move hands the source's reference to the target, so every counter still equals its number of holders |
| MatrixModel.CopyAssign | liteCV/core/matrix.hpp:116-121 | copy assignment changes no object other than the target, and the blocks are those left after releasing the target |
| MatrixModel.CopyAssignValid | liteCV/core/matrix.hpp:116-121 | copy assignment keeps the invariant and the set of objects; the target gets the source's shape and aliases its bytes; no other object changes |
| MatrixModel.MoveAssignValid | liteCV/core/matrix.hpp:123-128 | move assignment keeps the invariant and the set of objects; the source ends empty; for distinct objects the target holds the source's old attributes |
| MatrixModel.MoveAssignSelf | liteCV/core/matrix.hpp:123-128 | moving an object onto itself is the same as releasing it and default-constructing it again |
| MatrixModel.MoveAssignOther | liteCV/core/matrix.hpp:123-128 | for distinct objects, move assignment is release followed by a move |
| MatrixModel.MallocRequestAsWritten | liteCV/core/matrix.hpp:152 | the size passed to `malloc` is an `int` whatever the operands, so a large product wraps |
| MatrixModel.MallocRequestUnderAllocates | liteCV/core/matrix.hpp:152 | for 2^29 + 1 columns of "8uc1" the request wraps to 8 bytes, while the pixels need 2^29 + 1 bytes |
| MatrixModel.FootprintFits | liteCV/core/matrix.hpp:152-160 | after the `uint16_t` truncation of the type fields, the pixels never extend past the bytes requested from `malloc` |
| MatrixModel.InstallValid | liteCV/core/matrix.hpp:155-162 | installing a fresh block and counter keeps the invariant and changes no existing object's bytes |
| MatrixModel.Create | liteCV/core/matrix.hpp:148-163 | (corrected) fails with `bad_exception` exactly when `malloc` returns NULL, succeeds otherwise, and keeps the set of objects |
| MatrixModel.CreateValid | liteCV/core/matrix.hpp:148-163 | (corrected) a successful `create` keeps the invariant; the object gets the requested `cols` and `rows`, `uint16_t`-truncated type fields, the allocator's fresh block and a counter holding 1; no other object or its bytes change |
| MatrixModel.CreateAsWritten | liteCV/core/matrix.hpp:148-163 | (as written) fails with `bad_exception` when `malloc` returns NULL; touches a freed counter exactly when `malloc` succeeds and the object was the sole owner of its counter, and succeeds in every other case |
| MatrixModel.CreateAsWrittenOnFreshObject | liteCV/core/matrix.hpp:148-163 | on an object without a counter, the code as written and the corrected `create` agree |
| MatrixModel.CreateAsWrittenUseAfterFree | liteCV/core/matrix.hpp:156-162 | re-creating the sole owner of a block increments a deleted counter |
| MatrixModel.CreateAsWrittenLeaks | liteCV/core/matrix.hpp:156-162 | re-creating one of two sharers breaks the invariant; after both are destroyed, the old block stays allocated with no counter |
| MatrixModel.CreateOnSoleOwner | liteCV/core/matrix.hpp:148-163 | the corrected `create` on the sole owner frees the old block and counter and installs new ones |
| MatrixModel.CreateOnSharedObject | liteCV/core/matrix.hpp:148-163 | the corrected `create` on a sharer drops the old counter to 1 and gives the object a counter of its own |
| MatrixOps.FillPixels | liteCV/core/matrix.hpp:183-184 | the loop writes `value` into pixels 0 to `count - 1` in order, leaving the bytes after them alone |
| MatrixOps.RepeatPixel | liteCV/core/matrix.hpp:183-184 | every pixel of the repeated value is the value |
| MatrixOps.WriteBlockValid | liteCV/core/matrix.hpp:184 | a same-size write keeps the invariant; every object pointing at the block sees the new bytes, and every other object sees its old bytes |
| MatrixOps.ElementInBounds | liteCV/core/matrix.hpp:227-272 | a position inside the matrix designates a pixel inside the buffer, located at `ptr(y)` plus `x` elements and before `ptr(y + 1)` |
| MatrixOps.ElementIndexInjective | liteCV/core/matrix.hpp:268-272 | distinct positions designate distinct pixels |
| MatrixOps.At | liteCV/core/matrix.hpp:268-272 | for an `Element` of `elemSize()` bytes, `at(y, x)` reads exactly one pixel's `elemSize()` bytes |
| MatrixOps.SetTo | liteCV/core/matrix.hpp:176-185 | fails its assertion exactly when the value is not one pixel wide; otherwise no object or counter changes |
| MatrixOps.RunSetTo | liteCV/core/matrix.hpp:176-185 | running the source's loop gives the outcome `SetTo` describes |
| MatrixOps.SetToValid | liteCV/core/matrix.hpp:176-185 | a successful `setTo` keeps the invariant; every pixel becomes `value` and the bytes past the pixels are kept; every object sharing the data sees the write, and no other object's bytes change |
| MatrixOps.SetToVisibleThroughAlias | liteCV/core/matrix.hpp:176-185 | after `setTo`, `at(y, x)` reads `value` at every position, also through every object sharing the data |
| MatrixOps.CreateFrom | liteCV/core/matrix.hpp:166-174 | (corrected `create`) the errors of `parse_channels`, then `bad_exception` on NULL; it succeeds for every valid string and non-NULL block, and then the invariant holds, the object has the parsed shape and a fresh block with the allocator's bytes, and no other object changes |
| MatrixOps.CreateFromAsWritten | liteCV/core/matrix.hpp:166-174 | (as written) the same parse errors and `bad_exception` on NULL; for a valid string and a non-NULL block it touches a freed counter exactly when the object is the sole owner of its counter, and succeeds otherwise |
| MatrixOps.ConstructFrom | liteCV/core/matrix.hpp:109-113 | the constructor has the same error outcomes and succeeds for every valid string and non-NULL block; then it keeps the invariant and adds one object with the parsed shape and a fresh block |
| MatrixOps.ConstructFromAsWritten | liteCV/core/matrix.hpp:109-113 | the constructor is exactly the source's code as written |
| MatrixOps.ConstructFromFrame | liteCV/core/matrix.hpp:109-113 | the constructor changes no existing object or its bytes |
| MatrixOps.ZeroCountFits | liteCV/core/matrix.hpp:142-152 | the `memset` of `zeros` stays inside the allocated block |
| MatrixOps.Zeros | liteCV/core/matrix.hpp:139-144 | `zeros` succeeds exactly when the constructor does, so for every valid string and non-NULL block, with the same objects |
| MatrixOps.ZerosValid | liteCV/core/matrix.hpp:139-144 | `zeros` keeps the invariant; it clears the first `cols * rows * (depth / 8) * nchans` bytes of a fresh block and keeps the allocator's bytes after them, which covers every pixel for a whole-byte depth; no other object changes |
| MatrixOps.WholeBytes | liteCV/core/matrix.hpp:139-144 | with a depth that is a multiple of 8, the bytes `zeros` clears are exactly the pixels |
| MatrixOps.ZerosSubByteDepth | liteCV/core/matrix.hpp:142 | with "4uc2" `zeros` clears nothing, and the one-byte pixel keeps the allocator's byte |
| MatrixOps.ProduceValid | liteCV/core/matrix.hpp:187-192 | the temporary-then-assign pattern gives the target the requested shape and sole ownership of a fresh block starting with the content; no other object changes |
| MatrixOps.SourcePixels | liteCV/core/matrix.hpp:15-24 | a source object's type fields are `uint16_t` values, and its pixels fit in its bytes |
| MatrixOps.CopyTo | liteCV/core/matrix.hpp:187-192 | fails exactly when `malloc` returns NULL; otherwise keeps the invariant and the set of objects |
| MatrixOps.CopyToValid | liteCV/core/matrix.hpp:187-192 | the target gets the source's shape and a fresh block of its own whose pixels are the source's; no other object changes, not even one that shared the target's old block |
| MatrixOps.CopyToPixels | liteCV/core/matrix.hpp:187-192 | after `copyTo`, `at(y, x)` of the target reads what it read of the source, at every position, also when the target is the source |
| MatrixOps.Clone | liteCV/core/matrix.hpp:194-199 | fails exactly when `malloc` returns NULL; otherwise keeps the invariant and adds exactly the clone |
| MatrixOps.CloneValid | liteCV/core/matrix.hpp:194-199 | the clone has the source's shape and pixels in a block no object held before; no existing object changes |
| MatrixOps.CloneIndependent | liteCV/core/matrix.hpp:194-199 | `setTo` on a clone leaves the source's bytes unchanged |
| MatrixOps.CopyAliases | liteCV/core/matrix.hpp:97-101 | `setTo` on a copy made by the copy constructor is seen through the source |
| Saturate.Clip | liteCV/core/saturate.hpp:12-16 | the result lies in the return type and is `min(v, M)` whenever nothing wraps |
| Saturate.Clip3 | liteCV/core/saturate.hpp:18-22 | the result lies in the return type and is `max(min(v, M), m)` whenever nothing wraps |
| Saturate.GenericCast | liteCV/core/saturate.hpp:24-58 | every pair without a specialisation widens, so the value is kept |
| Saturate.ToUChar | liteCV/core/saturate.hpp:72-100 | every `uchar` specialisation yields the clamped value |
| Saturate.ToSChar | liteCV/core/saturate.hpp:114-142 | every `schar` specialisation yields the clamped value |
| Saturate.ToUShort | liteCV/core/saturate.hpp:156-178 | every `ushort` specialisation yields the clamped value |
| Saturate.ToShort | liteCV/core/saturate.hpp:192-208 | every `short` specialisation yields the clamped value |
| Saturate.ToUInt | liteCV/core/saturate.hpp:222-238 | every `uint` specialisation yields the clamped value |
| Saturate.ToInt | liteCV/core/saturate.hpp:252-256 | every `int` specialisation yields the clamped value |
| Saturate.SaturateCast | liteCV/core/saturate.hpp:24-256 | the result lies in the target type, equals the clamp of the input, and is the input itself when it fits |
| Saturate.SaturateCastIdempotent | liteCV/core/saturate.hpp:24-256 | saturating twice is saturating once |
| Saturate.SaturateCastMonotone | liteCV/core/saturate.hpp:24-256 | saturation never reverses the order of two values |
| LcvMath.TruncRem | liteCV/core/lcvmath.hpp:12 | C++ `%`: `a == b * (a / b) + a % b`, the remainder is smaller than `b` in magnitude and has the sign of `a` |
| LcvMath.Modulo | liteCV/core/lcvmath.hpp:9-13 | for a positive divisor the result is the mathematical remainder in `[0, b)`; for a negative divisor it lies in `(b, 0]` |
| LcvMath.ModuloInRange | liteCV/core/lcvmath.hpp:9-13 | an index already in `[0, b)` is returned unchanged |
| LcvMath.ModuloMinusOne | liteCV/core/lcvmath.hpp:9-13 | -1 wraps to `b - 1` |
| LcvMath.ModuloPeriodic | liteCV/core/lcvmath.hpp:9-13 | shifting the dividend by a multiple of `b` does not change the result |
| Border.ConstantIndex | liteCV/imgproc/border.hpp:34-37 | the index is handed back unchanged |
| Border.ReplicateIndex | liteCV/imgproc/border.hpp:48-51 | for a positive bound the result is a valid index; indices inside are kept, indices below 0 go to 0, indices past the end go to the last index |
| Border.ReflectIndex | liteCV/imgproc/border.hpp:62-69 | for a positive bound the result is a valid index; inside indices are kept; an index up to one period below 0 maps to `-p - 1`, and one up to one period past the end to `2 * max - p - 1`, so the edge pixel repeats |
| Border.Reflect101Index | liteCV/imgproc/border.hpp:80-87 | for a positive bound the result is a valid index; inside indices are kept; an index less than one period below 0 maps to `-p`, and one less than one period past the end to `2 * max - p - 2`, so the edge pixel does not repeat |
| Border.Calculate | liteCV/imgproc/border.hpp:19-24 | the constant policy returns the index; every other policy returns a valid index for a positive bound; inside indices are always kept |
| Border.GetPolicy | liteCV/imgproc/border.hpp:96-119 | a policy is returned exactly for the codes 0 to 3, and it is the policy with that code |
| Border.GetPolicyOfCode | liteCV/imgproc/border.hpp:96-119 | every policy is found through its own code, and `BORDER_DEFAULT` selects reflect-101 |
| Border.ReflectEdges | liteCV/imgproc/border.hpp:62-87 | reflect repeats the edge pixel; reflect-101 skips it |
| Border.ReflectSymmetric | liteCV/imgproc/border.hpp:62-69 | reflect is symmetric about both edges within one period |
| Border.Reflect101Symmetric | liteCV/imgproc/border.hpp:80-87 | reflect-101 is symmetric about both edge pixels within one period |
| Border.IntermediatesFitInt32 | liteCV/imgproc/border.hpp:62-87 | for `int` inputs with `p > INT_MIN` and a positive bound, no intermediate value overflows `int` |
| Color.Gray | liteCV/imgproc/color.hpp:86 | the gray value is the mean of the three channels rounded down, and lies between the smallest and the largest channel |
| Color.ConvertPixel | liteCV/imgproc/color.hpp:28-209 | each routine maps a pixel of the source's channel count to one of the output's channel count |
| Color.ConvertPixelsAt | liteCV/imgproc/color.hpp:33-45 | pixel `i` of the converted buffer is pixel `i` of the source, converted |
| Color.ConvertBuffer | liteCV/imgproc/color.hpp:33-45 | the nested loops over rows and columns produce exactly the converted pixels, in row-major order |
| Color.ConvertRow | liteCV/imgproc/color.hpp:39-44 | the inner loop appends the converted pixels of one row |
| Color.ConvertColor | liteCV/imgproc/color.hpp:28-209 | fails its assertion exactly when the source has the wrong type, and fails with `bad_exception` exactly when the type is right and `malloc` returns NULL; it succeeds exactly when the type is right and `malloc` returns a block, and then keeps the invariant and the set of objects |
| Color.RunConvertColor | liteCV/imgproc/color.hpp:28-209 | running the routine's loops gives the outcome `ConvertColor` describes |
| Color.ConvertColorTarget | liteCV/imgproc/color.hpp:31-47 | the target gets the source's `cols` and `rows`, the output type, and sole ownership of a fresh block starting with the converted pixels |
| Color.ConvertColorFrame | liteCV/imgproc/color.hpp:31-47 | a conversion changes no object other than the target, not even one that shared the target's old block |
| Color.ConvertColorPixels | liteCV/imgproc/color.hpp:28-209 | afterwards `at(y, x)` of the target is the conversion of what `at(y, x)` of the source read before, at every position, also in place |
| Color.SwapRedBlueInvolution | liteCV/imgproc/color.hpp:28-48 | BGR2RGB applied twice gives back the source pixels |
| Color.SwapRedBlueAlphaInvolution | liteCV/imgproc/color.hpp:97-118 | BGRA2RGBA applied twice gives back the source pixels |
| Color.AlphaRoundTrip | liteCV/imgproc/color.hpp:50-140 | BGRA2BGR undoes BGR2BGRA |
| Color.GrayRoundTrip | liteCV/imgproc/color.hpp:73-186 | BGR2GRAY undoes GRAY2BGR |
| Color.GrayAlphaRoundTrip | liteCV/imgproc/color.hpp:142-209 | BGRA2GRAY undoes GRAY2BGRA |
| Color.GrayIgnoresAlpha | liteCV/imgproc/color.hpp:142-160 | BGRA2GRAY is BGR2GRAY after dropping alpha |
| Color.RoundTrip | liteCV/imgproc/color.hpp:28-209 | if one routine undoes another on every pixel, it undoes it on every buffer |
| Color.ConvertPixelsReadsPrefix | liteCV/imgproc/color.hpp:33-45 | a conversion of `n` pixels reads only the first `n` source pixels |
| Color.RoutineFor | liteCV/imgproc/color.hpp:211-252 | the `switch` calls a routine exactly for the ten listed codes |
| Color.CvtColor | liteCV/imgproc/color.hpp:211-252 | an unlisted code does nothing; for a listed code it fails its assertion exactly when the source type is wrong for that code's routine, fails with `bad_exception` exactly when the type is right and `malloc` returns NULL, and succeeds otherwise; every success keeps the invariant and the set of objects |
| Color.CvtColorRuns | liteCV/imgproc/color.hpp:211-252 | for a listed code with a source of the right type and a non-NULL block, `cvtColor` succeeds and every `dst` pixel is that code's routine applied to the source pixel at the same position |
| Color.RoutineLayouts | liteCV/imgproc/color.hpp:211-252 | both spellings of a swap share a routine, and every routine reads the layout its code starts with and writes the one it ends with |
| Color.SwapTwiceInPlace | liteCV/imgproc/color.hpp:211-252 | in-place `COLOR_BGR2RGB` followed by `COLOR_RGB2BGR` gives back the object's shape and pixels |
| Geometry.ZeroElement | liteCV/core/element.hpp:16-19 | the default element holds `N` zeros |
| Geometry.MakeElement | liteCV/core/element.hpp:21-64 | a constructor succeeds exactly when called with `N` values, and stores them in order; otherwise its assertion fails |
| Geometry.ElementRebuilt | liteCV/core/element.hpp:21-75 | passing an element's own values to its constructor rebuilds it |
| Geometry.ElementOfPoint | liteCV/core/point.hpp:29-33 | the conversion to `Element_<AnotherType, 2>` yields a two-value element of the target type |
| Geometry.CastPoint | liteCV/core/point.hpp:23-27 | the cast point lies in the target type |
| Geometry.PointElementRoundTrip | liteCV/core/point.hpp:20-33 | point to element and back is the identity, in both directions |
| Geometry.Point3ElementRoundTrip | liteCV/core/point.hpp:55-68 | 3-D point to element and back is the identity, in both directions |
| Geometry.CastRoundTrip | liteCV/core/point.hpp:23-62 | a cast to a type that holds the coordinates loses nothing |
| Geometry.LiftKeepsCoordinates | liteCV/core/point.hpp:51-54 | a lifted point keeps x and y and gets `z == 0` |
| Geometry.SizeArea | liteCV/core/size.hpp:22-25 | the area is an `int` |
| Geometry.SizePointRoundTrip | liteCV/core/point.hpp:19 | `Point_(Size_(p)) == p` and `Size_(Point_(s)) == s` |
| Geometry.EmptyIffNoArea | liteCV/core/size.hpp:22-30 | an empty size has area 0, and conversely when the product fits `int` |
| Geometry.AreaWrapsToZero | liteCV/core/size.hpp:22-30 | a 65536 by 65536 size is not empty, yet its area wraps to 0 |
| Geometry.RectOfPoints | liteCV/core/rect.hpp:23-24 | the two-point rectangle has `int` fields |
| Geometry.RectArea | liteCV/core/rect.hpp:27-30 | a rectangle's area is the area of its size |
| Geometry.Br | liteCV/core/rect.hpp:43-46 | the bottom-right corner is an `int` point |
| Geometry.CastRect | liteCV/core/rect.hpp:54-58 | the cast rectangle lies in the target type |
| Geometry.DefaultsAreZero | liteCV/core/point.hpp:16-51 | every default point, size and rectangle is zero; the default rectangle has the default point and size |
| Geometry.DefaultsAreEmpty | liteCV/core/size.hpp:16-30 | the default size and rectangle are empty and have area 0 |
| Geometry.CornersRoundTrip | liteCV/core/rect.hpp:23-46 | `Rect_(p1, p2).tl() == p1` and `.br() == p2`, even when `p2 - p1` wraps |
| Geometry.RectFromCorners | liteCV/core/rect.hpp:23-46 | a rectangle is rebuilt from its two corners |
| Geometry.OriginSizeRoundTrip | liteCV/core/rect.hpp:21-51 | `Rect_(r.tl(), r.size()) == r`, and the origin-and-size constructor gives both back |
| Geometry.CastRectRoundTrip | liteCV/core/rect.hpp:54-58 | a cast to a type that holds every field loses nothing |

## Left out

- MatrixModel.Create: the `malloc` size `cols * rows * nchans * depth` is
  computed in `int` in the source and can overflow. The model asks for the
  unbounded product, so it promises pixels that fit their block. The code
  as written can under-allocate; see `MallocRequestAsWritten` and
  `MallocRequestUnderAllocates` and the finding below. The same holds for
  MatrixOps.CreateFrom, MatrixOps.ConstructFrom, MatrixOps.CopyTo and
  Color.ConvertColor, which build on `Create`. The other `int` products of
  `Matrix` are not wrapped either: the `memset` count
  `cols * rows * (depth / 8) * nchans` of `zeros` (`MatrixOps.ZeroCount`),
  the offset `y * cols` of `ptr(y)` (`MatrixOps.RowOffset`), the `setTo`
  loop bound `cols * rows` and `depth * nchans` in `elemSize()`.
- MatrixOps.At: models `at<Element>(y, x)` only for an `Element` exactly
  one pixel wide. The source reads `sizeof(Element)` bytes at element
  `y * cols + x` for any `Element` and never checks the width against
  `elemSize()`; a narrower or wider `Element` reads a different part of
  the buffer, or past its end.
- MatrixOps.CreateFrom: built on the corrected `Create` for any live
  object. The code as written is `MatrixOps.CreateFromAsWritten`. The two
  differ only when the object already holds a counter, which no caller in
  the library does (`MatrixOps.ConstructFromAsWritten`).
- MatrixOps.CreateFrom: requires a channel string that matches the
  pattern. The source would otherwise pass uninitialised locals to
  `create`, which is undefined behaviour and has no value to model.
- MatrixFactory.ParseChannels: `assert` is modelled as the debug build,
  where it aborts (`Fail(AssertionFailed)`). Under `NDEBUG` the assertions
  vanish and the invalid values flow on; that build is not modelled. The
  same holds for MatrixOps.SetTo, Color.ConvertColor and
  Geometry.MakeElement.
- MatrixFactory.ParseChannels: `std::stoi` also accepts leading
  whitespace and a sign. A string matching the pattern has neither, so
  only its digits are read.
- MatrixOps.SetTo: requires a non-empty value, since a C++ object always
  has a non-zero size. `sizeof(value)` is modelled as the length of the
  value's bytes.
- MatrixOps.SetTo: the loop bound `cols * rows` is computed in `int`; the
  model does not wrap it.
- MatrixModel.CopyAssign: requires distinct objects. Self copy assignment
  decrements before it increments, which can free the block the object
  keeps pointing at. Self move assignment is modelled.
- MatrixModel.ElemSize: `depth * nchans` is computed in `int`. It fits for
  every depth `parse_channels` admits (0 or a power of two up to 32768
  after the `uint16_t` truncation), so the product is not wrapped.
- Color.ConvertColor: the source asserts `src.type() == LCV_8UC<k>`, but
  neither `type()` nor `LCV_8UC<k>` is defined in the files modelled. The
  assertion is read as "k channels of depth 8" (`Color.SourceTypeOk`).
- Color.ConvertColor: the loops run under `omp parallel for` when OpenMP
  is on. Each pixel is written once, independently of the others, so the
  model runs them in order.
- Color.ConvertBuffer: reading a source whose pixels fit its bytes is
  required; the invariant guarantees it for every live object.
- LcvMath.Modulo: modelled over unbounded integers with C++'s truncating
  `%`. The overflow of `b + a % b` for divisors near the `int` limits, and
  unsigned instantiations of `T`, are not modelled.
- Border.IntermediatesFitInt32: requires `p > INT_MIN`, because `-p`
  overflows for `p == INT_MIN`. The index functions are modelled over
  unbounded integers.
- Geometry.SizeArea: the `int` instantiation only. `area()`, `br()` and
  the two-point constructor wrap modulo 2^32, which C++ leaves undefined
  for signed overflow. The `float` and `double` instantiations are not
  modelled.
- Geometry.Index: `operator[]` has no bounds check in the source; the model
  requires an index inside the element.
- `at(y)` (matrix.hpp:262-266) has no `return` statement, so calling it is
  undefined behaviour; it is not modelled.
- `cptr`, `cptr(y)` and `ptr<Element>()` only return the data pointer;
  they are covered by `Bytes`, `MatrixOps.RowOffset` and
  `MatrixOps.ElementIndex`.
- `std::atomic` reference counts: concurrent use is not modelled.
- The floating-point `saturate_cast` overloads, `lcvRound`, `lcvFloor` and
  `lcvCeil` (floating point).
- `Point_`, `Point3_`, `Size_` and `Rect_` copy constructors and
  `operator=` copy every field; values are immutable in the model.

## Findings

| source | as written | input that shows it | evidently intended | confidence | as-written member | corrected member |
|---|---|---|---|---|---|---|
| liteCV/core/matrix.hpp:156-162 | `create` calls `decref()` but keeps the `refcount` pointer, then `incref()` increments that old counter | re-creating the sole owner of a block (the counter was just deleted); re-creating one of two sharers (the new block is tied to the old counter, and the old block leaks) | release the old allocation and give the object a fresh counter, as `init()` would | high, not executed | MatrixModel.CreateAsWritten | MatrixModel.CreateValid |
| liteCV/core/matrix.hpp:152 | `malloc(cols * rows * nchans * depth)` is evaluated in `int` | `cols = 536870913`, `rows = 1`, "8uc1": the request wraps to 8 bytes, while `setTo` writes 536870913 bytes | compute the size in `size_t` and reject overflow | medium, not executed | MatrixModel.MallocRequestUnderAllocates | MatrixModel.CreateValid |
