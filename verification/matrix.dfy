/** `lcv::Matrix` of `matrix.hpp` as an abstract heap. A `Matrix` value holds
    the attributes of one C++ object; its `data` and `refcount` pointers are
    ids into the heap of a `World`, which also records every live object. */
module MatrixModel {
  import opened Primitive
  import opened Outcome

  /** The name of a live `Matrix` object (a variable, a member, a temporary). */
  type Var = nat

  /** The attributes of one `Matrix` object: `cols`, `rows`, `type.nchans`,
      `type.depth`, and the `data` and `refcount` pointers (null is `None`). */
  datatype Matrix = Matrix(cols: int, rows: int, nchans: int, depth: int, data: Option<nat>, counter: Option<nat>)

  /** The state `init()` leaves an object in: all zero, both pointers null. */
  const Init: Matrix := Matrix(0, 0, 0, 0, None, None)

  /** The live objects and the heap: reference counters and byte blocks, each
      keyed by the id of its allocation; `next` is an id not yet used. */
  datatype World = World(vars: map<Var, Matrix>, counts: map<nat, nat>, blocks: map<nat, seq<byte>>, next: nat)

  /** `empty()`: the data pointer is null. */
  predicate IsEmpty(m: Matrix) {
    m.data.None?
  }

  /** `elemSize()`: bytes per pixel, `depth * nchans / 8`. */
  function ElemSize(m: Matrix): int {
    m.depth * m.nchans / 8
  }

  /** `elemSize1()`: bytes per channel, `depth / 8`. */
  function ElemSize1(m: Matrix): int {
    m.depth / 8
  }

  /** The bytes the pixels occupy: `cols * rows * elemSize()`. */
  function Footprint(m: Matrix): int {
    m.cols * m.rows * ElemSize(m)
  }

  /** The objects whose `refcount` pointer is counter `c`. */
  function Refs(vars: map<Var, Matrix>, c: nat): set<Var> {
    set v | v in vars && vars[v].counter == Some(c)
  }

  /** The pointers of one object agree with the heap: a data block and its
      counter share an id, a live counter exists, a null data pointer goes with
      an all-zero `init()` state, the pixels fit in the block, and the type
      fields hold `uint16_t` values. */
  predicate PointerOk(w: World, m: Matrix) {
    && (m.counter.Some? ==> m.counter.value in w.counts)
    && (m.data.Some? ==> m.counter == m.data)
    && (m.counter.Some? ==> (m.data.Some? <==> m.counter.value in w.blocks))
    && (m.data.None? ==> m.cols == 0 && m.rows == 0 && m.nchans == 0 && m.depth == 0)
    && (m.data.Some? ==> 0 <= Footprint(m) <= |w.blocks[m.data.value]|)
    && InRange(UShort, m.nchans) && InRange(UShort, m.depth)
  }

  /** Objects that share a counter were copied from one another and have the
      same shape. */
  predicate SameShape(a: Matrix, b: Matrix) {
    a.cols == b.cols && a.rows == b.rows && a.nchans == b.nchans && a.depth == b.depth
  }

  predicate PointersOk(w: World) {
    forall v :: v in w.vars ==> PointerOk(w, w.vars[v])
  }

  predicate CountsOk(w: World) {
    forall c :: c in w.counts ==> w.counts[c] == |Refs(w.vars, c)| && w.counts[c] >= 1 && c < w.next
  }

  /** Every block has a counter. */
  predicate BlocksCounted(w: World) {
    w.blocks.Keys <= w.counts.Keys
  }

  predicate ShapesOk(w: World) {
    forall a, b :: a in w.vars && b in w.vars && w.vars[a].counter.Some? && w.vars[a].counter == w.vars[b].counter
      ==> SameShape(w.vars[a], w.vars[b])
  }

  /** The heap invariant. Every counter holds exactly the number of live
      objects that point at it, which is at least one (a counter is deleted,
      and its block freed, when the last reference goes); every block has a
      counter; every id is below `next`. */
  predicate Valid(w: World) {
    && PointersOk(w)
    && CountsOk(w)
    && BlocksCounted(w)
    && ShapesOk(w)
  }

  /** The bytes an object's data pointer designates (none when it is null). */
  function Bytes(w: World, m: Matrix): seq<byte> {
    if m.data.Some? && m.data.value in w.blocks then w.blocks[m.data.value] else []
  }

  /** The empty world: no objects, nothing allocated. */
  const Start: World := World(map[], map[], map[], 0)

  lemma StartValid()
    ensures Valid(Start)
  {
  }

  // ---------------------------------------------------------------------
  // Sets of references

  lemma RefsUpdate(vars: map<Var, Matrix>, v: Var, m: Matrix, c: nat)
    ensures Refs(vars[v := m], c) == (Refs(vars, c) - {v}) + (if m.counter == Some(c) then {v} else {})
  {
  }

  lemma RefsRemove(vars: map<Var, Matrix>, v: Var, c: nat)
    ensures Refs(vars - {v}, c) == Refs(vars, c) - {v}
  {
  }

  lemma SingletonSet(s: set<Var>, v: Var)
    requires v in s && |s| == 1
    ensures s == {v}
  {
    assert |s - {v}| == 0;
  }

  lemma ReplaceOne(s: set<Var>, out: Var, inn: Var)
    requires out in s && inn !in s
    ensures |(s + {inn}) - {out}| == |s|
  {
    assert (s + {inn}) - {out} == (s - {out}) + {inn};
  }

  lemma MapOverwrite<K, V>(m: map<K, V>, k: K, a: V, b: V)
    ensures m[k := a][k := b] == m[k := b]
  {
  }

  /** No object points at the id `next`, and nothing is allocated there. */
  lemma FreshCounter(w: World)
    requires PointersOk(w) && CountsOk(w) && BlocksCounted(w)
    ensures forall u :: u in w.vars ==> w.vars[u].counter != Some(w.next) && w.vars[u].data != Some(w.next)
    ensures w.next !in w.counts && w.next !in w.blocks
    ensures Refs(w.vars, w.next) == {}
  {
    forall u | u in w.vars
      ensures w.vars[u].counter != Some(w.next) && w.vars[u].data != Some(w.next)
    {
      assert PointerOk(w, w.vars[u]);
    }
  }

  // ---------------------------------------------------------------------
  // Reference counting

  /** The counter of `m`, if any, is still allocated and positive. */
  predicate CanDecref(w: World, m: Matrix) {
    m.counter.Some? ==> m.counter.value in w.counts && w.counts[m.counter.value] >= 1
  }

  lemma ValidCanDecref(w: World, v: Var)
    requires PointersOk(w) && CountsOk(w) && v in w.vars
    ensures CanDecref(w, w.vars[v])
  {
    assert PointerOk(w, w.vars[v]);
  }

  /** `decref()` on object `m`: decrement its counter and, when it reaches 0,
      free its data block and delete the counter. A null counter is left
      alone. */
  function Decref(w: World, m: Matrix): (r: World)
    requires CanDecref(w, m)
    ensures r.vars == w.vars && r.next == w.next
    ensures m.counter.None? ==> r == w
    ensures m.counter.Some? && w.counts[m.counter.value] >= 2 ==>
      r.counts == w.counts[m.counter.value := w.counts[m.counter.value] - 1] && r.blocks == w.blocks
    ensures m.counter.Some? && w.counts[m.counter.value] == 1 ==>
      r.counts == w.counts - {m.counter.value}
      && r.blocks == (if m.data.Some? then w.blocks - {m.data.value} else w.blocks)
  {
    match m.counter
    case None => w
    case Some(c) =>
      if w.counts[c] - 1 == 0 then
        w.(counts := w.counts - {c}, blocks := if m.data.Some? then w.blocks - {m.data.value} else w.blocks)
      else
        w.(counts := w.counts[c := w.counts[c] - 1])
  }

  /** The end of object `v`'s lifetime (`~Matrix()`): `decref()` and forget the
      object. */
  function Release(w: World, v: Var): (r: World)
    requires v in w.vars
    requires CanDecref(w, w.vars[v])
    ensures r.vars == w.vars - {v} && r.next == w.next
  {
    Decref(w, w.vars[v]).(vars := w.vars - {v})
  }

  /** Releasing an object keeps the invariant, frees its block exactly when it
      was the last reference, and changes no other object's bytes. */
  lemma ReleaseValid(w: World, v: Var)
    requires Valid(w) && v in w.vars
    ensures CanDecref(w, w.vars[v])
    ensures Valid(Release(w, v))
    ensures var m := w.vars[v];
      m.counter.Some? ==> (m.counter.value !in Release(w, v).counts <==> Refs(w.vars, m.counter.value) == {v})
    ensures forall u :: u in w.vars && u != v ==> Bytes(Release(w, v), w.vars[u]) == Bytes(w, w.vars[u])
  {
    ValidCanDecref(w, v);
    assert PointerOk(w, w.vars[v]);
    ReleaseCounts(w, v);
    ReleaseFreesLast(w, v);
    ReleasePointers(w, v);
    ReleaseBlocks(w, v);
    ReleaseShapes(w, v);
    ReleaseFrame(w, v);
  }

  lemma ReleaseCounts(w: World, v: Var)
    requires CountsOk(w) && v in w.vars && CanDecref(w, w.vars[v])
    ensures CountsOk(Release(w, v))
  {
    var r := Release(w, v);
    forall c | c in r.counts
      ensures r.counts[c] == |Refs(r.vars, c)| && r.counts[c] >= 1 && c < r.next
    {
      RefsRemove(w.vars, v, c);
      assert c in w.counts;
      if w.vars[v].counter == Some(c) {
        assert v in Refs(w.vars, c);
      }
    }
  }

  lemma ReleaseFreesLast(w: World, v: Var)
    requires CountsOk(w) && v in w.vars && CanDecref(w, w.vars[v])
    ensures var m := w.vars[v];
      m.counter.Some? ==> (m.counter.value !in Release(w, v).counts <==> Refs(w.vars, m.counter.value) == {v})
  {
    var m := w.vars[v];
    if m.counter.Some? {
      var c0 := m.counter.value;
      assert v in Refs(w.vars, c0);
      if w.counts[c0] == 1 {
        SingletonSet(Refs(w.vars, c0), v);
      } else {
        assert |Refs(w.vars, c0)| != |{v}|;
      }
    }
  }

  /** When `v` was the last reference to counter `c`, no other object points at it. */
  lemma LastReference(w: World, v: Var, c: nat, u: Var)
    requires CountsOk(w) && v in w.vars && u in w.vars && u != v
    requires w.vars[v].counter == Some(c) && c in w.counts && w.counts[c] == 1
    ensures w.vars[u].counter != Some(c)
  {
    assert v in Refs(w.vars, c);
    SingletonSet(Refs(w.vars, c), v);
    assert u !in Refs(w.vars, c);
  }

  lemma ReleasePointers(w: World, v: Var)
    requires PointersOk(w) && CountsOk(w) && v in w.vars
    ensures CanDecref(w, w.vars[v]) && PointersOk(Release(w, v))
  {
    ValidCanDecref(w, v);
    var m := w.vars[v];
    var r := Release(w, v);
    forall u | u in r.vars
      ensures PointerOk(r, r.vars[u])
    {
      var mu := w.vars[u];
      assert PointerOk(w, mu);
      if m.counter.Some? && w.counts[m.counter.value] == 1 {
        LastReference(w, v, m.counter.value, u);
        assert m.data.Some? ==> mu.data != m.data;
      }
    }
  }

  lemma ReleaseBlocks(w: World, v: Var)
    requires BlocksCounted(w) && v in w.vars && CanDecref(w, w.vars[v]) && PointerOk(w, w.vars[v])
    ensures BlocksCounted(Release(w, v))
  {
  }

  lemma ReleaseShapes(w: World, v: Var)
    requires ShapesOk(w) && v in w.vars && CanDecref(w, w.vars[v])
    ensures ShapesOk(Release(w, v))
  {
  }

  /** Releasing an object changes no other object's bytes. */
  lemma ReleaseFrame(w: World, v: Var)
    requires PointersOk(w) && CountsOk(w) && v in w.vars
    ensures CanDecref(w, w.vars[v])
    ensures forall u :: u in w.vars && u != v ==> Bytes(Release(w, v), w.vars[u]) == Bytes(w, w.vars[u])
  {
    ValidCanDecref(w, v);
    var m := w.vars[v];
    forall u | u in w.vars && u != v
      ensures Bytes(Release(w, v), w.vars[u]) == Bytes(w, w.vars[u])
    {
      var mu := w.vars[u];
      assert PointerOk(w, mu);
      if m.counter.Some? && w.counts[m.counter.value] == 1 {
        LastReference(w, v, m.counter.value, u);
      }
    }
  }

  // ---------------------------------------------------------------------
  // Construction, copy and move

  /** `Matrix()`: a new object in the `init()` state. */
  function Construct(w: World, v: Var): (r: World)
    requires v !in w.vars
    ensures v in r.vars && IsEmpty(r.vars[v])
    ensures r.vars.Keys == w.vars.Keys + {v} && forall u :: u in w.vars ==> r.vars[u] == w.vars[u]
    ensures r.counts == w.counts && r.blocks == w.blocks && r.next == w.next
  {
    w.(vars := w.vars[v := Init])
  }

  lemma ConstructValid(w: World, v: Var)
    requires Valid(w) && v !in w.vars
    ensures Valid(Construct(w, v))
  {
    ConstructCounts(w, v);
    ConstructPointers(w, v);
  }

  lemma ConstructCounts(w: World, v: Var)
    requires CountsOk(w) && v !in w.vars
    ensures CountsOk(Construct(w, v))
  {
    var r := Construct(w, v);
    forall c | c in r.counts
      ensures r.counts[c] == |Refs(r.vars, c)|
    {
      RefsUpdate(w.vars, v, Init, c);
    }
  }

  lemma ConstructPointers(w: World, v: Var)
    requires PointersOk(w) && v !in w.vars
    ensures PointersOk(Construct(w, v))
  {
    var r := Construct(w, v);
    forall u | u in r.vars
      ensures PointerOk(r, r.vars[u])
    {
      if u != v {
        assert PointerOk(w, w.vars[u]);
      }
    }
  }

  /** `incref()` is defined on `m`: its counter, if any, is allocated. */
  predicate CanIncref(w: World, m: Matrix) {
    m.counter.Some? ==> m.counter.value in w.counts
  }

  /** `swallow_copy(other, false)`, the copy constructor: the new object `v`
      takes every attribute of `src`, including both pointers, and then
      `incref()` adds one to the shared counter, or gives the copy a counter
      of its own when `src` has none. */
  function Copy(w: World, v: Var, src: Var): (r: World)
    requires v !in w.vars && src in w.vars
    requires CanIncref(w, w.vars[src])
    ensures r.vars.Keys == w.vars.Keys + {v}
    ensures SameShape(r.vars[v], w.vars[src]) && r.vars[v].data == w.vars[src].data
    ensures w.vars[src].counter.Some? ==> r.vars[v].counter == w.vars[src].counter
    ensures forall u :: u in w.vars ==> r.vars[u] == w.vars[u]
    ensures r.blocks == w.blocks
  {
    var m := w.vars[src];
    match m.counter
    case None =>
      w.(vars := w.vars[v := m.(counter := Some(w.next))], counts := w.counts[w.next := 1], next := w.next + 1)
    case Some(c) =>
      w.(vars := w.vars[v := m], counts := w.counts[c := w.counts[c] + 1])
  }

  /** Copying keeps the invariant, and the copy and its source point at the
      same bytes: a later write through one is seen through the other. */
  lemma CopyValid(w: World, v: Var, src: Var)
    requires Valid(w) && v !in w.vars && src in w.vars
    ensures CanIncref(w, w.vars[src])
    ensures Valid(Copy(w, v, src))
    ensures var r := Copy(w, v, src); Bytes(r, r.vars[v]) == Bytes(r, r.vars[src]) == Bytes(w, w.vars[src])
  {
    assert PointerOk(w, w.vars[src]);
    FreshCounter(w);
    CopyCounts(w, v, src);
    CopyPointers(w, v, src);
    CopyShapes(w, v, src);
  }

  lemma CopyCounts(w: World, v: Var, src: Var)
    requires CountsOk(w) && v !in w.vars && src in w.vars && CanIncref(w, w.vars[src])
    requires Refs(w.vars, w.next) == {} && w.next !in w.counts
    ensures CountsOk(Copy(w, v, src))
  {
    var r := Copy(w, v, src);
    var mv := r.vars[v];
    assert r.vars == w.vars[v := mv];
    forall c | c in r.counts
      ensures r.counts[c] == |Refs(r.vars, c)| && r.counts[c] >= 1 && c < r.next
    {
      RefsUpdate(w.vars, v, mv, c);
      if mv.counter == Some(c) {
        CopyCountsShared(w, v, src, c);
      } else {
        assert c in w.counts;
      }
    }
  }

  lemma CopyCountsShared(w: World, v: Var, src: Var, c: nat)
    requires CountsOk(w) && v !in w.vars && src in w.vars && CanIncref(w, w.vars[src])
    requires Refs(w.vars, w.next) == {} && w.next !in w.counts
    requires Copy(w, v, src).vars[v].counter == Some(c)
    ensures c in Copy(w, v, src).counts
    ensures Copy(w, v, src).counts[c] == |Refs(w.vars, c) + {v}| && c < Copy(w, v, src).next
  {
    var m := w.vars[src];
    if m.counter.None? {
      assert c == w.next;
    } else {
      assert src in Refs(w.vars, c);
      assert v !in Refs(w.vars, c);
    }
  }

  lemma CopyPointers(w: World, v: Var, src: Var)
    requires PointersOk(w) && BlocksCounted(w) && v !in w.vars && src in w.vars && CanIncref(w, w.vars[src])
    requires w.next !in w.blocks
    ensures PointersOk(Copy(w, v, src)) && BlocksCounted(Copy(w, v, src))
  {
    var r := Copy(w, v, src);
    forall u | u in r.vars
      ensures PointerOk(r, r.vars[u])
    {
      if u != v {
        assert PointerOk(w, w.vars[u]);
      } else {
        assert PointerOk(w, w.vars[src]);
      }
    }
  }

  lemma CopyShapes(w: World, v: Var, src: Var)
    requires ShapesOk(w) && v !in w.vars && src in w.vars && CanIncref(w, w.vars[src])
    requires forall u :: u in w.vars ==> w.vars[u].counter != Some(w.next)
    ensures ShapesOk(Copy(w, v, src))
  {
  }

  /** `swallow_move(other, false)`, the move constructor: `v` takes every
      attribute of `src`, counter unchanged, and `src` is reset to `init()`. */
  function Move(w: World, v: Var, src: Var): (r: World)
    requires v !in w.vars && src in w.vars
    ensures r.vars.Keys == w.vars.Keys + {v}
    ensures r.vars[v] == w.vars[src] && IsEmpty(r.vars[src])
    ensures r.counts == w.counts && r.blocks == w.blocks
  {
    w.(vars := w.vars[v := w.vars[src]][src := Init])
  }

  lemma MoveValid(w: World, v: Var, src: Var)
    requires Valid(w) && v !in w.vars && src in w.vars
    ensures Valid(Move(w, v, src))
  {
    MoveCounts(w, v, src);
    MovePointers(w, v, src);
    MoveShapes(w, v, src);
  }

  lemma MoveCounts(w: World, v: Var, src: Var)
    requires CountsOk(w) && v !in w.vars && src in w.vars
    ensures CountsOk(Move(w, v, src))
  {
    var m := w.vars[src];
    var r := Move(w, v, src);
    forall c | c in r.counts
      ensures r.counts[c] == |Refs(r.vars, c)|
    {
      MoveRefs(w.vars, v, src, c);
    }
  }

  /** A move hands `src`'s reference to `v`: every counter keeps the number
      of objects that point at it. */
  lemma MoveRefs(vars: map<Var, Matrix>, v: Var, src: Var, c: nat)
    requires v !in vars && src in vars
    ensures |Refs(vars[v := vars[src]][src := Init], c)| == |Refs(vars, c)|
  {
    var m := vars[src];
    var before := Refs(vars, c);
    RefsUpdate(vars, v, m, c);
    RefsUpdate(vars[v := m], src, Init, c);
    assert v !in before;
    if m.counter == Some(c) {
      assert src in before;
      assert Refs(vars[v := m][src := Init], c) == (before + {v}) - {src};
      ReplaceOne(before, src, v);
    } else {
      assert src !in before;
      assert Refs(vars[v := m][src := Init], c) == before;
    }
  }

  lemma MovePointers(w: World, v: Var, src: Var)
    requires PointersOk(w) && v !in w.vars && src in w.vars
    ensures PointersOk(Move(w, v, src))
  {
    var r := Move(w, v, src);
    forall u | u in r.vars
      ensures PointerOk(r, r.vars[u])
    {
      if u == v {
        assert PointerOk(w, w.vars[src]);
      } else if u != src {
        assert PointerOk(w, w.vars[u]);
      }
    }
  }

  lemma MoveShapes(w: World, v: Var, src: Var)
    requires ShapesOk(w) && v !in w.vars && src in w.vars
    ensures ShapesOk(Move(w, v, src))
  {
    var r := Move(w, v, src);
    forall a, b | a in r.vars && b in r.vars && r.vars[a].counter.Some? && r.vars[a].counter == r.vars[b].counter
      ensures SameShape(r.vars[a], r.vars[b])
    {
      var a0 := if a == v then src else a;
      var b0 := if b == v then src else b;
      assert r.vars[a] == w.vars[a0] && r.vars[b] == w.vars[b0];
    }
  }

  /** `operator=(const Matrix&)`: `swallow_copy(other, true)` releases the
      target's previous allocation first. Self-assignment would decrement (and
      possibly free) before re-incrementing, so the model requires distinct
      objects. */
  function CopyAssign(w: World, v: Var, src: Var): (r: World)
    requires v in w.vars && src in w.vars && v != src
    requires PointersOk(w) && CountsOk(w)
    ensures forall u :: u in w.vars && u != v ==> u in r.vars && r.vars[u] == w.vars[u]
    ensures CanDecref(w, w.vars[v]) && r.blocks == Release(w, v).blocks
  {
    ValidCanDecref(w, v);
    var w1 := Release(w, v);
    assert CanIncref(w1, w1.vars[src]) by {
      ReleasePointers(w, v);
      assert PointerOk(w1, w1.vars[src]);
    }
    Copy(w1, v, src)
  }

  /** Copy assignment keeps the invariant; afterwards the target aliases the
      source, and no object other than the target changes. */
  lemma CopyAssignValid(w: World, v: Var, src: Var)
    requires Valid(w) && v in w.vars && src in w.vars && v != src
    ensures var r := CopyAssign(w, v, src);
      && Valid(r)
      && r.vars.Keys == w.vars.Keys
      && SameShape(r.vars[v], w.vars[src])
      && Bytes(r, r.vars[v]) == Bytes(r, r.vars[src]) == Bytes(w, w.vars[src])
    ensures forall u :: u in w.vars && u != v ==>
      CopyAssign(w, v, src).vars[u] == w.vars[u] && Bytes(CopyAssign(w, v, src), w.vars[u]) == Bytes(w, w.vars[u])
  {
    ReleaseValid(w, v);
    var w1 := Release(w, v);
    assert w1.vars[src] == w.vars[src];
    CopyValid(w1, v, src);
    CopyAssignFrame(w, v, src);
  }

  lemma CopyAssignFrame(w: World, v: Var, src: Var)
    requires PointersOk(w) && CountsOk(w) && v in w.vars && src in w.vars && v != src
    ensures forall u :: u in w.vars && u != v ==>
      CopyAssign(w, v, src).vars[u] == w.vars[u] && Bytes(CopyAssign(w, v, src), w.vars[u]) == Bytes(w, w.vars[u])
  {
    ReleaseFrame(w, v);
  }

  /** `operator=(Matrix&&)`: `swallow_move(other, true)`: release the target,
      take the source's attributes and counter, reset the source. Moving an
      object onto itself leaves it released and in the `init()` state. */
  function MoveAssign(w: World, v: Var, src: Var): (r: World)
    requires v in w.vars && src in w.vars
    requires CanDecref(w, w.vars[v])
  {
    var w1 := Release(w, v);
    w1.(vars := w1.vars[v := w.vars[src]][src := Init])
  }

  lemma MoveAssignValid(w: World, v: Var, src: Var)
    requires Valid(w) && v in w.vars && src in w.vars
    ensures CanDecref(w, w.vars[v])
    ensures var r := MoveAssign(w, v, src);
      && Valid(r)
      && r.vars.Keys == w.vars.Keys
      && IsEmpty(r.vars[src])
      && (v != src ==> r.vars[v] == w.vars[src])
  {
    ValidCanDecref(w, v);
    if v == src {
      MoveAssignSelf(w, v);
    } else {
      MoveAssignOther(w, v, src);
    }
  }

  /** Moving an object onto itself releases it and leaves it in the `init()`
      state. */
  lemma MoveAssignSelf(w: World, v: Var)
    requires Valid(w) && v in w.vars
    ensures CanDecref(w, w.vars[v])
    ensures MoveAssign(w, v, v) == Construct(Release(w, v), v)
    ensures Valid(MoveAssign(w, v, v))
  {
    ValidCanDecref(w, v);
    var w1 := Release(w, v);
    assert MoveAssign(w, v, v) == Construct(w1, v) by {
      MapOverwrite(w1.vars, v, w.vars[v], Init);
    }
    ReleaseValid(w, v);
    ConstructValid(w1, v);
  }

  lemma MoveAssignOther(w: World, v: Var, src: Var)
    requires Valid(w) && v in w.vars && src in w.vars && v != src
    ensures CanDecref(w, w.vars[v])
    ensures MoveAssign(w, v, src) == Move(Release(w, v), v, src)
    ensures Valid(MoveAssign(w, v, src))
  {
    ReleaseValid(w, v);
    var w1 := Release(w, v);
    assert w1.vars[src] == w.vars[src];
    MoveValid(w1, v, src);
  }

  // ---------------------------------------------------------------------
  // Allocation

  /** The allocator's answer to `malloc(size)`: NULL (`None`), or a block of
      exactly `size` bytes with unspecified contents. A negative `int` size
      becomes an enormous `size_t`, which no allocator can satisfy. */
  predicate Fits(alloc: Option<seq<byte>>, size: int) {
    alloc.Some? ==> |alloc.value| == size
  }

  /** The size `create` passes to `malloc` as the source computes it: the
      product `cols * rows * nchans * depth` evaluated in `int`, every step
      wrapping modulo 2^32 as it does on the usual two's-complement targets
      (C++ leaves signed overflow undefined). The model's `Create` asks for
      the unbounded product instead. */
  function MallocRequestAsWritten(cols: int, rows: int, nchans: int, depth: int): (n: int)
    ensures InRange(Int, n)
  {
    Convert(Int, Convert(Int, Convert(Int, cols * rows) * nchans) * depth)
  }

  /** A single-channel 8-bit matrix of 2^29 + 1 columns needs 2^29 + 1 bytes,
      but the request wraps to 8 bytes, so `setTo` on it writes far past the
      block. */
  lemma MallocRequestUnderAllocates()
    ensures MallocRequestAsWritten(0x2000_0001, 1, 1, 8) == 8
    ensures Footprint(Matrix(0x2000_0001, 1, 1, 8, None, None)) == 0x2000_0001
  {
    assert 0x2000_0001 * 8 == 0x1_0000_0008;
  }

  /** A new allocation for object `v` (which must not be live): the object
      gets a block holding `bytes` and a counter holding 1, both under the
      fresh id `next`. */
  function Install(w: World, v: Var, cols: int, rows: int, nchans: int, depth: int, bytes: seq<byte>): (r: World)
    requires v !in w.vars
    ensures r.vars.Keys == w.vars.Keys + {v}
    ensures r.vars[v] == Matrix(cols, rows, nchans, depth, Some(w.next), Some(w.next))
    ensures forall u :: u in w.vars ==> r.vars[u] == w.vars[u]
  {
    World(w.vars[v := Matrix(cols, rows, nchans, depth, Some(w.next), Some(w.next))],
          w.counts[w.next := 1], w.blocks[w.next := bytes], w.next + 1)
  }

  lemma InstallValid(w: World, v: Var, cols: int, rows: int, nchans: int, depth: int, bytes: seq<byte>)
    requires Valid(w) && v !in w.vars
    requires InRange(UShort, nchans) && InRange(UShort, depth)
    requires 0 <= Footprint(Matrix(cols, rows, nchans, depth, None, None)) <= |bytes|
    ensures Valid(Install(w, v, cols, rows, nchans, depth, bytes))
    ensures forall u :: u in w.vars ==> Bytes(Install(w, v, cols, rows, nchans, depth, bytes), w.vars[u]) == Bytes(w, w.vars[u])
  {
    FreshCounter(w);
    InstallCounts(w, v, cols, rows, nchans, depth, bytes);
    InstallPointers(w, v, cols, rows, nchans, depth, bytes);
    InstallShapes(w, v, cols, rows, nchans, depth, bytes);
  }

  lemma InstallCounts(w: World, v: Var, cols: int, rows: int, nchans: int, depth: int, bytes: seq<byte>)
    requires CountsOk(w) && v !in w.vars
    requires Refs(w.vars, w.next) == {}
    ensures CountsOk(Install(w, v, cols, rows, nchans, depth, bytes))
  {
    var r := Install(w, v, cols, rows, nchans, depth, bytes);
    var m := r.vars[v];
    forall c | c in r.counts
      ensures r.counts[c] == |Refs(r.vars, c)| && r.counts[c] >= 1 && c < r.next
    {
      RefsUpdate(w.vars, v, m, c);
      if c != w.next {
        assert c in w.counts;
      }
    }
  }

  lemma InstallPointers(w: World, v: Var, cols: int, rows: int, nchans: int, depth: int, bytes: seq<byte>)
    requires PointersOk(w) && BlocksCounted(w) && v !in w.vars
    requires InRange(UShort, nchans) && InRange(UShort, depth)
    requires 0 <= Footprint(Matrix(cols, rows, nchans, depth, None, None)) <= |bytes|
    requires forall u :: u in w.vars ==> w.vars[u].counter != Some(w.next) && w.vars[u].data != Some(w.next)
    requires w.next !in w.blocks
    ensures var r := Install(w, v, cols, rows, nchans, depth, bytes);
      PointersOk(r) && BlocksCounted(r)
    ensures forall u :: u in w.vars ==> Bytes(Install(w, v, cols, rows, nchans, depth, bytes), w.vars[u]) == Bytes(w, w.vars[u])
  {
    var r := Install(w, v, cols, rows, nchans, depth, bytes);
    forall u | u in r.vars
      ensures PointerOk(r, r.vars[u])
    {
      if u != v {
        assert PointerOk(w, w.vars[u]);
      }
    }
  }

  lemma InstallShapes(w: World, v: Var, cols: int, rows: int, nchans: int, depth: int, bytes: seq<byte>)
    requires ShapesOk(w) && v !in w.vars
    requires forall u :: u in w.vars ==> w.vars[u].counter != Some(w.next)
    ensures ShapesOk(Install(w, v, cols, rows, nchans, depth, bytes))
  {
  }

  lemma MulMono(x: int, a: int, b: int)
    requires x >= 0 && a <= b
    ensures x * a <= x * b
  {
    assert x * b - x * a == x * (b - a);
  }

  lemma NonNegativeFactor(x: int, p: int)
    requires p > 0 && x * p >= 0
    ensures x >= 0
  {
    if x < 0 {
      MulMono(p, x, -1);
    }
  }

  lemma MulAssoc(a: int, b: int, c: int)
    ensures a * b * c == a * (b * c)
  {
  }

  /** Storing a non-negative value in a `uint16_t` never increases it. */
  lemma ConvertBelow(v: nat)
    ensures 0 <= Convert(UShort, v) <= v
  {
    assert v % 0x1_0000 <= v;
  }

  /** Scaling the bounds `0 <= e <= p` by a factor `cr` with `cr * p >= 0`. */
  lemma ScaleBounds(cr: int, e: int, p: int)
    requires 0 <= e <= p && cr * p >= 0
    ensures 0 <= cr * e <= cr * p
  {
    if e > 0 {
      NonNegativeFactor(cr, p);
      MulMono(cr, 0, e);
      MulMono(cr, e, p);
    }
  }

  /** With `nchans` and `depth` stored as `uint16_t`, the pixels of a created
      object never extend past the `cols * rows * nchans * depth` bytes that
      `malloc` was asked for. */
  lemma FootprintFits(cols: int, rows: int, nchans: nat, depth: nat)
    requires cols * rows * nchans * depth >= 0
    ensures var m := Matrix(cols, rows, Convert(UShort, nchans), Convert(UShort, depth), None, None);
      0 <= Footprint(m) <= cols * rows * nchans * depth
  {
    var n := Convert(UShort, nchans);
    var d := Convert(UShort, depth);
    var cr := cols * rows;
    var p := nchans * depth;
    var e := d * n / 8;
    assert 0 <= e <= p by {
      ConvertBelow(nchans);
      ConvertBelow(depth);
      MulMono(n, d, depth);
      MulMono(depth, n, nchans);
    }
    assert cols * rows * nchans * depth == cr * p by {
      MulAssoc(cr, nchans, depth);
    }
    ScaleBounds(cr, e, p);
  }

  /** `create(cols, rows, nchans, depth)` as the model corrects it: allocate
      first, and on failure throw with every object untouched; otherwise
      release the previous allocation, store the attributes (the type fields
      as `uint16_t`), and give the object a counter of its own holding 1. */
  function Create(w: World, v: Var, cols: int, rows: int, nchans: int, depth: int, alloc: Option<seq<byte>>): (r: Result<World>)
    requires v in w.vars && CanDecref(w, w.vars[v])
    requires Fits(alloc, cols * rows * nchans * depth)
    ensures alloc.None? <==> r == Fail(BadAlloc)
    ensures r.Ok? <==> alloc.Some?
    ensures r.Ok? ==> r.value.vars.Keys == w.vars.Keys
  {
    if alloc.None? then
      Fail(BadAlloc)
    else
      Ok(Install(Release(w, v), v, cols, rows, Convert(UShort, nchans), Convert(UShort, depth), alloc.value))
  }

  /** A successful `create` keeps the invariant; the object gets the requested
      shape, a fresh block of the requested size whose counter holds 1, and no
      other object changes. */
  lemma CreateValid(w: World, v: Var, cols: int, rows: int, nchans: int, depth: int, alloc: Option<seq<byte>>)
    requires Valid(w) && v in w.vars
    requires nchans >= 0 && depth >= 0
    requires Fits(alloc, cols * rows * nchans * depth)
    requires alloc.Some?
    ensures CanDecref(w, w.vars[v])
    ensures var r := Create(w, v, cols, rows, nchans, depth, alloc).value;
      var m := r.vars[v];
      && Valid(r)
      && m.cols == cols && m.rows == rows
      && m.nchans == Convert(UShort, nchans) && m.depth == Convert(UShort, depth)
      && !IsEmpty(m) && m.counter == m.data && m.data.value !in w.blocks && Bytes(r, m) == alloc.value
      && r.counts[m.counter.value] == 1
    ensures var r := Create(w, v, cols, rows, nchans, depth, alloc).value;
      forall u :: u in w.vars && u != v ==> r.vars[u] == w.vars[u] && Bytes(r, r.vars[u]) == Bytes(w, w.vars[u])
  {
    ReleaseValid(w, v);
    var w1 := Release(w, v);
    FootprintFits(cols, rows, nchans, depth);
    InstallValid(w1, v, cols, rows, Convert(UShort, nchans), Convert(UShort, depth), alloc.value);
    FreshCounter(w1);
    FreshCounter(w);
    var r := Create(w, v, cols, rows, nchans, depth, alloc).value;
    forall u | u in w.vars && u != v
      ensures r.vars[u] == w.vars[u] && Bytes(r, r.vars[u]) == Bytes(w, w.vars[u])
    {
      assert u in w1.vars;
    }
  }

  /** `create(cols, rows, nchans, depth)` exactly as `matrix.hpp` writes it:
      `decref()` leaves the `refcount` pointer in place, so the following
      `incref()` increments the OLD counter. If the object was the sole owner
      that counter has just been deleted (a use after free); if it was shared,
      the new block is tied to the old shared counter. */
  function CreateAsWritten(w: World, v: Var, cols: int, rows: int, nchans: int, depth: int, alloc: Option<seq<byte>>): (r: Result<World>)
    requires v in w.vars && CanDecref(w, w.vars[v])
    requires Fits(alloc, cols * rows * nchans * depth)
    ensures alloc.None? ==> r == Fail(BadAlloc)
    ensures r == Fail(UseAfterFree) <==>
      alloc.Some? && w.vars[v].counter.Some? && w.counts[w.vars[v].counter.value] == 1
    ensures r.Ok? <==>
      alloc.Some? && !(w.vars[v].counter.Some? && w.counts[w.vars[v].counter.value] == 1)
  {
    if alloc.None? then
      Fail(BadAlloc)
    else
      var m := w.vars[v];
      var w1 := Decref(w, m);
      var id := w1.next;
      var made := Matrix(cols, rows, Convert(UShort, nchans), Convert(UShort, depth), Some(id), m.counter);
      var blocks := w1.blocks[id := alloc.value];
      match m.counter
      case None =>
        Ok(World(w1.vars[v := made.(counter := Some(id))], w1.counts[id := 1], blocks, id + 1))
      case Some(c) =>
        if c !in w1.counts then Fail(UseAfterFree)
        else Ok(World(w1.vars[v := made], w1.counts[c := w1.counts[c] + 1], blocks, id + 1))
  }

  /** On an object that has never held a counter (the only way the library
      itself calls `create`) the code as written and the corrected `Create`
      agree. */
  lemma CreateAsWrittenOnFreshObject(w: World, v: Var, cols: int, rows: int, nchans: int, depth: int, alloc: Option<seq<byte>>)
    requires v in w.vars && w.vars[v].counter.None?
    requires Fits(alloc, cols * rows * nchans * depth)
    ensures CreateAsWritten(w, v, cols, rows, nchans, depth, alloc) == Create(w, v, cols, rows, nchans, depth, alloc)
  {
    if alloc.Some? {
      var r := Create(w, v, cols, rows, nchans, depth, alloc).value;
      var a := CreateAsWritten(w, v, cols, rows, nchans, depth, alloc).value;
      assert a.vars == r.vars;
    }
  }

  /** Eight bytes of 0, and an allocator answer of eight bytes of 7. */
  const Blank: seq<byte> := [0, 0, 0, 0, 0, 0, 0, 0]
  const Sevens: seq<byte> := [7, 7, 7, 7, 7, 7, 7, 7]

  /** One object, the sole owner of an 8-byte block. */
  const SoleOwner: World :=
    World(map[0 := Matrix(1, 1, 1, 8, Some(0), Some(0))], map[0 := 1], map[0 := Blank], 1)

  /** Two objects sharing that block (one was copied from the other). */
  const Shared: World :=
    World(map[0 := Matrix(1, 1, 1, 8, Some(0), Some(0)), 1 := Matrix(1, 1, 1, 8, Some(0), Some(0))],
          map[0 := 2], map[0 := Blank], 1)

  /** Both example worlds satisfy the invariant. */
  lemma ExampleWorldsValid()
    ensures Valid(SoleOwner) && Valid(Shared)
  {
    SoleOwnerValid();
    SharedValid();
  }

  lemma SoleOwnerValid()
    ensures Valid(SoleOwner)
  {
    assert Refs(SoleOwner.vars, 0) == {0};
  }

  lemma SharedValid()
    ensures Valid(Shared)
  {
    assert Refs(Shared.vars, 0) == {0, 1};
  }

  /** Re-creating the sole owner: the code as written increments a counter it
      has just deleted. */
  lemma CreateAsWrittenUseAfterFree()
    ensures CreateAsWritten(SoleOwner, 0, 1, 1, 1, 8, Some(Sevens)) == Fail(UseAfterFree)
  {
  }

  /** The corrected `Create` on the same object succeeds: the old block and
      counter are freed and the new ones hold id 1 (`CreateValid` shows the
      invariant holds afterwards). */
  lemma CreateOnSoleOwner()
    ensures var r := Create(SoleOwner, 0, 1, 1, 1, 8, Some(Sevens));
      r.Ok? && r.value.counts == map[1 := 1] && r.value.blocks == map[1 := Sevens]
  {
    ReleaseSoleOwner();
  }

  lemma ReleaseSoleOwner()
    ensures CanDecref(SoleOwner, SoleOwner.vars[0])
    ensures Release(SoleOwner, 0).counts == map[] && Release(SoleOwner, 0).blocks == map[]
    ensures Release(SoleOwner, 0).next == 1
  {
    var m := SoleOwner.vars[0];
    assert m.counter == Some(0) && m.data == Some(0) && SoleOwner.counts[0] == 1;
    assert SoleOwner.counts - {0} == map[];
    assert SoleOwner.blocks - {0} == map[];
  }

  /** The branch of `CreateAsWritten` where the old counter survives the
      `decref()`: the object gets the new block but keeps the old counter,
      which is incremented again. */
  lemma CreateAsWrittenOnSharer(w: World, v: Var, cols: int, rows: int, nchans: int, depth: int, alloc: Option<seq<byte>>, c: nat)
    requires v in w.vars && CanDecref(w, w.vars[v]) && Fits(alloc, cols * rows * nchans * depth)
    requires alloc.Some? && w.vars[v].counter == Some(c) && c in Decref(w, w.vars[v]).counts
    ensures var w1 := Decref(w, w.vars[v]);
      var made := Matrix(cols, rows, Convert(UShort, nchans), Convert(UShort, depth), Some(w1.next), Some(c));
      CreateAsWritten(w, v, cols, rows, nchans, depth, alloc)
      == Ok(World(w1.vars[v := made], w1.counts[c := w1.counts[c] + 1], w1.blocks[w1.next := alloc.value], w1.next + 1))
  {
  }

  /** Re-creating one of exactly two objects that share a block: the code as
      written succeeds but breaks the invariant, since the new block has no
      counter of its own. Destroying the other sharer and then the
      re-created object frees the new block and deletes the shared counter,
      yet the old block stays allocated with no counter and no object left to
      free it: a leak. */
  lemma CreateAsWrittenLeaks(w: World, u: Var, v: Var, cols: int, rows: int, nchans: int, depth: int, alloc: Option<seq<byte>>)
    requires Valid(w) && u in w.vars && v in w.vars && u != v
    requires w.vars[v].data.Some? && Refs(w.vars, w.vars[v].data.value) == {u, v}
    requires alloc.Some? && Fits(alloc, cols * rows * nchans * depth)
    ensures CanDecref(w, w.vars[v])
    ensures var r := CreateAsWritten(w, v, cols, rows, nchans, depth, alloc);
      && r.Ok? && !Valid(r.value)
      && var w1 := Release(r.value, u);
         v in w1.vars && CanDecref(w1, w1.vars[v])
         && var w2 := Release(w1, v);
            w2.vars == w.vars - {u, v}
            && w.vars[v].data.value in w2.blocks && w.vars[v].data.value !in w2.counts
  {
    var c := w.vars[v].data.value;
    var n := w.next;
    SharedPair(w, u, v);
    var made := Matrix(cols, rows, Convert(UShort, nchans), Convert(UShort, depth), Some(n), Some(c));
    var r := World(w.vars[v := made], w.counts[c := 2], w.blocks[n := alloc.value], n + 1);
    assert CreateAsWritten(w, v, cols, rows, nchans, depth, alloc) == Ok(r) by {
      var w0 := Decref(w, w.vars[v]);
      assert w0.counts == w.counts[c := 1] && w0.blocks == w.blocks && w0.next == n;
      CreateAsWrittenOnSharer(w, v, cols, rows, nchans, depth, alloc, c);
      assert w0.counts[c := w0.counts[c] + 1] == w.counts[c := 2];
    }
    assert !Valid(r) by {
      assert n in r.blocks && n !in r.counts;
    }
    assert r.vars - {u, v} == w.vars - {u, v};
    ReleaseBoth(r, u, v, c, n);
  }

  /** The facts about two sharers of one block that `CreateAsWrittenLeaks`
      needs: both hold its counter, which counts 2, and `next` is unused. */
  lemma SharedPair(w: World, u: Var, v: Var)
    requires Valid(w) && u in w.vars && v in w.vars && u != v
    requires w.vars[v].data.Some? && Refs(w.vars, w.vars[v].data.value) == {u, v}
    ensures var c := w.vars[v].data.value;
      && w.vars[v].counter == Some(c) && w.vars[u].counter == Some(c)
      && c in w.blocks && c in w.counts && w.counts[c] == 2 && c < w.next
    ensures w.next !in w.counts && w.next !in w.blocks
  {
    assert PointerOk(w, w.vars[v]);
    assert u in Refs(w.vars, w.vars[v].data.value);
    assert |{u, v}| == 2;
    FreshCounter(w);
  }

  /** Two objects share counter `c` (holding 2); the second points at block
      `n`, not `c`. Releasing the first and then the second deletes the
      counter and frees `n`, but block `c` stays. */
  lemma ReleaseBoth(r: World, u: Var, v: Var, c: nat, n: nat)
    requires u in r.vars && v in r.vars && u != v
    requires r.vars[u].counter == Some(c) && r.vars[v].counter == Some(c) && r.vars[v].data == Some(n)
    requires c in r.counts && r.counts[c] == 2 && c != n && c in r.blocks
    ensures CanDecref(r, r.vars[u])
    ensures var w1 := Release(r, u);
      && v in w1.vars && CanDecref(w1, w1.vars[v])
      && var w2 := Release(w1, v);
         w2.vars == r.vars - {u, v} && c in w2.blocks && c !in w2.counts
  {
    var w1 := Release(r, u);
    assert w1.counts == r.counts[c := 1] && w1.blocks == r.blocks;
    assert w1.vars[v] == r.vars[v];
    var w2 := Release(w1, v);
    assert w2.blocks == r.blocks - {n};
    assert w1.vars - {v} == r.vars - {u, v};
  }

  /** The corrected `Create` on the same object gives it a block and counter
      of its own: the old counter drops to 1 and the new one holds 1. */
  lemma CreateOnSharedObject()
    ensures var r := Create(Shared, 1, 1, 1, 1, 8, Some(Sevens));
      r.Ok? && r.value.counts == map[0 := 1, 1 := 1] && r.value.vars[1].counter == Some(1)
  {
    ReleaseShared();
  }

  lemma ReleaseShared()
    ensures CanDecref(Shared, Shared.vars[1])
    ensures Release(Shared, 1).counts == map[0 := 1] && Release(Shared, 1).next == 1
  {
    assert Shared.vars[1].counter == Some(0) && Shared.counts[0] == 2;
  }
}
