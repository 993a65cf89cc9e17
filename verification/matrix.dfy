/**
 * `DoubleMatrix2DType`: a pixel whose value is a `cols` x `rows` matrix of
 * doubles.
 *
 * Element `idx` owns the block of `numElements` slots starting at
 * `numElements*idx`; entry (i, j) -- column `i`, row `j` -- is slot
 * `numElements*idx + j*cols + i`. `numElements` is kept as its own field
 * because the flat-array constructor sets it to the array length, which may
 * exceed `cols*rows`. Every mutator of the source is the double loop
 * "for i < cols, for j < rows: setComponent(i, j, …)"; here it is a pure
 * function from the old store to the new one.
 */
module DoubleMatrix2D {
  import opened Native

  datatype DoubleMatrix2DType = DoubleMatrix2DType(cols: nat, rows: nat, numElements: nat, idx: Int32)

  /** A handle together with a store of its own, as built by the value constructors. */
  datatype Variable = Variable(handle: DoubleMatrix2DType, store: seq<real>)

  /** First slot of the element's block. */
  function Base(t: DoubleMatrix2DType): int {
    t.numElements * t.idx
  }

  /** Slot of entry (i, j). */
  function Slot(t: DoubleMatrix2DType, i: int, j: int): int {
    Base(t) + (j * t.cols + i)
  }

  /** (i, j) is an entry of a `cols` x `rows` matrix. */
  predicate InShape(t: DoubleMatrix2DType, i: int, j: int) {
    0 <= i < t.cols && 0 <= j < t.rows
  }

  /** The `cols*rows` entries fit in a block of `numElements` slots; every constructor establishes this. */
  predicate WellShaped(t: DoubleMatrix2DType) {
    t.cols * t.rows <= t.numElements
  }

  /** Two handles with the same shape and the same block length. */
  predicate SameLayout(a: DoubleMatrix2DType, b: DoubleMatrix2DType) {
    a.cols == b.cols && a.rows == b.rows && a.numElements == b.numElements
  }

  /** Slot `k` belongs to the block of element `t`. */
  predicate InBlock(t: DoubleMatrix2DType, k: int) {
    Base(t) <= k < Base(t) + t.numElements
  }

  /** Slot `k` is one of the `cols*rows` slots that hold an entry of `t`. */
  predicate InFootprint(t: DoubleMatrix2DType, k: int) {
    Base(t) <= k < Base(t) + t.cols * t.rows
  }

  /** Every slot `c.getComponent(i, j)` reads for `i < cols`, `j < rows` is inside store `s`. */
  predicate Readable(c: DoubleMatrix2DType, cols: nat, rows: nat, s: seq<real>) {
    forall i, j | 0 <= i < cols && 0 <= j < rows :: 0 <= Slot(c, i, j) < |s|
  }

  /** The whole block of `t` is inside store `s`, and so, in consequence, is every entry. */
  predicate InStore(t: DoubleMatrix2DType, s: seq<real>) {
    WellShaped(t) && 0 <= Base(t) && Base(t) + t.numElements <= |s| && Readable(t, t.cols, t.rows, s)
  }

  /** The element's block: the `numElements` slots from `numElements*idx` on. */
  function Block(s: seq<real>, t: DoubleMatrix2DType): seq<real>
    requires 0 <= Base(t) && Base(t) + t.numElements <= |s|
  {
    s[Base(t)..Base(t) + t.numElements]
  }

  /** `getComponent(i, j)`: slot `numElements*idx + j*cols + i`, which for an entry of the shape lies in the footprint. */
  function GetComponent(s: seq<real>, t: DoubleMatrix2DType, i: int, j: int): (r: real)
    requires 0 <= Slot(t, i, j) < |s|
    ensures InShape(t, i, j) ==> InFootprint(t, Slot(t, i, j))
  {
    if InShape(t, i, j) then
      SlotInFootprint(t, i, j);
      s[Slot(t, i, j)]
    else
      s[Slot(t, i, j)]
  }

  /** Entry (i, j) of the shape is the block's value at row-major offset `j*cols + i`. */
  lemma GetComponentReadsBlock(s: seq<real>, t: DoubleMatrix2DType, i: int, j: int)
    requires InStore(t, s) && InShape(t, i, j)
    ensures 0 <= j * t.cols + i < t.numElements
    ensures GetComponent(s, t, i, j) == Block(s, t)[j * t.cols + i]
  {
    SlotInFootprint(t, i, j);
  }

  /** `setComponent(i, j, v)`: slot `numElements*idx + j*cols + i` now holds `v`, and no other slot changes. */
  function SetComponent(s: seq<real>, t: DoubleMatrix2DType, i: int, j: int, v: real): (r: seq<real>)
    requires 0 <= Slot(t, i, j) < |s|
    ensures |r| == |s|
    ensures GetComponent(r, t, i, j) == v
    ensures forall k | 0 <= k < |s| && k != Slot(t, i, j) :: r[k] == s[k]
  {
    s[Slot(t, i, j) := v]
  }

  /** Entry (i, j) lies in the element's footprint. */
  lemma SlotInFootprint(t: DoubleMatrix2DType, i: int, j: int)
    requires InShape(t, i, j)
    ensures InFootprint(t, Slot(t, i, j))
  {
    var c := t.cols;
    assert 0 <= j * c;
    assert j * c + c == c * (j + 1);
    MulMonotone(c, j + 1, t.rows);
  }

  /** Two entries with the same offset `j*cols + i` are the same entry. */
  lemma SlotsDistinct(t: DoubleMatrix2DType, i: int, j: int, i': int, j': int)
    requires InShape(t, i, j) && InShape(t, i', j')
    requires j * t.cols + i == j' * t.cols + i'
    ensures i == i' && j == j'
  {
    var c := t.cols;
    if j < j' {
      MulMonotone(c, j + 1, j');
      assert false;
    } else if j' < j {
      MulMonotone(c, j' + 1, j);
      assert false;
    }
  }

  /**
   * Entry (i, j) of element `idx` is slot `numElements*idx + j*cols + i`:
   * distinct entries get distinct slots, all inside the element's footprint,
   * and the footprint lies inside the element's block.
   */
  lemma SlotInjective(t: DoubleMatrix2DType)
    ensures forall i, j | InShape(t, i, j) :: InFootprint(t, Slot(t, i, j))
    ensures forall i, j, i', j' | InShape(t, i, j) && InShape(t, i', j') && Slot(t, i, j) == Slot(t, i', j') ::
              i == i' && j == j'
    ensures forall k | InFootprint(t, k) && WellShaped(t) :: InBlock(t, k)
  {
    forall i, j | InShape(t, i, j)
      ensures InFootprint(t, Slot(t, i, j))
    {
      SlotInFootprint(t, i, j);
    }
    forall i, j, i', j' | InShape(t, i, j) && InShape(t, i', j') && Slot(t, i, j) == Slot(t, i', j')
      ensures i == i' && j == j'
    {
      SlotsDistinct(t, i, j, i', j');
    }
  }

  /** Every slot of the footprint holds some entry (i, j). */
  lemma FootprintCovered(t: DoubleMatrix2DType, k: int)
    requires InFootprint(t, k)
    ensures t.cols > 0
    ensures InShape(t, (k - Base(t)) % t.cols, (k - Base(t)) / t.cols)
    ensures Slot(t, (k - Base(t)) % t.cols, (k - Base(t)) / t.cols) == k
  {
    var off := k - Base(t);
    if t.cols == 0 {
      assert false;
    }
    var i, j := off % t.cols, off / t.cols;
    assert off == j * t.cols + i;
    if j >= t.rows {
      MulMonotone(t.cols, t.rows, j);
      assert false;
    }
  }

  /** Two elements with the same layout and different indices share no slot. */
  lemma Disjoint(a: DoubleMatrix2DType, b: DoubleMatrix2DType)
    requires WellShaped(a) && SameLayout(a, b) && a.idx != b.idx
    ensures forall i, j | InShape(a, i, j) :: !InFootprint(b, Slot(a, i, j)) && !InBlock(b, Slot(a, i, j))
  {
    SlotInjective(a);
    SlotInjective(b);
    var n := a.numElements;
    if a.idx < b.idx {
      MulMonotone(n, a.idx + 1, b.idx);
    } else {
      MulMonotone(n, b.idx + 1, a.idx);
    }
  }

  /** A well-shaped element whose block lies inside a store is in that store. */
  lemma BlockInStore(t: DoubleMatrix2DType, s: seq<real>)
    requires WellShaped(t) && 0 <= Base(t) && Base(t) + t.numElements <= |s|
    ensures InStore(t, s)
  {
    SlotInjective(t);
  }

  /**
   * The inner loop shared by every operation, for column `i` and rows
   * `j, j+1, …`: `setComponent(i, j', g(i, j', getComponent(i, j'), c.getComponent(i, j')))`.
   * When `c` lives in the store being written, each read sees the writes
   * already made, exactly as in the source.
   */
  function ApplyRows(s: seq<real>, t: DoubleMatrix2DType, src: Source, c: DoubleMatrix2DType,
                     g: (int, int, real, real) -> real, i: nat, j: nat): (r: seq<real>)
    requires InStore(t, s) && i < t.cols && j <= t.rows
    requires Readable(c, t.cols, t.rows, Read(src, s))
    requires src.SameStore? ==> SameLayout(c, t)
    ensures |r| == |s|
    ensures forall k | 0 <= k < |s| && !InFootprint(t, k) :: r[k] == s[k]
    ensures forall i', j' | InShape(t, i', j') && (i' != i || j' < j) ::
              r[Slot(t, i', j')] == s[Slot(t, i', j')]
    ensures forall j' | j <= j' < t.rows ::
              r[Slot(t, i, j')] == g(i, j', s[Slot(t, i, j')], Read(src, s)[Slot(c, i, j')])
    decreases t.rows - j
  {
    if j == t.rows then s
    else
      SlotInjective(t);
      var v := g(i, j, GetComponent(s, t, i, j), GetComponent(Read(src, s), c, i, j));
      var s' := SetComponent(s, t, i, j, v);
      assert forall j' | j < j' < t.rows :: Read(src, s')[Slot(c, i, j')] == Read(src, s)[Slot(c, i, j')] by {
        if src.SameStore? && c.idx != t.idx {
          Disjoint(c, t);
        }
      }
      ApplyRows(s', t, src, c, g, i, j + 1)
  }

  /** The outer loop shared by every operation, for columns `i, i+1, …`. */
  function ApplyCols(s: seq<real>, t: DoubleMatrix2DType, src: Source, c: DoubleMatrix2DType,
                     g: (int, int, real, real) -> real, i: nat): (r: seq<real>)
    requires InStore(t, s) && i <= t.cols
    requires Readable(c, t.cols, t.rows, Read(src, s))
    requires src.SameStore? ==> SameLayout(c, t)
    ensures |r| == |s|
    ensures forall k | 0 <= k < |s| && !InFootprint(t, k) :: r[k] == s[k]
    ensures forall i', j' | InShape(t, i', j') && i' < i :: r[Slot(t, i', j')] == s[Slot(t, i', j')]
    ensures forall i', j' | InShape(t, i', j') && i <= i' ::
              r[Slot(t, i', j')] == g(i', j', s[Slot(t, i', j')], Read(src, s)[Slot(c, i', j')])
    decreases t.cols - i
  {
    if i == t.cols then s
    else
      var s' := ApplyRows(s, t, src, c, g, i, 0);
      assert forall i', j' | InShape(t, i', j') && i < i' ::
               Read(src, s')[Slot(c, i', j')] == Read(src, s)[Slot(c, i', j')] by {
        if src.SameStore? && c.idx != t.idx {
          Disjoint(c, t);
        }
      }
      ApplyCols(s', t, src, c, g, i + 1)
  }

  /** The whole double loop over a `cols` x `rows` element. */
  function Apply(s: seq<real>, t: DoubleMatrix2DType, src: Source, c: DoubleMatrix2DType,
                 g: (int, int, real, real) -> real): (r: seq<real>)
    requires InStore(t, s)
    requires Readable(c, t.cols, t.rows, Read(src, s))
    requires src.SameStore? ==> SameLayout(c, t)
    ensures |r| == |s|
    ensures forall k | 0 <= k < |s| && !InFootprint(t, k) :: r[k] == s[k]
    ensures forall i, j | InShape(t, i, j) ::
              r[Slot(t, i, j)] == g(i, j, s[Slot(t, i, j)], Read(src, s)[Slot(c, i, j)])
  {
    ApplyCols(s, t, src, c, g, 0)
  }

  /**
   * `setComponent(i, j, v)` then `getComponent(i, j)` gives `v`; every other
   * slot keeps its value, so every other entry of this element and every
   * entry of any other element with the same layout are unchanged.
   */
  lemma SetThenGetComponent(s: seq<real>, t: DoubleMatrix2DType, i: int, j: int, v: real, u: DoubleMatrix2DType)
    requires InStore(t, s) && InShape(t, i, j)
    ensures 0 <= Slot(t, i, j) < |s|
    ensures GetComponent(SetComponent(s, t, i, j, v), t, i, j) == v
    ensures forall k | 0 <= k < |s| && k != Slot(t, i, j) :: SetComponent(s, t, i, j, v)[k] == s[k]
    ensures forall i', j' | InShape(t, i', j') && (i', j') != (i, j) ::
              GetComponent(SetComponent(s, t, i, j, v), t, i', j') == GetComponent(s, t, i', j')
    ensures SameLayout(u, t) && u.idx != t.idx && InStore(u, s) ==>
              forall i', j' | InShape(u, i', j') ::
                GetComponent(SetComponent(s, t, i, j, v), u, i', j') == GetComponent(s, u, i', j')
  {
    SlotInjective(t);
    if SameLayout(u, t) && u.idx != t.idx && InStore(u, s) {
      Disjoint(u, t);
    }
  }

  /**
   * `new DoubleMatrix2DType(width, height)`: a `width` x `height` handle at
   * index 0 whose block is exactly its entries, with no spare slots.
   */
  function Sized(width: nat, height: nat): (r: DoubleMatrix2DType)
    ensures r.cols == width && r.rows == height && r.idx == 0
    ensures WellShaped(r)
    ensures forall k :: InBlock(r, k) <==> InFootprint(r, k)
  {
    DoubleMatrix2DType(width, height, width * height, 0)
  }

  /** `new DoubleMatrix2DType(double[][] values)`: column `i` is `values[i]`. */
  function FromNested(values: seq<seq<real>>): (r: Option<Variable>)
    ensures r.None? <==> |values| == 0 || exists i | 0 <= i < |values| :: |values[i]| < |values[0]|
    ensures r.Some? ==>
              var t := r.value.handle;
              && t.cols == |values| && t.rows == |values[0]| && t.numElements == t.cols * t.rows && t.idx == 0
              && |r.value.store| == t.numElements && InStore(t, r.value.store)
              && forall i, j | InShape(t, i, j) :: GetComponent(r.value.store, t, i, j) == values[i][j]
  {
    if |values| == 0 || exists i | 0 <= i < |values| :: |values[i]| < |values[0]| then None
    else
      var t := DoubleMatrix2DType(|values|, |values[0]|, |values| * |values[0]|, 0);
      var s := seq(t.numElements, _ => 0.0);
      BlockInStore(t, s);
      var at := (i: int, j: int, a: real, b: real) =>
        if 0 <= i < |values| && 0 <= j < |values[i]| then values[i][j] else 0.0;
      Some(Variable(t, Apply(s, t, SameStore, t, at)))
  }

  /** Entry (i, j) of a `cols` x `rows` matrix reads a flat index below `cols*rows`, by either formula. */
  lemma FlatIndexBelow(cols: nat, rows: nat, i: int, j: int)
    requires 0 <= i < cols && 0 <= j < rows
    ensures 0 <= i * j < cols * rows
    ensures 0 <= j * cols + i < cols * rows
  {
    MulMonotone(j, i, cols);
    MulMonotone(cols, j, rows);
    MulMonotone(cols, j + 1, rows);
  }

  /** `|values| / cols` rows of `cols` entries fit in `|values|` slots. */
  lemma RowsFit(n: nat, cols: nat)
    requires cols > 0
    ensures cols * (n / cols) <= n
  {
    assert n == cols * (n / cols) + n % cols;
  }

  /**
   * `new DoubleMatrix2DType(double[] values, int cols)` as written: `rows` is
   * `|values| / cols`, the block is `|values|` slots long, and entry (i, j)
   * receives `values[i * j]`. An odd length fails the constructor's assertion
   * and a zero `cols` makes the division throw; both give `None`.
   */
  function FromFlat(values: seq<real>, cols: nat): (r: Option<Variable>)
    ensures r.None? <==> |values| % 2 != 0 || cols == 0
    ensures r.Some? ==>
              var t := r.value.handle;
              && t.cols == cols && t.rows == |values| / cols && t.numElements == |values| && t.idx == 0
              && |r.value.store| == |values| && InStore(t, r.value.store)
              && forall i, j | InShape(t, i, j) ::
                   0 <= i * j < |values| && GetComponent(r.value.store, t, i, j) == values[i * j]
  {
    if |values| % 2 != 0 || cols == 0 then None
    else
      var t := DoubleMatrix2DType(cols, |values| / cols, |values|, 0);
      var s := seq(|values|, _ => 0.0);
      RowsFit(|values|, cols);
      BlockInStore(t, s);
      var at := (i: int, j: int, a: real, b: real) => if 0 <= i * j < |values| then values[i * j] else 0.0;
      var r := Apply(s, t, SameStore, t, at);
      assert forall i, j | InShape(t, i, j) :: 0 <= i * j < |values| by {
        forall i, j | InShape(t, i, j) ensures 0 <= i * j < |values| {
          FlatIndexBelow(t.cols, t.rows, i, j);
        }
      }
      Some(Variable(t, r))
  }

  /**
   * The flat-array constructor as evidently intended: entry (i, j) receives
   * `values[j*cols + i]`, the very slot it is stored in. The error cases are
   * those of `FromFlat`.
   */
  function FromFlatCorrected(values: seq<real>, cols: nat): (r: Option<Variable>)
    ensures r.None? <==> |values| % 2 != 0 || cols == 0
    ensures r.Some? ==>
              var t := r.value.handle;
              && t.cols == cols && t.rows == |values| / cols && t.numElements == |values| && t.idx == 0
              && |r.value.store| == |values| && InStore(t, r.value.store)
              && forall i, j | InShape(t, i, j) ::
                   0 <= j * cols + i < |values| && GetComponent(r.value.store, t, i, j) == values[j * cols + i]
  {
    if |values| % 2 != 0 || cols == 0 then None
    else
      var t := DoubleMatrix2DType(cols, |values| / cols, |values|, 0);
      var s := seq(|values|, _ => 0.0);
      RowsFit(|values|, cols);
      BlockInStore(t, s);
      var at := (i: int, j: int, a: real, b: real) =>
        if 0 <= j * cols + i < |values| then values[j * cols + i] else 0.0;
      var r := Apply(s, t, SameStore, t, at);
      assert forall i, j | InShape(t, i, j) :: 0 <= j * cols + i < |values| by {
        forall i, j | InShape(t, i, j) ensures 0 <= j * cols + i < |values| {
          FlatIndexBelow(t.cols, t.rows, i, j);
        }
      }
      Some(Variable(t, r))
  }

  /**
   * As written, entry (1, 0) -- slot 1 of the store -- receives `values[0]`,
   * so whenever `values[0] != values[1]` (as for [1, 2, 3, 4] with two
   * columns) the store differs from the array it was built from.
   */
  lemma FromFlatMisplacesEntries(values: seq<real>, cols: nat)
    requires |values| % 2 == 0 && 2 <= cols <= |values|
    ensures FromFlat(values, cols).Some? && FromFlatCorrected(values, cols).Some?
    ensures FromFlat(values, cols).value.store[1] == values[0]
    ensures FromFlatCorrected(values, cols).value.store[1] == values[1]
  {
    var t := FromFlat(values, cols).value.handle;
    assert t.rows >= 1 by {
      assert |values| == cols * (|values| / cols) + |values| % cols;
    }
    assert InShape(t, 1, 0) && Slot(t, 1, 0) == 1;
  }

  /** Corrected, an array whose length is a multiple of `cols` becomes the store unchanged. */
  lemma FromFlatCorrectedRoundTrip(values: seq<real>, cols: nat)
    requires |values| % 2 == 0 && cols > 0 && |values| % cols == 0
    ensures FromFlatCorrected(values, cols).Some?
    ensures FromFlatCorrected(values, cols).value.store == values
  {
    var v := FromFlatCorrected(values, cols).value;
    var t := v.handle;
    assert |values| == cols * (|values| / cols) + |values| % cols;
    forall k | 0 <= k < |values|
      ensures v.store[k] == values[k]
    {
      FootprintCovered(t, k);
    }
  }

  /** `createVariable()`: `new DoubleMatrix2DType(new double[cols][rows])`, which throws when `cols == 0`. */
  function CreateVariable(t: DoubleMatrix2DType): (r: Option<Variable>)
    ensures r.None? <==> t.cols == 0
    ensures r.Some? ==>
              var h := r.value.handle;
              && h.cols == t.cols && h.rows == t.rows && h.numElements == t.cols * t.rows && h.idx == 0
              && InStore(h, r.value.store)
              && forall i, j | InShape(h, i, j) :: GetComponent(r.value.store, h, i, j) == 0.0
  {
    var zeros := seq(t.cols, _ => seq(t.rows, _ => 0.0));
    assert forall i | 0 <= i < t.cols :: |zeros[i]| == t.rows;
    assert forall i, j | 0 <= i < t.cols && 0 <= j < t.rows :: zeros[i][j] == 0.0;
    FromNested(zeros)
  }

  /** `set(c)`: entry (i, j) becomes `c.getComponent(i, j)`, for `i < cols`, `j < rows`. */
  function Set(s: seq<real>, t: DoubleMatrix2DType, src: Source, c: DoubleMatrix2DType): (r: seq<real>)
    requires InStore(t, s) && Readable(c, t.cols, t.rows, Read(src, s))
    requires src.SameStore? ==> SameLayout(c, t)
    ensures |r| == |s|
    ensures forall i, j | InShape(t, i, j) ::
              GetComponent(r, t, i, j) == Read(src, s)[Slot(c, i, j)]
    ensures forall k | 0 <= k < |s| && !InFootprint(t, k) :: r[k] == s[k]
  {
    SlotInjective(t);
    Apply(s, t, src, c, (i, j, a, b) => b)
  }

  /** The inner comparison loop of `valueEquals`, column `i`, rows `j, j+1, …`. */
  function EqualRows(s: seq<real>, t: DoubleMatrix2DType, src: Source, c: DoubleMatrix2DType, i: nat, j: nat): (r: bool)
    requires InStore(t, s) && Readable(c, t.cols, t.rows, Read(src, s)) && i < t.cols && j <= t.rows
    ensures r <==> forall j' | j <= j' < t.rows :: Read(src, s)[Slot(c, i, j')] == s[Slot(t, i, j')]
    decreases t.rows - j
  {
    if j == t.rows then true
    else if GetComponent(Read(src, s), c, i, j) != GetComponent(s, t, i, j) then false
    else EqualRows(s, t, src, c, i, j + 1)
  }

  /** The outer comparison loop of `valueEquals`, columns `i, i+1, …`. */
  function EqualCols(s: seq<real>, t: DoubleMatrix2DType, src: Source, c: DoubleMatrix2DType, i: nat): (r: bool)
    requires InStore(t, s) && Readable(c, t.cols, t.rows, Read(src, s)) && i <= t.cols
    ensures r <==> forall i', j' | InShape(t, i', j') && i <= i' ::
                     Read(src, s)[Slot(c, i', j')] == s[Slot(t, i', j')]
    decreases t.cols - i
  {
    if i == t.cols then true
    else EqualRows(s, t, src, c, i, 0) && EqualCols(s, t, src, c, i + 1)
  }

  /** `valueEquals(c)`: true exactly when every entry (i, j) with `i < cols`, `j < rows` agrees. */
  function ValueEquals(s: seq<real>, t: DoubleMatrix2DType, src: Source, c: DoubleMatrix2DType): (r: bool)
    requires InStore(t, s) && Readable(c, t.cols, t.rows, Read(src, s))
    ensures r <==> forall i, j | InShape(t, i, j) :: Read(src, s)[Slot(c, i, j)] == s[Slot(t, i, j)]
  {
    EqualCols(s, t, src, c, 0)
  }

  /** After `set(c)`, `valueEquals(c)` holds, also when `c` shares the store. */
  lemma SetThenValueEquals(s: seq<real>, t: DoubleMatrix2DType, src: Source, c: DoubleMatrix2DType)
    requires InStore(t, s) && Readable(c, t.cols, t.rows, Read(src, s))
    requires src.SameStore? ==> SameLayout(c, t)
    ensures ValueEquals(Set(s, t, src, c), t, src, c)
  {
    var r := Set(s, t, src, c);
    if src.SameStore? && c.idx != t.idx {
      Disjoint(c, t);
    }
  }

  /** `copy()`: a detached element of the same shape holding the same value; throws when `cols == 0`. */
  function Copy(s: seq<real>, t: DoubleMatrix2DType): (r: Option<Variable>)
    requires InStore(t, s)
    ensures r.None? <==> t.cols == 0
    ensures r.Some? ==>
              var h := r.value.handle;
              && h.cols == t.cols && h.rows == t.rows && h.idx == 0 && InStore(h, r.value.store)
              && ValueEquals(r.value.store, h, OtherStore(s), t)
              && forall i, j | InShape(t, i, j) :: GetComponent(r.value.store, h, i, j) == s[Slot(t, i, j)]
  {
    match CreateVariable(t)
    case None => None
    case Some(w) =>
      Some(Variable(w.handle, Set(w.store, w.handle, OtherStore(s), t)))
  }

  /** Entry-wise combination of this element with `c`, which must have the same shape. */
  predicate Compatible(s: seq<real>, t: DoubleMatrix2DType, src: Source, c: DoubleMatrix2DType) {
    InStore(t, s) && InStore(c, Read(src, s)) && c.cols == t.cols && c.rows == t.rows
    && (src.SameStore? ==> c.numElements == t.numElements)
  }

  /** `add(c)`: entry-wise sum; only this element's entries change. */
  function Add(s: seq<real>, t: DoubleMatrix2DType, src: Source, c: DoubleMatrix2DType): (r: seq<real>)
    requires Compatible(s, t, src, c)
    ensures |r| == |s|
    ensures forall i, j | InShape(t, i, j) ::
              r[Slot(t, i, j)] == s[Slot(t, i, j)] + Read(src, s)[Slot(c, i, j)]
    ensures forall k | 0 <= k < |s| && !InFootprint(t, k) :: r[k] == s[k]
  {
    Apply(s, t, src, c, (i, j, a, b) => a + b)
  }

  /** `sub(c)`: entry-wise difference; only this element's entries change. */
  function Sub(s: seq<real>, t: DoubleMatrix2DType, src: Source, c: DoubleMatrix2DType): (r: seq<real>)
    requires Compatible(s, t, src, c)
    ensures |r| == |s|
    ensures forall i, j | InShape(t, i, j) ::
              r[Slot(t, i, j)] == s[Slot(t, i, j)] - Read(src, s)[Slot(c, i, j)]
    ensures forall k | 0 <= k < |s| && !InFootprint(t, k) :: r[k] == s[k]
  {
    Apply(s, t, src, c, (i, j, a, b) => a - b)
  }

  /** `mul(c)`: entry-wise (Hadamard) product; only this element's entries change. */
  function Mul(s: seq<real>, t: DoubleMatrix2DType, src: Source, c: DoubleMatrix2DType): (r: seq<real>)
    requires Compatible(s, t, src, c)
    ensures |r| == |s|
    ensures forall i, j | InShape(t, i, j) ::
              r[Slot(t, i, j)] == s[Slot(t, i, j)] * Read(src, s)[Slot(c, i, j)]
    ensures forall k | 0 <= k < |s| && !InFootprint(t, k) :: r[k] == s[k]
  {
    Apply(s, t, src, c, (i, j, a, b) => a * b)
  }

  /** `div(c)`: entry-wise quotient; only this element's entries change. */
  function Div(s: seq<real>, t: DoubleMatrix2DType, src: Source, c: DoubleMatrix2DType): (r: seq<real>)
    requires Compatible(s, t, src, c)
    requires forall i, j | InShape(t, i, j) && 0 <= Slot(c, i, j) < |Read(src, s)| ::
               Read(src, s)[Slot(c, i, j)] != 0.0
    ensures |r| == |s|
    ensures forall i, j | InShape(t, i, j) ::
              0 <= Slot(c, i, j) < |Read(src, s)| &&
              r[Slot(t, i, j)] == s[Slot(t, i, j)] / Read(src, s)[Slot(c, i, j)]
    ensures forall k | 0 <= k < |s| && !InFootprint(t, k) :: r[k] == s[k]
  {
    Apply(s, t, src, c, (i, j, a, b) => if b == 0.0 then 0.0 else a / b)
  }

  /** `setOne()`: every entry becomes 1. */
  function SetOne(s: seq<real>, t: DoubleMatrix2DType): (r: seq<real>)
    requires InStore(t, s)
    ensures |r| == |s|
    ensures forall i, j | InShape(t, i, j) :: r[Slot(t, i, j)] == 1.0
    ensures forall k | 0 <= k < |s| && !InFootprint(t, k) :: r[k] == s[k]
  {
    Apply(s, t, SameStore, t, (i, j, a, b) => 1.0)
  }

  /** `setZero()` as written: the loop stores `1d`, so every entry becomes 1, not 0. */
  function SetZero(s: seq<real>, t: DoubleMatrix2DType): (r: seq<real>)
    requires InStore(t, s)
    ensures |r| == |s|
    ensures forall i, j | InShape(t, i, j) :: r[Slot(t, i, j)] == 1.0
    ensures forall k | 0 <= k < |s| && !InFootprint(t, k) :: r[k] == s[k]
  {
    Apply(s, t, SameStore, t, (i, j, a, b) => 1.0)
  }

  /** As written, `setZero()` and `setOne()` leave identical stores behind. */
  lemma SetZeroIsSetOne(s: seq<real>, t: DoubleMatrix2DType)
    requires InStore(t, s)
    ensures SetZero(s, t) == SetOne(s, t)
  {
    var z, o := SetZero(s, t), SetOne(s, t);
    forall k | 0 <= k < |s|
      ensures z[k] == o[k]
    {
      if InFootprint(t, k) {
        FootprintCovered(t, k);
      }
    }
  }

  /** `setZero()` as evidently intended: every entry becomes 0. */
  function SetZeroCorrected(s: seq<real>, t: DoubleMatrix2DType): (r: seq<real>)
    requires InStore(t, s)
    ensures |r| == |s|
    ensures forall i, j | InShape(t, i, j) :: r[Slot(t, i, j)] == 0.0
    ensures forall k | 0 <= k < |s| && !InFootprint(t, k) :: r[k] == s[k]
  {
    Apply(s, t, SameStore, t, (i, j, a, b) => 0.0)
  }

  /** `mul(x)` for a `float` or `double` scalar: every entry is scaled by `x`. */
  function Scale(s: seq<real>, t: DoubleMatrix2DType, x: real): (r: seq<real>)
    requires InStore(t, s)
    ensures |r| == |s|
    ensures forall i, j | InShape(t, i, j) :: r[Slot(t, i, j)] == s[Slot(t, i, j)] * x
    ensures forall k | 0 <= k < |s| && !InFootprint(t, k) :: r[k] == s[k]
  {
    Apply(s, t, SameStore, t, (i, j, a, b) => a * x)
  }

  /** `getEntitiesPerPixel()`: the number of store slots between consecutive elements. */
  function EntitiesPerPixel(t: DoubleMatrix2DType): (r: Fraction)
    ensures r.denominator > 0
    ensures forall u: DoubleMatrix2DType | u.numElements == t.numElements ::
              (Base(u) - Base(t)) * r.denominator == (u.idx - t.idx) * r.numerator
  {
    Fraction(t.numElements, 1)
  }

  /** `updateIndex(i)`. */
  function UpdateIndex(t: DoubleMatrix2DType, i: Int32): DoubleMatrix2DType {
    t.(idx := i)
  }

  /** `incIndex(n)`; `incIndex()` is `IncIndex(t, 1)`. Without overflow every slot moves `n` blocks up. */
  function IncIndex(t: DoubleMatrix2DType, n: Int32): (r: DoubleMatrix2DType)
    ensures r == t.(idx := r.idx)
    ensures (r.idx - (t.idx + n)) % INT_RANGE == 0
    ensures INT_MIN <= t.idx + n <= INT_MAX ==>
              forall i, j :: Slot(r, i, j) == Slot(t, i, j) + n * t.numElements
  {
    t.(idx := Advance(t.idx, n))
  }

  /** `decIndex(n)`; `decIndex()` is `DecIndex(t, 1)`. Without overflow every slot moves `n` blocks down. */
  function DecIndex(t: DoubleMatrix2DType, n: Int32): (r: DoubleMatrix2DType)
    ensures r == t.(idx := r.idx)
    ensures (r.idx - (t.idx - n)) % INT_RANGE == 0
    ensures INT_MIN <= t.idx - n <= INT_MAX ==>
              forall i, j :: Slot(r, i, j) == Slot(t, i, j) - n * t.numElements
  {
    t.(idx := Retreat(t.idx, n))
  }

  /** `updateIndex(i)` then `getIndex()` is `i`; `incIndex(n)` then `decIndex(n)` restores the handle. */
  lemma IndexMoves(t: DoubleMatrix2DType, i: Int32, n: Int32)
    ensures UpdateIndex(t, i).idx == i
    ensures DecIndex(IncIndex(t, n), n) == t
  {
    AdvanceRetreat(t.idx, n);
  }
}
