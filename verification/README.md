# Composite pixel types, defined bounds and 2-bit values of ImgLib2

This project is a Dafny model of three small pieces of ImgLib2:

- **Composite native pixel types.** `DoubleVectorType` is a pixel holding `vlen` doubles. `DoubleMatrix2DType` is a pixel holding a `cols` x `rows` matrix of doubles.
  - A handle keeps an element index `idx` into a flat store of doubles.
  - Component `d` of a vector lives at slot `vlen*idx + d`. Entry (i, j) of a matrix (column `i`, row `j`) lives at slot `numElements*idx + j*cols + i`.
  - Every mutator of the source is a loop of `setComponent` calls. Here the store is a `seq<real>`, and each mutator is a pure function from the old store to the new one.
  - An operand element is read through a `Source`. It is either the store being written (`SameStore`) or a separate one (`OtherStore`). In the aliased case, reads see the writes already made, exactly as in the loops of the source.
  - The index arithmetic of `incIndex`/`decIndex` wraps at 32 bits, like Java's `int` (module `Native`).
- **Defined bounds of a view chain.** A view is an array image, a translation, a restriction to an interval, or an out-of-bounds extension.
  - `DefinedBounds` reports the interval on which a view returns genuine image data, or `None` when an extension lies below it.
  - `SourcePosition` is the independent reading of the same chain: which image position a view position reads. The two are proved consistent.
  - The module also models the flat index an array image gives a position (`i = i*dim[d] + pos[d]` from the last axis down), checked against the positional reference value `Linear`.
- **2-bit unsigned values.** Elements are packed 32 to a 64-bit word.
  - `set`, the `long` constructor and `setBigInteger` keep the low two bits of the two's complement of their argument. This equals the argument modulo 4.
  - `get` and `getBigInteger` read a value in 0..3.
  - A write changes no other element.

Files: `native.dfy` (module `Native`), `vector.dfy` (`DoubleVector`), `matrix.dfy` (`DoubleMatrix2D`), `bounds.dfy` (`DefinedBounds`), `unsigned2bit.dfy` (`Unsigned2Bit`).

## Model

| member | source | states |
|---|---|---|
| Native.WrapInt | src/main/java/net/imglib2/type/vector/DoubleVectorType.java:183-205 | The wrapped index is congruent to the exact one modulo 2^32, and equals it when no overflow occurs |
| Native.AdvanceRetreat | src/main/java/net/imglib2/type/vector/DoubleVectorType.java:189-205 | Adding `n` to an `int` index and then subtracting `n` restores it, even across overflow |
| DoubleVector.GetComponentReadsBlock | src/main/java/net/imglib2/type/vector/DoubleVectorType.java:207-210 | `getComponent(d)` for `d < vlen` reads slot `vlen*idx + d`, which is the `d`-th value of the element's block |
| DoubleVector.SetComponent | src/main/java/net/imglib2/type/vector/DoubleVectorType.java:212-215 | After `setComponent(d, v)` component `d` reads `v`, and every other slot of the store is unchanged |
| DoubleVector.Layout | src/main/java/net/imglib2/type/vector/DoubleVectorType.java:207-215 | Component `d < vlen` lies in its element's block. Two elements of equal length and different index never share a slot |
| DoubleVector.SetThenGetComponent | src/main/java/net/imglib2/type/vector/DoubleVectorType.java:207-215 | `getComponent(d)` after `setComponent(d, v)` gives `v`. Every other slot, every other component and every other element of equal length is unchanged |
| DoubleVector.Apply | src/main/java/net/imglib2/type/vector/DoubleVectorType.java:217-243 | The shared loop writes `g(d, own, operand)` to component `d` and changes no slot outside the element's block, including when the operand aliases the store |
| DoubleVector.FromValues | src/main/java/net/imglib2/type/vector/DoubleVectorType.java:85-92 | The array constructor gives a fresh store equal to the array, with `vlen` its length and components equal to its entries |
| DoubleVector.CreateVariable | src/main/java/net/imglib2/type/vector/DoubleVectorType.java:105-109 | A fresh element of the same length, every component 0 |
| DoubleVector.Copy | src/main/java/net/imglib2/type/vector/DoubleVectorType.java:111-117 | A fresh element of the same length that `valueEquals` the original, component by component |
| DoubleVector.Set | src/main/java/net/imglib2/type/vector/DoubleVectorType.java:119-124 | Each component becomes the operand's component. Slots outside the element's block are unchanged |
| DoubleVector.EqualFrom | src/main/java/net/imglib2/type/vector/DoubleVectorType.java:126-133 | The comparison loop from component `d` on returns true exactly when all remaining components agree |
| DoubleVector.ValueEquals | src/main/java/net/imglib2/type/vector/DoubleVectorType.java:126-133 | True if and only if all `vlen` components agree |
| DoubleVector.SetThenValueEquals | src/main/java/net/imglib2/type/vector/DoubleVectorType.java:119-133 | After `set(c)`, `valueEquals(c)` holds, also when `c` shares the store with a different index |
| DoubleVector.Add | src/main/java/net/imglib2/type/vector/DoubleVectorType.java:217-222 | Each component becomes own + operand. Nothing outside the block changes |
| DoubleVector.Mul | src/main/java/net/imglib2/type/vector/DoubleVectorType.java:224-229 | Each component becomes own * operand. Nothing outside the block changes |
| DoubleVector.Sub | src/main/java/net/imglib2/type/vector/DoubleVectorType.java:231-236 | Each component becomes own - operand. Nothing outside the block changes |
| DoubleVector.Div | src/main/java/net/imglib2/type/vector/DoubleVectorType.java:238-243 | Each component becomes own / operand. Nothing outside the block changes |
| DoubleVector.SetOne | src/main/java/net/imglib2/type/vector/DoubleVectorType.java:245-250 | Every component becomes 1. Nothing outside the block changes |
| DoubleVector.SetZero | src/main/java/net/imglib2/type/vector/DoubleVectorType.java:252-257 | Every component becomes 0. Nothing outside the block changes |
| DoubleVector.Scale | src/main/java/net/imglib2/type/vector/DoubleVectorType.java:259-271 | `mul(float)` and `mul(double)` multiply every component by the scalar. Nothing outside the block changes |
| DoubleVector.EntitiesPerPixel | src/main/java/net/imglib2/type/vector/DoubleVectorType.java:135-139 | The fraction is the slot stride: elements `k` indices apart start `k * numerator / denominator` slots apart |
| DoubleVector.IncIndex | src/main/java/net/imglib2/type/vector/DoubleVectorType.java:183-193 | Only the index changes. The new index is `idx + n` wrapped to a 32-bit `int`. Without overflow, every slot moves up by `n*vlen` |
| DoubleVector.DecIndex | src/main/java/net/imglib2/type/vector/DoubleVectorType.java:195-205 | Only the index changes. The new index is `idx - n` wrapped to a 32-bit `int`. Without overflow, every slot moves down by `n*vlen` |
| DoubleVector.IndexMoves | src/main/java/net/imglib2/type/vector/DoubleVectorType.java:171-205 | `updateIndex(i)` sets the index to `i`. `decIndex(n)` undoes `incIndex(n)` |
| DoubleMatrix2D.Sized | src/main/java/net/imglib2/type/matrix/DoubleMatrix2DType.java:77-84 | The (width, height) constructor gives a handle of that shape whose block consists exactly of its entries |
| DoubleMatrix2D.GetComponentReadsBlock | src/main/java/net/imglib2/type/matrix/DoubleMatrix2DType.java:270-273 | `getComponent(i, j)` for an entry of the shape reads the element's block at row-major offset `j*cols + i`, which is below `numElements` |
| DoubleMatrix2D.SetComponent | src/main/java/net/imglib2/type/matrix/DoubleMatrix2DType.java:284-287 | After `setComponent(i, j, v)` entry (i, j) reads `v`, and every other slot of the store is unchanged |
| DoubleMatrix2D.SlotInFootprint | src/main/java/net/imglib2/type/matrix/DoubleMatrix2DType.java:270-287 | Entry (i, j) of a `cols` x `rows` matrix lies within the first `cols*rows` slots of its element's block |
| DoubleMatrix2D.SlotsDistinct | src/main/java/net/imglib2/type/matrix/DoubleMatrix2DType.java:270-287 | Two entries with the same offset `j*cols + i` are the same entry |
| DoubleMatrix2D.SlotInjective | src/main/java/net/imglib2/type/matrix/DoubleMatrix2DType.java:270-287 | Distinct entries (i, j) have distinct slots. All of them lie in the element's footprint, and so in its block |
| DoubleMatrix2D.Disjoint | src/main/java/net/imglib2/type/matrix/DoubleMatrix2DType.java:270-287 | Two elements with the same layout and different indices never share a slot |
| DoubleMatrix2D.SetThenGetComponent | src/main/java/net/imglib2/type/matrix/DoubleMatrix2DType.java:270-287 | `getComponent(i, j)` after `setComponent(i, j, v)` gives `v`. Every other slot and every other element of the same layout is unchanged |
| DoubleMatrix2D.ApplyRows | src/main/java/net/imglib2/type/matrix/DoubleMatrix2DType.java:297-299 | The inner loop over rows `j, j+1, …` of column `i` writes `g` to those entries and to no other slot |
| DoubleMatrix2D.ApplyCols | src/main/java/net/imglib2/type/matrix/DoubleMatrix2DType.java:297-299 | The outer loop over columns `i, i+1, …` writes `g` to those columns and to no other slot |
| DoubleMatrix2D.Apply | src/main/java/net/imglib2/type/matrix/DoubleMatrix2DType.java:292-339 | The shared double loop writes `g(i, j, own, operand)` to every entry and changes nothing outside the footprint, including when the operand aliases the store |
| DoubleMatrix2D.FromNested | src/main/java/net/imglib2/type/matrix/DoubleMatrix2DType.java:117-131 | `double[][]` constructor. It fails exactly for an empty array or a column shorter than the first. Otherwise entry (i, j) is `values[i][j]` and the block is `cols*rows` slots |
| DoubleMatrix2D.FromFlat | src/main/java/net/imglib2/type/matrix/DoubleMatrix2DType.java:94-110 | Flat constructor as written. It fails exactly for an odd length or zero `cols`. Otherwise rows = length / cols, the block is the array length, and entry (i, j) is `values[i*j]` |
| DoubleMatrix2D.FromFlatMisplacesEntries | src/main/java/net/imglib2/type/matrix/DoubleMatrix2DType.java:107-109 | As written, store slot 1 receives `values[0]`, where the corrected constructor puts `values[1]` |
| DoubleMatrix2D.FromFlatCorrected | src/main/java/net/imglib2/type/matrix/DoubleMatrix2DType.java:94-110 | Corrected flat constructor: entry (i, j) is `values[j*cols + i]`. The error cases are unchanged |
| DoubleMatrix2D.FromFlatCorrectedRoundTrip | src/main/java/net/imglib2/type/matrix/DoubleMatrix2DType.java:94-110 | Corrected, an array whose length is a multiple of `cols` becomes the store unchanged |
| DoubleMatrix2D.CreateVariable | src/main/java/net/imglib2/type/matrix/DoubleMatrix2DType.java:155-159 | A fresh element of the same cols and rows, every entry 0. It fails exactly when `cols == 0`, because `values[0]` does not exist then |
| DoubleMatrix2D.Copy | src/main/java/net/imglib2/type/matrix/DoubleMatrix2DType.java:161-167 | A fresh element of the same shape that `valueEquals` the original, entry by entry. It fails exactly when `cols == 0` |
| DoubleMatrix2D.Set | src/main/java/net/imglib2/type/matrix/DoubleMatrix2DType.java:169-175 | Each entry becomes the operand's entry. Slots outside the footprint are unchanged |
| DoubleMatrix2D.EqualRows | src/main/java/net/imglib2/type/matrix/DoubleMatrix2DType.java:180-186 | The inner comparison loop returns true exactly when the remaining rows of column `i` agree |
| DoubleMatrix2D.EqualCols | src/main/java/net/imglib2/type/matrix/DoubleMatrix2DType.java:180-186 | The outer comparison loop returns true exactly when all entries in the remaining columns agree |
| DoubleMatrix2D.ValueEquals | src/main/java/net/imglib2/type/matrix/DoubleMatrix2DType.java:177-187 | True if and only if every entry (i, j) agrees |
| DoubleMatrix2D.SetThenValueEquals | src/main/java/net/imglib2/type/matrix/DoubleMatrix2DType.java:169-187 | After `set(c)`, `valueEquals(c)` holds, also when `c` shares the store |
| DoubleMatrix2D.Add | src/main/java/net/imglib2/type/matrix/DoubleMatrix2DType.java:292-300 | Each entry becomes own + operand. Nothing outside the footprint changes |
| DoubleMatrix2D.Mul | src/main/java/net/imglib2/type/matrix/DoubleMatrix2DType.java:305-313 | Each entry becomes own * operand (Hadamard product). Nothing outside the footprint changes |
| DoubleMatrix2D.Sub | src/main/java/net/imglib2/type/matrix/DoubleMatrix2DType.java:318-326 | Each entry becomes own - operand. Nothing outside the footprint changes |
| DoubleMatrix2D.Div | src/main/java/net/imglib2/type/matrix/DoubleMatrix2DType.java:331-339 | Each entry becomes own / operand. Nothing outside the footprint changes |
| DoubleMatrix2D.SetOne | src/main/java/net/imglib2/type/matrix/DoubleMatrix2DType.java:341-347 | Every entry becomes 1. Nothing outside the footprint changes |
| DoubleMatrix2D.SetZero | src/main/java/net/imglib2/type/matrix/DoubleMatrix2DType.java:349-355 | As written, every entry becomes 1. Nothing outside the footprint changes |
| DoubleMatrix2D.SetZeroIsSetOne | src/main/java/net/imglib2/type/matrix/DoubleMatrix2DType.java:341-355 | As written, `setZero()` leaves exactly the store `setOne()` leaves |
| DoubleMatrix2D.SetZeroCorrected | src/main/java/net/imglib2/type/matrix/DoubleMatrix2DType.java:349-355 | Corrected: every entry becomes 0. Nothing outside the footprint changes |
| DoubleMatrix2D.Scale | src/main/java/net/imglib2/type/matrix/DoubleMatrix2DType.java:357-371 | `mul(float)` and `mul(double)` multiply every entry by the scalar. Nothing outside the footprint changes |
| DoubleMatrix2D.EntitiesPerPixel | src/main/java/net/imglib2/type/matrix/DoubleMatrix2DType.java:189-193 | The fraction is the slot stride: elements `k` indices apart start `k * numerator / denominator` slots apart |
| DoubleMatrix2D.IncIndex | src/main/java/net/imglib2/type/matrix/DoubleMatrix2DType.java:237-247 | Only the index changes. The new index is `idx + n` wrapped to a 32-bit `int`. Without overflow, every slot moves up by `n*numElements` |
| DoubleMatrix2D.DecIndex | src/main/java/net/imglib2/type/matrix/DoubleMatrix2DType.java:249-259 | Only the index changes. The new index is `idx - n` wrapped to a 32-bit `int`. Without overflow, every slot moves down by `n*numElements` |
| DoubleMatrix2D.IndexMoves | src/main/java/net/imglib2/type/matrix/DoubleMatrix2DType.java:225-259 | `updateIndex(i)` sets the index to `i`. `decIndex(n)` undoes `incIndex(n)` |
| DefinedBounds.Bounds | src/test/java/net/imglib2/outofbounds/DefinedBoundsTest.java:112-118 | A view has an interval if and only if it is not (a translation of) an extension. A restriction reports its window. The interval has the view\'s dimensionality |
| DefinedBounds.DefinedBounds | src/test/java/net/imglib2/outofbounds/DefinedBoundsTest.java:96-122 | `definedBounds()` is `None` exactly when an extension lies somewhere in the chain. Otherwise it is an interval of the view's dimensionality |
| DefinedBounds.TranslatedBoundsDefined | src/test/java/net/imglib2/outofbounds/DefinedBoundsTest.java:112-114 | On an image and its translations, the interval the view reports equals its defined bounds |
| DefinedBounds.Expand | src/test/java/net/imglib2/outofbounds/DefinedBoundsTest.java:100-116 | `Intervals.expand` with a non-negative border keeps every position of the interval inside. With a non-positive border it admits no position outside |
| DefinedBounds.ShiftContains | src/test/java/net/imglib2/outofbounds/DefinedBoundsTest.java:112-114 | A position lies in a translated interval if and only if the position moved back lies in the original |
| DefinedBounds.DefinedBoundsSound | src/test/java/net/imglib2/outofbounds/DefinedBoundsTest.java:96-122 | Every position inside the defined bounds reads genuine image data |
| DefinedBounds.DefinedBoundsExact | src/test/java/net/imglib2/outofbounds/DefinedBoundsTest.java:104-118 | With no extension in the chain, a position reads image data if and only if it lies inside the defined bounds |
| DefinedBounds.TranslateInverse | src/test/java/net/imglib2/outofbounds/DefinedBoundsTest.java:112-114 | Translating by an offset and back leaves the defined bounds unchanged |
| DefinedBounds.TestImageInterval | src/test/java/net/imglib2/outofbounds/DefinedBoundsTest.java:63 | The 5 x 4 x 3 image spans (0,0,0)..(4,3,2) |
| DefinedBounds.ExtendScenario | src/test/java/net/imglib2/outofbounds/DefinedBoundsTest.java:96-102 | The extended image, and its restriction to the image interval grown by 2, have no defined bounds |
| DefinedBounds.RestrictScenario | src/test/java/net/imglib2/outofbounds/DefinedBoundsTest.java:104-110 | Restricting the image to its interval grown by 2 or shrunk by 1 reports the image interval |
| DefinedBounds.TranslateScenario | src/test/java/net/imglib2/outofbounds/DefinedBoundsTest.java:112-122 | Translated by (10,10,10), the image reports (10,10,10)..(14,13,12). It reports the same restricted to that interval shrunk by 2, and nothing once extended |
| DefinedBounds.LinearBounds | src/test/java/net/imglib2/outofbounds/DefinedBoundsTest.java:76-87 | A position inside the image has a flat index in `[0, product of dims)` |
| DefinedBounds.LinearInjective | src/test/java/net/imglib2/outofbounds/DefinedBoundsTest.java:76-87 | Distinct positions inside the image have distinct flat indices |
| DefinedBounds.FlatIndex | src/test/java/net/imglib2/outofbounds/DefinedBoundsTest.java:82-84 | The Horner loop from the last axis computes the positional value `pos[0] + dim[0]*(pos[1] + …)`, which lies in range for positions inside the image |
| DefinedBounds.TestImageIndex | src/test/java/net/imglib2/outofbounds/DefinedBoundsTest.java:63-87 | On the 5 x 4 x 3 image the flat index is `x + 5*(y + 4*z)`, below 60 |
| Unsigned2Bit.LongValue | src/test/java/net/imglib2/type/numeric/integer/Unsigned2BitTypeTest.java:104-106 | `BigInteger.longValue()` keeps the value modulo 2^64, and keeps it unchanged when it fits in a `long` |
| Unsigned2Bit.Low2 | src/test/java/net/imglib2/type/numeric/integer/Unsigned2BitTypeTest.java:100-106 | The low two bits of the two's complement lie in 0..3, equal the value modulo 4, and leave 0..3 unchanged |
| Unsigned2Bit.Get | src/test/java/net/imglib2/type/numeric/integer/Unsigned2BitTypeTest.java:93-107 | `get()` is always in 0..3 |
| Unsigned2Bit.Set | src/test/java/net/imglib2/type/numeric/integer/Unsigned2BitTypeTest.java:65-76 | After `set(v)` the element reads `v mod 4`, so `v` itself for `v` in 0..3. Every other element reads what it read before |
| Unsigned2Bit.SetBigInteger | src/test/java/net/imglib2/type/numeric/integer/Unsigned2BitTypeTest.java:104-106 | After `setBigInteger(b)` the element reads `b mod 4`. Other elements are unchanged |
| Unsigned2Bit.GetBigInteger | src/test/java/net/imglib2/type/numeric/integer/Unsigned2BitTypeTest.java:83-90 | `getBigInteger()` is in 0..3 and agrees with `get()` |
| Unsigned2Bit.BigIntegerRoundTrip | src/test/java/net/imglib2/type/numeric/integer/Unsigned2BitTypeTest.java:83-107 | For every `b`, negative included, `setBigInteger(b)` then `getBigInteger()` gives `b mod 4`, so `b` itself for `b` in 0..3. A value built from any `long` `v` gives `v mod 4` |
| Unsigned2Bit.Create | src/test/java/net/imglib2/type/numeric/integer/Unsigned2BitTypeTest.java:59 | A fresh container of `n` elements holds every element, each reading 0 |
| Unsigned2Bit.New | src/test/java/net/imglib2/type/numeric/integer/Unsigned2BitTypeTest.java:83-102 | `new Unsigned2BitType(v)` reads `v mod 4` |
| Unsigned2Bit.SetAll | src/test/java/net/imglib2/type/numeric/integer/Unsigned2BitTypeTest.java:65-76 | Writing `values[k]` to each element `k` in turn leaves every element reading its own value mod 4 |
| Unsigned2Bit.SetEveryElement | src/test/java/net/imglib2/type/numeric/integer/Unsigned2BitTypeTest.java:59-76 | On a 10 x 20 x 30 image, after a value in 0..3 is written to every element, every element reads back its value |
| Unsigned2Bit.TruncationExamples | src/test/java/net/imglib2/type/numeric/integer/Unsigned2BitTypeTest.java:83-107 | The value built from 10 reads 2, and still 2 after `setBigInteger(-122)`. Values built from 2 and 0 give 2 and 0 from `getBigInteger()` |

## Left out

- Container plumbing is not modelled: `createSuitableNativeImg`, `duplicateTypeOnSameNativeImg`, `updateContainer`, the `(vlen, container)` and `(width, height, container)` constructors, and `getIndex`. A handle is the pure datatype `(vlen, idx)` or `(cols, rows, numElements, idx)`, and the store is passed explicitly.
- Doubles are modelled as exact reals. IEEE rounding, infinities and NaN are not modelled, and neither is the `float`-to-`double` widening in `mul(float)`.
- DoubleVector.Div: requires every divisor component to be nonzero. Division by zero yields an IEEE infinity or NaN in the source, and reals have neither.
- DoubleMatrix2D.Div: requires every divisor entry to be nonzero, for the same reason.
- DoubleVector.Set: when the operand aliases the store (`SameStore`), both lengths must be equal. The source also allows aliased elements of different lengths, whose blocks may overlap arbitrarily.
- DoubleMatrix2D.Set: when the operand aliases the store, both must have the same layout, for the same reason.
- DoubleVector.Add: the binary operations require equal length and an operand whose whole block is in its store. The source reads only the first `vlen` components and states no precondition. The same holds for `Sub`, `Mul` and `Div`, and for the matrix operations, whose shape assertions are commented out in the source.
- Slot products such as `vlen*idx` and `numElements*idx`, and `width*height`, are computed without Java's 32-bit overflow. Only the index updates wrap. Negative sizes are excluded by `nat`.
- `incIndex()` and `decIndex()` without arguments are `IncIndex(t, 1)` and `DecIndex(t, 1)`. `updateIndex` carries no contract of its own; `IndexMoves` states it.
- Copy detachment (a copy shares no storage with the original) holds by construction, because stores are values.
- DefinedBounds.DefinedBounds: the view classes, `RandomAccess` and the out-of-bounds strategies (zero, mirror, periodic) are not modelled, only their effect on `definedBounds` and on which image position a view reads. An extension's synthesized values are not modelled.
- DefinedBounds.FlatIndex: uses unbounded integers. The source's `int` arithmetic cannot overflow for positions inside an image of fewer than 2^31 elements. The cursor's iteration order is not modelled.
- The storage layout of the 2-bit type (32 two-bit lanes per 64-bit word, element `i` in word `i / 32`, lane `i % 32`) is a choice of this model. The type's own implementation is not part of this model; its behaviour follows from its tests.
- The random values of the set-and-get test become an arbitrary input sequence.
- The `(vlen)` constructor of `DoubleVectorType` is the datatype constructor `DoubleVectorType(vlen, 0)`. In the source it attaches no storage, so any component access before a container is attached fails; that failure is not modelled.
- `MatrixExample` (a demo `main` that only prints), `RealAdapterFunction` (delegates to a function that is not part of this model) and the `Green` channel operation (a one-line subclass) are not part of this model.
- DoubleMatrix2D.FromFlat: assumes Java assertions are enabled, as they are in test runs. An odd length then fails at the length assertion. With assertions disabled, the source builds the matrix anyway with `rows = length / cols`, and the model does not cover that. The same holds for `FromFlatCorrected`.
- DoubleVector.GetComponent: requires the slot to be inside the store. `SetComponent`, `Set`, the arithmetic operations and their matrix counterparts likewise require their slots, or the operand's, to be inside the store. The source throws `ArrayIndexOutOfBoundsException` there, and the model does not cover that failure.
- Concurrency is not modelled.

## Findings

| source | as written | input that shows it | evidently intended | confidence | as-written member | corrected member |
|---|---|---|---|---|---|---|
| src/main/java/net/imglib2/type/matrix/DoubleMatrix2DType.java:349-355 | `setZero()` stores `1d` in every entry | any matrix: after `setZero()` every entry reads 1 | every entry becomes 0 | high, not executed | DoubleMatrix2D.SetZero, DoubleMatrix2D.SetZeroIsSetOne | DoubleMatrix2D.SetZeroCorrected |
| src/main/java/net/imglib2/type/matrix/DoubleMatrix2DType.java:107-109 | the flat-array constructor stores `values[i * j]` at entry (i, j) | `[1, 2, 3, 4]` with 2 columns: entry (1, 0) reads 1 instead of 2 | entry (i, j) receives `values[j*cols + i]`, the slot `getComponent(i, j)` reads; a column-major `values[i*rows + j]`, as in the `double[][]` constructor, is the other plausible reading | medium, not executed | DoubleMatrix2D.FromFlat, DoubleMatrix2D.FromFlatMisplacesEntries | DoubleMatrix2D.FromFlatCorrected, DoubleMatrix2D.FromFlatCorrectedRoundTrip |
