/**
 * Defined bounds of a chain of views over an array image.
 *
 * A view wraps an image or another view: a translation, a restriction to an
 * interval, or an out-of-bounds extension. `DefinedBounds` walks the chain
 * and reports the interval on which the view returns genuine image data, or
 * `None` when an extension sits anywhere below. `SourcePosition` is the
 * independent reading of the same chain: which image position, if any, a
 * view position reads.
 *
 * The second half models the flat index an array image gives a position:
 * `i = i*dim[d] + pos[d]`, run from the last axis down.
 */
module DefinedBounds {
  import opened Native

  /** An axis-aligned box with inclusive per-axis minimum and maximum. */
  datatype Interval = Interval(min: seq<int>, max: seq<int>)

  predicate ValidInterval(iv: Interval) {
    |iv.min| == |iv.max|
  }

  predicate Contains(iv: Interval, pos: seq<int>) {
    && |pos| == |iv.min| == |iv.max|
    && forall d | 0 <= d < |pos| :: iv.min[d] <= pos[d] <= iv.max[d]
  }

  /** The interval moved by `offset` on every axis. */
  function Shift(iv: Interval, offset: seq<int>): (r: Interval)
    requires ValidInterval(iv) && |offset| == |iv.min|
    ensures ValidInterval(r) && |r.min| == |iv.min|
  {
    Interval(seq(|offset|, d requires 0 <= d < |offset| => iv.min[d] + offset[d]),
             seq(|offset|, d requires 0 <= d < |offset| => iv.max[d] + offset[d]))
  }

  /** A position lies in the shifted interval exactly when the position moved back lies in the original. */
  lemma ShiftContains(iv: Interval, offset: seq<int>, pos: seq<int>)
    requires ValidInterval(iv) && |offset| == |iv.min| == |pos|
    ensures Contains(Shift(iv, offset), pos) <==> Contains(iv, Unshift(pos, offset))
  {
    var r, u := Shift(iv, offset), Unshift(pos, offset);
    if Contains(r, pos) {
      forall d | 0 <= d < |pos| ensures iv.min[d] <= u[d] <= iv.max[d] {
        assert r.min[d] <= pos[d] <= r.max[d];
      }
    }
    if Contains(iv, u) {
      forall d | 0 <= d < |pos| ensures r.min[d] <= pos[d] <= r.max[d] {
        assert iv.min[d] <= u[d] <= iv.max[d];
      }
    }
  }

  /**
   * `Intervals.expand(iv, border)`: every axis grows by `border` on both
   * sides, so a non-negative border keeps every position of `iv` inside and
   * a non-positive one admits no position outside `iv`.
   */
  function Expand(iv: Interval, border: int): (r: Interval)
    requires ValidInterval(iv)
    ensures ValidInterval(r) && |r.min| == |iv.min|
    ensures border >= 0 ==> forall pos | Contains(iv, pos) :: Contains(r, pos)
    ensures border <= 0 ==> forall pos | Contains(r, pos) :: Contains(iv, pos)
  {
    Interval(seq(|iv.min|, d requires 0 <= d < |iv.min| => iv.min[d] - border),
             seq(|iv.max|, d requires 0 <= d < |iv.max| => iv.max[d] + border))
  }

  function Negate(offset: seq<int>): (r: seq<int>)
    ensures |r| == |offset|
  {
    seq(|offset|, d requires 0 <= d < |offset| => -offset[d])
  }

  /** Position `pos` moved back by `offset`: the source position a translation reads. */
  function Unshift(pos: seq<int>, offset: seq<int>): (r: seq<int>)
    requires |pos| == |offset|
    ensures |r| == |pos|
  {
    seq(|pos|, d requires 0 <= d < |pos| => pos[d] - offset[d])
  }

  datatype View =
    | Img(interval: Interval)
    | Translate(source: View, offset: seq<int>)
    | Restrict(source: View, window: Interval)
    | Extend(source: View)

  function NumDims(v: View): nat {
    match v
    case Img(iv) => |iv.min|
    case Translate(src, _) => NumDims(src)
    case Restrict(src, _) => NumDims(src)
    case Extend(src) => NumDims(src)
  }

  /** The view has an interval: everything except an extension, or a translation of one. */
  predicate Bounded(v: View) {
    match v
    case Img(_) => true
    case Translate(src, _) => Bounded(src)
    case Restrict(_, _) => true
    case Extend(_) => false
  }

  /** Dimensions agree along the chain, and only bounded views are extended. */
  predicate WellFormed(v: View) {
    match v
    case Img(iv) => ValidInterval(iv)
    case Translate(src, off) => WellFormed(src) && |off| == NumDims(src)
    case Restrict(src, w) => WellFormed(src) && ValidInterval(w) && |w.min| == NumDims(src)
    case Extend(src) => WellFormed(src) && Bounded(src)
  }

  predicate HasExtension(v: View) {
    match v
    case Img(_) => false
    case Translate(src, _) => HasExtension(src)
    case Restrict(src, _) => HasExtension(src)
    case Extend(_) => true
  }

  /** The interval of a view, as the view reports it; an extension has none. */
  function Bounds(v: View): (r: Option<Interval>)
    requires WellFormed(v)
    ensures r.Some? <==> Bounded(v)
    ensures r.Some? ==> ValidInterval(r.value) && |r.value.min| == NumDims(v)
    ensures v.Restrict? ==> r == Some(v.window)
  {
    match v
    case Img(iv) => Some(iv)
    case Translate(src, off) =>
      (match Bounds(src)
       case None => None
       case Some(b) => Some(Shift(b, off)))
    case Restrict(_, w) => Some(w)
    case Extend(_) => None
  }

  /**
   * `definedBounds()`: an image reports its own interval, a translation
   * shifts its source's answer, a restriction passes its source's answer
   * through whatever the window, and an extension reports none.
   */
  function DefinedBounds(v: View): (r: Option<Interval>)
    requires WellFormed(v)
    ensures r.None? <==> HasExtension(v)
    ensures r.Some? ==> ValidInterval(r.value) && |r.value.min| == NumDims(v)
  {
    match v
    case Img(iv) => Some(iv)
    case Translate(src, off) =>
      (match DefinedBounds(src)
       case None => None
       case Some(b) => Some(Shift(b, off)))
    case Restrict(src, _) => DefinedBounds(src)
    case Extend(_) => None
  }

  /**
   * The image position whose stored value the view returns at `pos`, or
   * `None` when the value is synthesized by an extension or `pos` misses
   * the image.
   */
  function SourcePosition(v: View, pos: seq<int>): Option<seq<int>>
    requires WellFormed(v) && |pos| == NumDims(v)
  {
    match v
    case Img(iv) => if Contains(iv, pos) then Some(pos) else None
    case Translate(src, off) => SourcePosition(src, Unshift(pos, off))
    case Restrict(src, _) => SourcePosition(src, pos)
    case Extend(src) => if Contains(Bounds(src).value, pos) then SourcePosition(src, pos) else None
  }

  /** Every position inside the defined bounds reads genuine image data. */
  lemma {:induction false} DefinedBoundsSound(v: View, pos: seq<int>)
    requires WellFormed(v) && DefinedBounds(v).Some? && Contains(DefinedBounds(v).value, pos)
    ensures SourcePosition(v, pos).Some?
  {
    match v
    case Img(_) =>
    case Translate(src, off) =>
      ShiftContains(DefinedBounds(src).value, off, pos);
      DefinedBoundsSound(src, Unshift(pos, off));
    case Restrict(src, _) =>
      DefinedBoundsSound(src, pos);
  }

  /**
   * Without an extension in the chain the defined bounds are exact: a
   * position reads genuine image data if and only if it lies inside them.
   */
  lemma {:induction false} DefinedBoundsExact(v: View, pos: seq<int>)
    requires WellFormed(v) && !HasExtension(v) && |pos| == NumDims(v)
    ensures DefinedBounds(v).Some?
    ensures Contains(DefinedBounds(v).value, pos) <==> SourcePosition(v, pos).Some?
  {
    match v
    case Img(_) =>
    case Translate(src, off) =>
      DefinedBoundsExact(src, Unshift(pos, off));
      ShiftContains(DefinedBounds(src).value, off, pos);
    case Restrict(src, _) =>
      DefinedBoundsExact(src, pos);
  }

  /** The chain consists of translations of an image only. */
  predicate TranslatedImage(v: View) {
    match v
    case Img(_) => true
    case Translate(src, _) => TranslatedImage(src)
    case Restrict(_, _) => false
    case Extend(_) => false
  }

  /**
   * On an image and its translations the interval a view reports is its
   * defined bounds: the image interval moved by every offset on the way.
   */
  lemma {:induction false} TranslatedBoundsDefined(v: View)
    requires WellFormed(v) && TranslatedImage(v)
    ensures Bounds(v).Some? && Bounds(v) == DefinedBounds(v)
  {
    match v
    case Img(_) =>
    case Translate(src, _) =>
      TranslatedBoundsDefined(src);
  }

  /** Translating by `offset` and then by `-offset` leaves the defined bounds unchanged. */
  lemma TranslateInverse(v: View, offset: seq<int>)
    requires WellFormed(v) && |offset| == NumDims(v)
    ensures WellFormed(Translate(Translate(v, offset), Negate(offset)))
    ensures DefinedBounds(Translate(Translate(v, offset), Negate(offset))) == DefinedBounds(v)
  {
    match DefinedBounds(v)
    case None =>
    case Some(b) =>
      var back := Shift(Shift(b, offset), Negate(offset));
      assert back.min == b.min by {
        forall d | 0 <= d < |b.min| ensures back.min[d] == b.min[d] {
          assert Shift(b, offset).min[d] == b.min[d] + offset[d];
        }
      }
      assert back.max == b.max by {
        forall d | 0 <= d < |b.max| ensures back.max[d] == b.max[d] {
          assert Shift(b, offset).max[d] == b.max[d] + offset[d];
        }
      }
  }

  /** The interval of an image with dimensions `dim`: from the origin to `dim - 1`. */
  function ImageInterval(dim: seq<int>): (r: Interval)
    ensures ValidInterval(r) && |r.min| == |dim|
  {
    Interval(seq(|dim|, _ => 0), seq(|dim|, d requires 0 <= d < |dim| => dim[d] - 1))
  }

  /** The 5 x 4 x 3 image of the defined-bounds test. */
  const TestImage: View := Img(Interval([0, 0, 0], [4, 3, 2]))

  lemma TestImageInterval()
    ensures ImageInterval([5, 4, 3]) == TestImage.interval
  {
  }

  /** An extended image has no defined bounds, also after restricting it to its interval grown by 2. */
  lemma ExtendScenario()
    ensures WellFormed(Extend(TestImage)) && DefinedBounds(Extend(TestImage)).None?
    ensures WellFormed(Restrict(Extend(TestImage), Expand(TestImage.interval, 2)))
    ensures DefinedBounds(Restrict(Extend(TestImage), Expand(TestImage.interval, 2))).None?
  {
  }

  /** Restricting the image to its interval grown by 2 or shrunk by 1 reports the image interval. */
  lemma RestrictScenario()
    ensures WellFormed(Restrict(TestImage, Expand(TestImage.interval, 2)))
    ensures DefinedBounds(Restrict(TestImage, Expand(TestImage.interval, 2))) == Some(TestImage.interval)
    ensures WellFormed(Restrict(TestImage, Expand(TestImage.interval, -1)))
    ensures DefinedBounds(Restrict(TestImage, Expand(TestImage.interval, -1))) == Some(TestImage.interval)
  {
  }

  /**
   * Translating the image by (10, 10, 10) reports (10, 10, 10)..(14, 13, 12),
   * also after restricting to that interval shrunk by 2; extending the
   * translated view reports no bounds.
   */
  lemma TranslateScenario()
    ensures WellFormed(Translate(TestImage, [10, 10, 10]))
    ensures DefinedBounds(Translate(TestImage, [10, 10, 10])) == Some(Interval([10, 10, 10], [14, 13, 12]))
    ensures var tr := Translate(TestImage, [10, 10, 10]);
            && WellFormed(Restrict(tr, Expand(Bounds(tr).value, -2)))
            && DefinedBounds(Restrict(tr, Expand(Bounds(tr).value, -2))) == Some(Interval([10, 10, 10], [14, 13, 12]))
    ensures WellFormed(Extend(Translate(TestImage, [10, 10, 10])))
    ensures DefinedBounds(Extend(Translate(TestImage, [10, 10, 10]))).None?
  {
    var moved := Shift(TestImage.interval, [10, 10, 10]);
    assert moved.min == [10, 10, 10];
    assert moved.max == [14, 13, 12];
  }

  // ---- flat index of a position in an array image ----

  /** Number of elements of an image with dimensions `dim`. */
  function Size(dim: seq<int>): int {
    if |dim| == 0 then 1 else dim[0] * Size(dim[1..])
  }

  /** Reference value `pos[0] + dim[0]*(pos[1] + dim[1]*(pos[2] + …))`. */
  function Linear(dim: seq<int>, pos: seq<int>): int
    requires |pos| == |dim|
  {
    if |pos| == 0 then 0 else pos[0] + dim[0] * Linear(dim[1..], pos[1..])
  }

  predicate InImage(dim: seq<int>, pos: seq<int>) {
    |pos| == |dim| && forall d | 0 <= d < |dim| :: 0 <= pos[d] < dim[d]
  }

  /** A position inside the image has a flat index in `[0, Size(dim))`. */
  lemma {:induction false} LinearBounds(dim: seq<int>, pos: seq<int>)
    requires InImage(dim, pos)
    ensures 0 <= Linear(dim, pos) < Size(dim)
  {
    if |pos| > 0 {
      assert InImage(dim[1..], pos[1..]);
      LinearBounds(dim[1..], pos[1..]);
      var rest := Linear(dim[1..], pos[1..]);
      MulMonotone(dim[0], rest + 1, Size(dim[1..]));
    }
  }

  /** A mixed-radix digit `x < n` and the carry `a` are determined by `x + n*a`. */
  lemma DigitsUnique(n: int, x: int, a: int, y: int, b: int)
    requires 0 <= x < n && 0 <= y < n && x + n * a == y + n * b
    ensures x == y && a == b
  {
    if a < b {
      MulMonotone(n, a + 1, b);
    } else if b < a {
      MulMonotone(n, b + 1, a);
    }
  }

  /** Distinct positions inside the image have distinct flat indices. */
  lemma {:induction false} LinearInjective(dim: seq<int>, p: seq<int>, q: seq<int>)
    requires InImage(dim, p) && InImage(dim, q) && Linear(dim, p) == Linear(dim, q)
    ensures p == q
  {
    if |dim| > 0 {
      assert InImage(dim[1..], p[1..]) && InImage(dim[1..], q[1..]);
      DigitsUnique(dim[0], p[0], Linear(dim[1..], p[1..]), q[0], Linear(dim[1..], q[1..]));
      LinearInjective(dim[1..], p[1..], q[1..]);
      assert p == [p[0]] + p[1..] && q == [q[0]] + q[1..];
    }
  }

  /**
   * The flat-index loop of the defined-bounds test: `i = i*dim[d] + pos[d]`
   * for `d` from the last axis down to 0.
   */
  method FlatIndex(dim: seq<int>, pos: seq<int>) returns (i: int)
    requires |pos| == |dim|
    ensures i == Linear(dim, pos)
    ensures InImage(dim, pos) ==> 0 <= i < Size(dim)
  {
    i := 0;
    var d := |dim|;
    while d > 0
      invariant 0 <= d <= |dim|
      invariant i == Linear(dim[d..], pos[d..])
    {
      d := d - 1;
      assert dim[d..][1..] == dim[d + 1..] && pos[d..][1..] == pos[d + 1..];
      i := i * dim[d] + pos[d];
    }
    assert dim[0..] == dim && pos[0..] == pos;
    if InImage(dim, pos) {
      LinearBounds(dim, pos);
    }
  }

  /** On the 5 x 4 x 3 test image the flat index is `x + 5*(y + 4*z)`, below 60. */
  lemma TestImageIndex(pos: seq<int>)
    requires |pos| == 3
    ensures Linear([5, 4, 3], pos) == pos[0] + 5 * (pos[1] + 4 * pos[2])
    ensures InImage([5, 4, 3], pos) ==> 0 <= Linear([5, 4, 3], pos) < 60
  {
    var dim := [5, 4, 3];
    assert dim[1..] == [4, 3] && dim[1..][1..] == [3] && dim[1..][1..][1..] == [];
    assert Linear([3], pos[2..]) == pos[2] by {
      assert pos[2..][1..] == [];
    }
    assert Linear([4, 3], pos[1..]) == pos[1] + 4 * pos[2] by {
      assert pos[1..][1..] == pos[2..];
    }
    assert Size([3]) == 3 && Size([4, 3]) == 12 && Size(dim) == 60;
    if InImage(dim, pos) {
      LinearBounds(dim, pos);
    }
  }
}
