/**
 * `DoubleVectorType`: a pixel whose value is a vector of `vlen` doubles.
 *
 * A handle is the pair (vlen, idx); the doubles live in a flat backing
 * store, component `d` of element `idx` at slot `vlen*idx + d`. Each mutator
 * of the source is a loop over `d < vlen` calling `setComponent`; here it is
 * a pure function from the old store to the new one.
 */
module DoubleVector {
  import opened Native

  datatype DoubleVectorType = DoubleVectorType(vlen: nat, idx: Int32)

  /** A handle together with a store of its own, as built by the array constructor. */
  datatype Variable = Variable(handle: DoubleVectorType, store: seq<real>)

  /** First slot of the element's block. */
  function Base(t: DoubleVectorType): int {
    t.vlen * t.idx
  }

  /** Slot of component `d`. */
  function Slot(t: DoubleVectorType, d: int): int {
    Base(t) + d
  }

  /** Slot `k` belongs to the block of element `t`. */
  predicate InBlock(t: DoubleVectorType, k: int) {
    Base(t) <= k < Base(t) + t.vlen
  }

  /** The first `n` components of `t`, starting at its block, are inside store `s`. */
  predicate Readable(t: DoubleVectorType, n: nat, s: seq<real>) {
    0 <= Base(t) && Base(t) + n <= |s|
  }

  /** The whole block of `t` is inside store `s`. */
  predicate InStore(t: DoubleVectorType, s: seq<real>) {
    Readable(t, t.vlen, s)
  }

  /** The element's block: the `vlen` slots from `vlen*idx` on. */
  function Block(s: seq<real>, t: DoubleVectorType): seq<real>
    requires InStore(t, s)
  {
    s[Base(t)..Base(t) + t.vlen]
  }

  /** `getComponent(d)`: slot `vlen*idx + d`, which for `d < vlen` lies in the element's block. */
  function GetComponent(s: seq<real>, t: DoubleVectorType, d: int): (r: real)
    requires 0 <= Slot(t, d) < |s|
    ensures 0 <= d < t.vlen ==> InBlock(t, Slot(t, d))
  {
    s[Slot(t, d)]
  }

  /** Component `d < vlen` of an element is the `d`-th value of its block. */
  lemma GetComponentReadsBlock(s: seq<real>, t: DoubleVectorType, d: int)
    requires InStore(t, s) && 0 <= d < t.vlen
    ensures GetComponent(s, t, d) == Block(s, t)[d]
  {
  }

  /** `setComponent(d, v)`: slot `vlen*idx + d` now holds `v`, and no other slot changes. */
  function SetComponent(s: seq<real>, t: DoubleVectorType, d: int, v: real): (r: seq<real>)
    requires 0 <= Slot(t, d) < |s|
    ensures |r| == |s|
    ensures GetComponent(r, t, d) == v
    ensures forall k | 0 <= k < |s| && k != Slot(t, d) :: r[k] == s[k]
  {
    s[Slot(t, d) := v]
  }

  /**
   * Component `d` of element `idx` lies in that element's block, and two
   * elements of the same length never share a slot.
   */
  lemma Layout(a: DoubleVectorType, b: DoubleVectorType)
    ensures forall d | 0 <= d < a.vlen :: InBlock(a, Slot(a, d))
    ensures a.vlen == b.vlen && a.idx != b.idx ==>
              forall d | 0 <= d < a.vlen :: !InBlock(b, Slot(a, d))
  {
    if a.vlen == b.vlen && a.idx != b.idx {
      var n := a.vlen;
      if a.idx < b.idx {
        MulMonotone(n, a.idx + 1, b.idx);
      } else {
        MulMonotone(n, b.idx + 1, a.idx);
      }
    }
  }

  /**
   * `setComponent(d, v)` then `getComponent(d)` gives `v`; every other slot
   * keeps its value, so the other components of this element and every
   * component of any other element of the same length are unchanged.
   */
  lemma SetThenGetComponent(s: seq<real>, t: DoubleVectorType, d: int, v: real, u: DoubleVectorType)
    requires InStore(t, s) && 0 <= d < t.vlen
    ensures GetComponent(SetComponent(s, t, d, v), t, d) == v
    ensures forall k | 0 <= k < |s| && k != Slot(t, d) :: SetComponent(s, t, d, v)[k] == s[k]
    ensures forall e | 0 <= e < t.vlen && e != d ::
              GetComponent(SetComponent(s, t, d, v), t, e) == GetComponent(s, t, e)
    ensures u.vlen == t.vlen && u.idx != t.idx && InStore(u, s) ==>
              forall e | 0 <= e < u.vlen :: GetComponent(SetComponent(s, t, d, v), u, e) == GetComponent(s, u, e)
  {
    Layout(u, t);
  }

  /**
   * The loop shared by every operation: for `e = d, d+1, …, vlen-1`,
   * `setComponent(e, g(e, getComponent(e), c.getComponent(e)))`.
   * When `c` lives in the store being written, each read sees the writes
   * already made, exactly as in the source.
   */
  function Apply(s: seq<real>, t: DoubleVectorType, src: Source, c: DoubleVectorType,
                 g: (int, real, real) -> real, d: nat): (r: seq<real>)
    requires InStore(t, s) && d <= t.vlen
    requires Readable(c, t.vlen, Read(src, s))
    requires src.SameStore? ==> c.vlen == t.vlen
    ensures |r| == |s|
    ensures forall k | 0 <= k < |s| && !(Slot(t, d) <= k < Slot(t, t.vlen)) :: r[k] == s[k]
    ensures forall e | d <= e < t.vlen ::
              r[Slot(t, e)] == g(e, s[Slot(t, e)], Read(src, s)[Slot(c, e)])
    decreases t.vlen - d
  {
    if d == t.vlen then s
    else
      Layout(c, t);
      var s' := SetComponent(s, t, d, g(d, GetComponent(s, t, d), GetComponent(Read(src, s), c, d)));
      Apply(s', t, src, c, g, d + 1)
  }

  /** `new DoubleVectorType(values)`: a fresh store holding `values`, handle at index 0. */
  function FromValues(values: seq<real>): (v: Variable)
    ensures v.handle.vlen == |values| && v.handle.idx == 0
    ensures v.store == values
    ensures InStore(v.handle, v.store)
    ensures forall d | 0 <= d < |values| :: GetComponent(v.store, v.handle, d) == values[d]
  {
    var t := DoubleVectorType(|values|, 0);
    // the source array read as the components of element 0
    var r := Apply(seq(|values|, _ => 0.0), t, OtherStore(values), t, (d, a, b) => b, 0);
    assert forall d | 0 <= d < |values| :: r[Slot(t, d)] == values[d];
    Variable(t, r)
  }

  /** `createVariable()`: a detached element of the same length, every component 0. */
  function CreateVariable(t: DoubleVectorType): (v: Variable)
    ensures v.handle.vlen == t.vlen && v.handle.idx == 0
    ensures InStore(v.handle, v.store) && |v.store| == t.vlen
    ensures forall d | 0 <= d < t.vlen :: GetComponent(v.store, v.handle, d) == 0.0
  {
    FromValues(seq(t.vlen, _ => 0.0))
  }

  /** `set(c)`: component `d` of this element becomes component `d` of `c`, for `d < vlen`. */
  function Set(s: seq<real>, t: DoubleVectorType, src: Source, c: DoubleVectorType): (r: seq<real>)
    requires InStore(t, s) && Readable(c, t.vlen, Read(src, s))
    requires src.SameStore? ==> c.vlen == t.vlen
    ensures |r| == |s|
    ensures forall d | 0 <= d < t.vlen :: GetComponent(r, t, d) == GetComponent(Read(src, s), c, d)
    ensures forall k | 0 <= k < |s| && !InBlock(t, k) :: r[k] == s[k]
  {
    Apply(s, t, src, c, (d, a, b) => b, 0)
  }

  /** The comparison loop of `valueEquals`, from component `d` on. */
  function EqualFrom(s: seq<real>, t: DoubleVectorType, src: Source, c: DoubleVectorType, d: nat): (r: bool)
    requires InStore(t, s) && Readable(c, t.vlen, Read(src, s)) && d <= t.vlen
    ensures r <==> forall e | d <= e < t.vlen :: GetComponent(Read(src, s), c, e) == GetComponent(s, t, e)
    decreases t.vlen - d
  {
    if d == t.vlen then true
    else if GetComponent(Read(src, s), c, d) != GetComponent(s, t, d) then false
    else EqualFrom(s, t, src, c, d + 1)
  }

  /** `valueEquals(c)`: true exactly when the first `vlen` components agree. */
  function ValueEquals(s: seq<real>, t: DoubleVectorType, src: Source, c: DoubleVectorType): (r: bool)
    requires InStore(t, s) && Readable(c, t.vlen, Read(src, s))
    ensures r <==> forall d | 0 <= d < t.vlen :: GetComponent(Read(src, s), c, d) == GetComponent(s, t, d)
  {
    EqualFrom(s, t, src, c, 0)
  }

  /** `copy()`: a detached element of the same length holding the same value. */
  function Copy(s: seq<real>, t: DoubleVectorType): (v: Variable)
    requires InStore(t, s)
    ensures v.handle.vlen == t.vlen && v.handle.idx == 0 && InStore(v.handle, v.store)
    ensures ValueEquals(v.store, v.handle, OtherStore(s), t)
    ensures forall d | 0 <= d < t.vlen :: GetComponent(v.store, v.handle, d) == GetComponent(s, t, d)
  {
    var w := CreateVariable(t);
    Variable(w.handle, Set(w.store, w.handle, OtherStore(s), t))
  }

  /** After `set(c)`, `valueEquals(c)` holds, also when `c` shares the store. */
  lemma SetThenValueEquals(s: seq<real>, t: DoubleVectorType, src: Source, c: DoubleVectorType)
    requires InStore(t, s) && Readable(c, t.vlen, Read(src, s))
    requires src.SameStore? ==> c.vlen == t.vlen
    ensures ValueEquals(Set(s, t, src, c), t, src, c)
  {
    var r := Set(s, t, src, c);
    if src.SameStore? && c.idx != t.idx {
      Layout(c, t);
      forall d | 0 <= d < t.vlen
        ensures GetComponent(r, c, d) == GetComponent(r, t, d)
      {
        assert !InBlock(t, Slot(c, d));
      }
    }
  }

  /** `add(c)`: component-wise sum; only this element's block changes. */
  function Add(s: seq<real>, t: DoubleVectorType, src: Source, c: DoubleVectorType): (r: seq<real>)
    requires InStore(t, s) && c.vlen == t.vlen && InStore(c, Read(src, s))
    ensures |r| == |s|
    ensures forall d | 0 <= d < t.vlen ::
              GetComponent(r, t, d) == GetComponent(s, t, d) + GetComponent(Read(src, s), c, d)
    ensures forall k | 0 <= k < |s| && !InBlock(t, k) :: r[k] == s[k]
  {
    Apply(s, t, src, c, (d, a, b) => a + b, 0)
  }

  /** `sub(c)`: component-wise difference; only this element's block changes. */
  function Sub(s: seq<real>, t: DoubleVectorType, src: Source, c: DoubleVectorType): (r: seq<real>)
    requires InStore(t, s) && c.vlen == t.vlen && InStore(c, Read(src, s))
    ensures |r| == |s|
    ensures forall d | 0 <= d < t.vlen ::
              GetComponent(r, t, d) == GetComponent(s, t, d) - GetComponent(Read(src, s), c, d)
    ensures forall k | 0 <= k < |s| && !InBlock(t, k) :: r[k] == s[k]
  {
    Apply(s, t, src, c, (d, a, b) => a - b, 0)
  }

  /** `mul(c)`: component-wise product; only this element's block changes. */
  function Mul(s: seq<real>, t: DoubleVectorType, src: Source, c: DoubleVectorType): (r: seq<real>)
    requires InStore(t, s) && c.vlen == t.vlen && InStore(c, Read(src, s))
    ensures |r| == |s|
    ensures forall d | 0 <= d < t.vlen ::
              GetComponent(r, t, d) == GetComponent(s, t, d) * GetComponent(Read(src, s), c, d)
    ensures forall k | 0 <= k < |s| && !InBlock(t, k) :: r[k] == s[k]
  {
    Apply(s, t, src, c, (d, a, b) => a * b, 0)
  }

  /** `div(c)`: component-wise quotient; only this element's block changes. */
  function Div(s: seq<real>, t: DoubleVectorType, src: Source, c: DoubleVectorType): (r: seq<real>)
    requires InStore(t, s) && c.vlen == t.vlen && InStore(c, Read(src, s))
    requires forall d | 0 <= d < t.vlen :: GetComponent(Read(src, s), c, d) != 0.0
    ensures |r| == |s|
    ensures forall d | 0 <= d < t.vlen ::
              GetComponent(r, t, d) == GetComponent(s, t, d) / GetComponent(Read(src, s), c, d)
    ensures forall k | 0 <= k < |s| && !InBlock(t, k) :: r[k] == s[k]
  {
    Apply(s, t, src, c, (d, a, b) => if b == 0.0 then 0.0 else a / b, 0)
  }

  /** `setOne()`: every component becomes 1. */
  function SetOne(s: seq<real>, t: DoubleVectorType): (r: seq<real>)
    requires InStore(t, s)
    ensures |r| == |s|
    ensures forall d | 0 <= d < t.vlen :: GetComponent(r, t, d) == 1.0
    ensures forall k | 0 <= k < |s| && !InBlock(t, k) :: r[k] == s[k]
  {
    Apply(s, t, SameStore, t, (d, a, b) => 1.0, 0)
  }

  /** `setZero()`: every component becomes 0. */
  function SetZero(s: seq<real>, t: DoubleVectorType): (r: seq<real>)
    requires InStore(t, s)
    ensures |r| == |s|
    ensures forall d | 0 <= d < t.vlen :: GetComponent(r, t, d) == 0.0
    ensures forall k | 0 <= k < |s| && !InBlock(t, k) :: r[k] == s[k]
  {
    Apply(s, t, SameStore, t, (d, a, b) => 0.0, 0)
  }

  /** `mul(x)` for a `float` or `double` scalar: every component is scaled by `x`. */
  function Scale(s: seq<real>, t: DoubleVectorType, x: real): (r: seq<real>)
    requires InStore(t, s)
    ensures |r| == |s|
    ensures forall d | 0 <= d < t.vlen :: GetComponent(r, t, d) == GetComponent(s, t, d) * x
    ensures forall k | 0 <= k < |s| && !InBlock(t, k) :: r[k] == s[k]
  {
    Apply(s, t, SameStore, t, (d, a, b) => a * x, 0)
  }

  /** `getEntitiesPerPixel()`: the number of store slots between consecutive elements. */
  function EntitiesPerPixel(t: DoubleVectorType): (r: Fraction)
    ensures r.denominator > 0
    ensures forall u: DoubleVectorType | u.vlen == t.vlen ::
              (Base(u) - Base(t)) * r.denominator == (u.idx - t.idx) * r.numerator
  {
    Fraction(t.vlen, 1)
  }

  /** `updateIndex(i)`. */
  function UpdateIndex(t: DoubleVectorType, i: Int32): DoubleVectorType {
    t.(idx := i)
  }

  /** `incIndex(n)`; `incIndex()` is `IncIndex(t, 1)`. Without overflow every slot moves `n` blocks up. */
  function IncIndex(t: DoubleVectorType, n: Int32): (r: DoubleVectorType)
    ensures r == t.(idx := r.idx)
    ensures (r.idx - (t.idx + n)) % INT_RANGE == 0
    ensures INT_MIN <= t.idx + n <= INT_MAX ==>
              forall d :: Slot(r, d) == Slot(t, d) + n * t.vlen
  {
    t.(idx := Advance(t.idx, n))
  }

  /** `decIndex(n)`; `decIndex()` is `DecIndex(t, 1)`. Without overflow every slot moves `n` blocks down. */
  function DecIndex(t: DoubleVectorType, n: Int32): (r: DoubleVectorType)
    ensures r == t.(idx := r.idx)
    ensures (r.idx - (t.idx - n)) % INT_RANGE == 0
    ensures INT_MIN <= t.idx - n <= INT_MAX ==>
              forall d :: Slot(r, d) == Slot(t, d) - n * t.vlen
  {
    t.(idx := Retreat(t.idx, n))
  }

  /** `updateIndex(i)` then `getIndex()` is `i`; `incIndex(n)` then `decIndex(n)` restores the handle. */
  lemma IndexMoves(t: DoubleVectorType, i: Int32, n: Int32)
    ensures UpdateIndex(t, i).idx == i
    ensures DecIndex(IncIndex(t, n), n) == t
  {
    AdvanceRetreat(t.idx, n);
  }
}
