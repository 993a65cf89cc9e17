/**
 * Definitions shared by the native pixel types: Java's 32-bit `int` for
 * element indices, the `Fraction` that reports storage density, an optional
 * result, and where the operand of a two-element operation is read from.
 */
module Native {

  /** Java `int`: the type of the element index `idx`. */
  const INT_MIN: int := -0x8000_0000
  const INT_MAX: int := 0x7fff_ffff
  const INT_RANGE: int := 0x1_0000_0000

  type Int32 = x: int | INT_MIN <= x <= INT_MAX

  /** Java's `int` arithmetic: the unique value in range congruent to `x` modulo 2^32. */
  function WrapInt(x: int): (r: Int32)
    ensures (r - x) % INT_RANGE == 0
    ensures INT_MIN <= x <= INT_MAX ==> r == x
  {
    (x - INT_MIN) % INT_RANGE + INT_MIN
  }

  /** `idx += n` on a Java `int`. */
  function Advance(i: Int32, n: Int32): Int32 {
    WrapInt(i + n)
  }

  /** `idx -= n` on a Java `int`. */
  function Retreat(i: Int32, n: Int32): Int32 {
    WrapInt(i - n)
  }

  /** Two values congruent modulo 2^32 wrap to the same `int`. */
  lemma WrapCongruent(x: int, y: int)
    requires (x - y) % INT_RANGE == 0
    ensures WrapInt(x) == WrapInt(y)
  {
    var k := (x - y) / INT_RANGE;
    assert x - INT_MIN == (y - INT_MIN) + k * INT_RANGE;
  }

  /** Moving an index forward by `n` and back by `n` restores it, overflow or not. */
  lemma AdvanceRetreat(i: Int32, n: Int32)
    ensures Retreat(Advance(i, n), n) == i
  {
    WrapCongruent(Advance(i, n) - n, i);
  }

  /** The ratio `numerator/denominator` returned by `getEntitiesPerPixel`. */
  /** Multiplying by a natural number keeps `<=`. */
  lemma MulMonotone(n: nat, x: int, y: int)
    requires x <= y
    ensures n * x <= n * y
  {
    assert n * y - n * x == n * (y - x);
  }

  datatype Fraction = Fraction(numerator: int, denominator: int)

  datatype Option<T> = None | Some(value: T)

  /**
   * Where the operand `c` of `set`, `valueEquals`, `add`, ... keeps its
   * components: in the very store being updated (two handles on one image)
   * or in a store of its own.
   */
  datatype Source = SameStore | OtherStore(values: seq<real>)

  /** The store the operand is read from, given the store being updated. */
  function Read(src: Source, current: seq<real>): seq<real> {
    match src
    case SameStore => current
    case OtherStore(values) => values
  }
}
