/**
 * Value semantics of the 2-bit unsigned integer pixel type.
 *
 * Elements live in a container of 64-bit words, 32 two-bit lanes per word;
 * a handle is the element's index. Every write keeps only the low two bits
 * of the two's complement of the value, so a read always yields 0..3.
 */
module Unsigned2Bit {
  import opened Native

  const LONG_RANGE: int := 0x1_0000_0000_0000_0000
  const LONG_MIN: int := -0x8000_0000_0000_0000
  const LONG_MAX: int := 0x7fff_ffff_ffff_ffff

  /** A Java `long`. */
  type Int64 = x: int | LONG_MIN <= x <= LONG_MAX

  /** Number of 2-bit lanes in one 64-bit word. */
  const LANES: nat := 32

  /** Handle on the element with index `i`. */
  datatype Unsigned2BitType = Unsigned2BitType(i: nat)

  /** The element's word lies in the container. */
  predicate InStore(t: Unsigned2BitType, words: seq<bv64>) {
    t.i / LANES < |words|
  }

  /** `BigInteger.longValue()`: the low 64 bits, read as a signed `long`. */
  function LongValue(b: int): (r: Int64)
    ensures (r - b) % LONG_RANGE == 0
    ensures LONG_MIN <= b <= LONG_MAX ==> r == b
  {
    (b - LONG_MIN) % LONG_RANGE + LONG_MIN
  }

  /** `value & 3` on a `long`: the low two bits of its two's complement. */
  function Low2(v: Int64): (r: nat)
    ensures r < 4
    ensures r == v % 4
    ensures 0 <= v < 4 ==> r == v
  {
    var bits := if v < 0 then v + LONG_RANGE else v;
    bits % 4
  }

  /**
   * The lane number `k` as a 64-bit word. Counting up keeps the conversion
   * out of the solver's integer-to-bit-vector reasoning, which `k as bv64`
   * needs and which is far more expensive here.
   */
  function LaneBits(k: nat): (b: bv64)
    requires k < LANES
    ensures b < 32
    ensures b as int == k
  {
    if k == 0 then 0 else LaneBits(k - 1) + 1
  }

  /** A 2-bit value as a 64-bit word. */
  function ValueBits(v: nat): (b: bv64)
    requires v < 4
    ensures b < 4
    ensures b as int == v
  {
    v as bv64
  }

  /** The 2-bit field of `w` in lane `k`. */
  function Field(w: bv64, k: bv64): (v: bv64)
    requires k < 32
    ensures v < 4
  {
    (w >> (2 * k)) & 3
  }

  /** `w` with lane `k` replaced by `v`. */
  function Put(w: bv64, k: bv64, v: bv64): bv64
    requires k < 32 && v < 4
  {
    (w & !(3 << (2 * k))) | (v << (2 * k))
  }

  lemma PutGet(w: bv64, k: bv64, v: bv64)
    requires k < 32 && v < 4
    ensures Field(Put(w, k, v), k) == v
  {
  }

  lemma PutOther(w: bv64, k: bv64, k': bv64, v: bv64)
    requires k < 32 && k' < 32 && k != k' && v < 4
    ensures Field(Put(w, k, v), k') == Field(w, k')
  {
  }

  /** `get()`: the element's value. */
  function Get(words: seq<bv64>, t: Unsigned2BitType): (r: nat)
    requires InStore(t, words)
    ensures r < 4
  {
    Field(words[t.i / LANES], LaneBits(t.i % LANES)) as nat
  }

  /**
   * `set(long)`: the element afterwards reads the low two bits of `v`, and
   * every other element of the container reads what it read before.
   */
  function Set(words: seq<bv64>, t: Unsigned2BitType, v: Int64): (r: seq<bv64>)
    requires InStore(t, words)
    ensures |r| == |words|
    ensures Get(r, t) == v % 4
    ensures forall u | InStore(u, words) && u.i != t.i :: Get(r, u) == Get(words, u)
  {
    var w, k := t.i / LANES, LaneBits(t.i % LANES);
    var r := words[w := Put(words[w], k, ValueBits(Low2(v)))];
    PutGet(words[w], k, ValueBits(Low2(v)));
    forall u | InStore(u, words) && u.i != t.i
      ensures Get(r, u) == Get(words, u)
    {
      if u.i / LANES == w {
        PutOther(words[w], k, LaneBits(u.i % LANES), ValueBits(Low2(v)));
      }
    }
    r
  }

  /** `setBigInteger(b)`: the element afterwards reads `b mod 4`, other elements are unchanged. */
  function SetBigInteger(words: seq<bv64>, t: Unsigned2BitType, b: int): (r: seq<bv64>)
    requires InStore(t, words)
    ensures |r| == |words|
    ensures Get(r, t) == b % 4
    ensures forall u | InStore(u, words) && u.i != t.i :: Get(r, u) == Get(words, u)
  {
    var l := LongValue(b);
    assert l % 4 == b % 4 by {
      var q := (l - b) / LONG_RANGE;
      assert l == b + 4 * (q * (LONG_RANGE / 4));
    }
    Set(words, t, l)
  }

  /** `getBigInteger()`: the element's value as an unbounded integer. */
  function GetBigInteger(words: seq<bv64>, t: Unsigned2BitType): (r: int)
    requires InStore(t, words)
    ensures 0 <= r < 4
    ensures r == Get(words, t)
  {
    Get(words, t) as int
  }

  /**
   * `setBigInteger(b)` then `getBigInteger()` gives `b mod 4`, negative `b`
   * included, and a value built from `v` gives `v mod 4`.
   */
  lemma BigIntegerRoundTrip(words: seq<bv64>, t: Unsigned2BitType, b: int, v: Int64)
    requires InStore(t, words)
    ensures GetBigInteger(SetBigInteger(words, t, b), t) == b % 4
    ensures GetBigInteger(New(v).1, New(v).0) == v % 4
    ensures 0 <= b < 4 ==> GetBigInteger(SetBigInteger(words, t, b), t) == b
  {
  }

  /** Number of words a container of `n` elements needs. */
  function WordsFor(n: nat): (r: nat)
    ensures forall i: nat | i < n :: InStore(Unsigned2BitType(i), seq(r, _ => 0 as bv64))
  {
    (n + LANES - 1) / LANES
  }

  /** A fresh container of `n` elements, all reading 0. */
  function Create(n: nat): (r: seq<bv64>)
    ensures forall i: nat | i < n :: InStore(Unsigned2BitType(i), r) && Get(r, Unsigned2BitType(i)) == 0
  {
    var r := seq(WordsFor(n), _ => 0 as bv64);
    assert forall w: bv64, k: bv64 | w == 0 && k < 32 :: Field(w, k) == 0;
    r
  }

  /** `new Unsigned2BitType(long)`: a one-element container reading the low two bits of `v`. */
  function New(v: Int64): (r: (Unsigned2BitType, seq<bv64>))
    ensures InStore(r.0, r.1)
    ensures Get(r.1, r.0) == v % 4
  {
    var t := Unsigned2BitType(0);
    (t, Set(Create(1), t, v))
  }

  /**
   * Writing `values[k]` to element `k` for every element in turn leaves
   * every element reading the value written to it.
   */
  method SetAll(words: seq<bv64>, values: seq<Int64>) returns (r: seq<bv64>)
    requires |values| <= LANES * |words|
    ensures |r| == |words|
    ensures forall k | 0 <= k < |values| :: InStore(Unsigned2BitType(k), r) && Get(r, Unsigned2BitType(k)) == values[k] % 4
  {
    r := words;
    var k := 0;
    while k < |values|
      invariant 0 <= k <= |values|
      invariant |r| == |words|
      invariant forall j | 0 <= j < k :: InStore(Unsigned2BitType(j), r) && Get(r, Unsigned2BitType(j)) == values[j] % 4
    {
      assert InStore(Unsigned2BitType(k), r) by {
        assert k < LANES * |words|;
      }
      r := Set(r, Unsigned2BitType(k), values[k]);
      k := k + 1;
    }
  }

  /**
   * The set-and-get test on a 10 x 20 x 30 image: after writing a value in
   * 0..3 to every element, every element reads back its value.
   */
  method SetEveryElement(values: seq<Int64>) returns (r: seq<bv64>)
    requires |values| == 10 * 20 * 30
    requires forall k | 0 <= k < |values| :: 0 <= values[k] < 4
    ensures forall k | 0 <= k < |values| :: InStore(Unsigned2BitType(k), r) && Get(r, Unsigned2BitType(k)) == values[k]
  {
    var img := Create(|values|);
    assert |img| == 188;
    r := SetAll(img, values);
  }

  /**
   * The constructor and `setBigInteger` keep the low two bits: 10 reads 2,
   * and so does -122 afterwards; values built from 2 and 0 give 2 and 0
   * from `getBigInteger()`.
   */
  lemma TruncationExamples()
    ensures Get(New(10).1, New(10).0) == 2
    ensures Get(SetBigInteger(New(10).1, New(10).0, -122), New(10).0) == 2
    ensures GetBigInteger(New(2).1, New(2).0) == 2
    ensures GetBigInteger(New(0).1, New(0).0) == 0
  {
  }
}
