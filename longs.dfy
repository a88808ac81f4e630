/** Java's 64-bit long: its range and the two's-complement wrap-around of
    its addition. */
module Longs {

  const LongMin: int := -0x8000_0000_0000_0000
  const LongMax: int := 0x7FFF_FFFF_FFFF_FFFF
  const Modulus: int := 0x1_0000_0000_0000_0000

  type Long = n: int | LongMin <= n <= LongMax

  /** The long that a two's-complement machine holds for the integer x. */
  function Wrap(x: int): (r: Long)
    ensures (r - x) % Modulus == 0
    ensures LongMin <= x <= LongMax ==> r == x
  {
    (x - LongMin) % Modulus + LongMin
  }

  /** Long addition, as the JVM's ladd does it. */
  function AddLong(a: Long, b: Long): Long
  {
    Wrap(a + b)
  }

  /** Two integers that differ by a multiple of 2^64 wrap to the same long. */
  lemma WrapCongruent(x: int, y: int)
    requires (x - y) % Modulus == 0
    ensures Wrap(x) == Wrap(y)
  {
    var k := (x - y) / Modulus;
    assert x - LongMin == (y - LongMin) + k * Modulus;
    ModAddMultiple(y - LongMin, k);
  }

  lemma ModAddMultiple(a: int, k: int)
    ensures (a + k * Modulus) % Modulus == a % Modulus
  {
  }

  /** Exact sum of integers. */
  function Sum(s: seq<int>): int
  {
    if s == [] then 0 else Sum(s[..|s| - 1]) + s[|s| - 1]
  }

  /** LongStream.sum: a left-to-right reduction with long addition. */
  function LongSum(s: seq<Long>): Long
  {
    if s == [] then 0 else AddLong(LongSum(s[..|s| - 1]), s[|s| - 1])
  }

  /** The long sum is the exact sum wrapped once: it equals the exact sum
      whenever that fits in a long. */
  lemma {:induction false} LongSumIsWrappedSum(s: seq<Long>)
    ensures LongSum(s) == Wrap(Sum(s))
    ensures LongMin <= Sum(s) <= LongMax ==> LongSum(s) == Sum(s)
  {
    if s != [] {
      var init, last := s[..|s| - 1], s[|s| - 1];
      LongSumIsWrappedSum(init);
      var w := LongSum(init);
      assert (w - Sum(init)) % Modulus == 0;
      WrapCongruent(w + last, Sum(init) + last);
    }
  }
}
