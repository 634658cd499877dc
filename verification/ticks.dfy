/**
 The board's millisecond tick counter. The firmware reads it as a `uint32_t`,
 so it wraps to 0 after 2^32 - 1 ticks, and the time a button was held is the
 unsigned difference `end - start` of two readings.
 */
module Ticks {

  /** 2^32: the number of distinct counter values. */
  const Modulus: int := 0x1_0000_0000

  /** A reading of the tick counter (a `uint32_t`). */
  type U32 = x: int | 0 <= x < 0x1_0000_0000

  /** The counter value `d` ticks after the counter read `t`. */
  function Advance(t: U32, d: nat): (r: U32)
    ensures t + d < Modulus ==> r == t + d
    ensures Modulus <= t + d < 2 * Modulus ==> r == t + d - Modulus
  {
    (t + d) % Modulus
  }

  /** `end - start` evaluated in unsigned 32-bit arithmetic: the plain
      difference, or the difference plus 2^32 when the counter wrapped. */
  function Elapsed(start: U32, end: U32): U32 {
    if start <= end then end - start else Modulus - start + end
  }

  /** The unsigned difference is the mathematical difference reduced modulo
      2^32, which is how C defines `end - start` on `uint32_t`. */
  lemma ElapsedIsModularDifference(start: U32, end: U32)
    ensures Elapsed(start, end) == (end - start) % Modulus
  {
  }

  /** The measurement is the number of ticks that lead from `start` to `end`. */
  lemma ElapsedLeadsToEnd(start: U32, end: U32)
    ensures Advance(start, Elapsed(start, end)) == end
  {
  }

  /** Whenever a press lasts fewer than 2^32 ticks, the unsigned difference
      of the two readings is exactly its length, also when the counter
      wrapped around in between. */
  lemma ElapsedMeasuresHold(start: U32, d: nat)
    requires d < Modulus
    ensures Elapsed(start, Advance(start, d)) == d
  {
    if start + d < Modulus {
      assert Advance(start, d) == start + d;
    } else {
      assert Advance(start, d) == start + d - Modulus;
    }
  }

  /** No other elapsed value leads from `start` to `end`: the measurement is
      the unique count of ticks below 2^32 between the two readings. */
  lemma ElapsedIsUnique(start: U32, end: U32, d: nat)
    requires d < Modulus
    requires Advance(start, d) == end
    ensures Elapsed(start, end) == d
  {
    ElapsedMeasuresHold(start, d);
    ElapsedLeadsToEnd(start, end);
  }
}
