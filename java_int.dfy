/** Java's 32-bit `int` and its wrap-around arithmetic. */
module JavaInt {

  const TwoTo31: int := 0x8000_0000
  const TwoTo32: int := 0x1_0000_0000

  /** The values of a Java `int`. */
  type Int32 = x: int | -0x8000_0000 <= x < 0x8000_0000

  predicate InRange(x: int) {
    -TwoTo31 <= x < TwoTo31
  }

  /**
   * The Java `int` that an overflowing `+`, `-` or `*` yields: the unique value
   * of the `int` range congruent to `x` modulo 2^32.
   */
  function Wrap(x: int): Int32 {
    (x + TwoTo31) % TwoTo32 - TwoTo31
  }

  /** `Wrap`'s defining properties: congruence modulo 2^32, identity on the `int` range. */
  lemma WrapSpec(x: int)
    ensures (Wrap(x) - x) % TwoTo32 == 0
    ensures InRange(x) ==> Wrap(x) == x
  {
  }

  /** Wrapping an intermediate result before the next addition changes nothing. */
  lemma WrapAdd(x: int, y: int)
    ensures Wrap(Wrap(x) + y) == Wrap(x + y)
  {
    WrapSpec(x);
    var k := (Wrap(x) - x) / TwoTo32;
    assert Wrap(x) == x + k * TwoTo32;
    assert (Wrap(x) + y + TwoTo31) % TwoTo32 == (x + y + TwoTo31 + k * TwoTo32) % TwoTo32;
    ModShift(x + y + TwoTo31, k);
  }

  /** Wrapping the accumulator before `m * acc + y` changes nothing either. */
  lemma WrapMulAdd(m: int, x: int, y: int)
    ensures Wrap(m * Wrap(x) + y) == Wrap(m * x + y)
  {
    WrapSpec(x);
    var k := (Wrap(x) - x) / TwoTo32;
    assert Wrap(x) == x + k * TwoTo32;
    assert m * Wrap(x) + y == m * x + y + (m * k) * TwoTo32;
    ModShift(m * x + y + TwoTo31, m * k);
  }

  lemma ModShift(a: int, k: int)
    ensures (a + k * TwoTo32) % TwoTo32 == a % TwoTo32
  {
  }

  /** A difference of two `int`s wraps to zero exactly when the two are equal. */
  lemma WrapDifferenceZero(a: Int32, b: Int32)
    ensures Wrap(a - b) == 0 <==> a == b
  {
    WrapSpec(a - b);
    if Wrap(a - b) == 0 {
      assert (a - b) % TwoTo32 == 0;
    }
  }
}
