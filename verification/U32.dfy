/** Unsigned 32-bit arithmetic, as the firmware's `uint32_t` counters use it. */
module U32 {
  const TWO31 := 0x8000_0000
  const TWO32 := 0x1_0000_0000

  function Wrap(n: int): (r: int)
    ensures 0 <= r < TWO32
  {
    n % TWO32
  }

  /** Two counts closer than 2^32 wrap to the same value only when they are equal. */
  lemma WrapInjective(a: int, b: int)
    requires Wrap(a) == Wrap(b) && -TWO32 < a - b < TWO32
    ensures a == b
  {
    assert a == TWO32 * (a / TWO32) + Wrap(a);
    assert b == TWO32 * (b / TWO32) + Wrap(b);
  }

  lemma WrapParity(a: int)
    ensures Wrap(a) % 2 == a % 2
  {
    assert a == TWO32 * (a / TWO32) + Wrap(a);
  }

  /** Stepping a wrapped counter is stepping the count. */
  lemma WrapStep(a: int, d: int)
    ensures Wrap(Wrap(a) + d) == Wrap(a + d)
  {
    assert a + d == TWO32 * (a / TWO32) + (Wrap(a) + d);
  }

  lemma WrapSmall(n: int)
    requires 0 <= n < TWO32
    ensures Wrap(n) == n
  {
  }
}
