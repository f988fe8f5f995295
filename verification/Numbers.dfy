/** What several modules need of numbers and of ranges of memory. */
module Numbers {

  const TWO_32: int := 0x1_0000_0000

  function Pow2(k: nat): (p: nat)
    ensures p >= 1
  {
    if k == 0 then 1 else 2 * Pow2(k - 1)
  }

  // The ranges of n bytes at a and of m bytes at b do not meet.
  predicate Clear(a: int, n: int, b: int, m: int) {
    a + n <= b || b + m <= a
  }
}
