/**
 * Java `int`: the 32-bit two's-complement range, and arithmetic that wraps
 * around it as Java's does on overflow.
 */
module JavaInt {
  const TWO_32 := 0x1_0000_0000
  const MIN_INT := -0x8000_0000
  const MAX_INT := 0x7FFF_FFFF

  predicate IsInt32(x: int)
  {
    MIN_INT <= x <= MAX_INT
  }

  /** Java `int` arithmetic: the result reduced to 32-bit two's complement. */
  function Int32(x: int): (r: int)
    ensures IsInt32(r)
    ensures (r - x) % TWO_32 == 0
    ensures IsInt32(x) ==> r == x
  {
    (x - MIN_INT) % TWO_32 + MIN_INT
  }
}
