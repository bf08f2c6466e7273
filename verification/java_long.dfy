/** Java's 64-bit signed `long`, with its two's-complement wrap-around written out. */
module JavaLong {

  const LONG_MIN: int := -0x8000_0000_0000_0000
  const LONG_MAX: int := 0x7FFF_FFFF_FFFF_FFFF
  const TWO_TO_64: int := 0x1_0000_0000_0000_0000

  /** The values a (non-null) `Long` can hold. */
  type Long = x: int | LONG_MIN <= x <= LONG_MAX

  /** Java's `a + b` on two `long`s: the mathematical sum when it fits, otherwise the
      one value in range that differs from the sum by a multiple of 2^64. */
  function Add(a: Long, b: Long): (r: Long)
    ensures LONG_MIN <= a + b <= LONG_MAX ==> r == a + b
    ensures r == a + b || r == a + b - TWO_TO_64 || r == a + b + TWO_TO_64
  {
    if a + b > LONG_MAX then a + b - TWO_TO_64
    else if a + b < LONG_MIN then a + b + TWO_TO_64
    else a + b
  }
}
