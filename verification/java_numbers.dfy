/** Java's fixed-width integer types, and the wrap-around of `long` arithmetic. */
module JavaNumbers {

  const MinInt32: int := -0x8000_0000
  const MaxInt32: int := 0x7fff_ffff
  const MinLong: int := -0x8000_0000_0000_0000
  const MaxLong: int := 0x7fff_ffff_ffff_ffff
  const LongModulus: int := 0x1_0000_0000_0000_0000

  /** A Java `int`. */
  type Int32 = x: int | MinInt32 <= x <= MaxInt32

  /** A Java `long` (also the millisecond value of a `java.util.Date`). */
  type Long = x: int | MinLong <= x <= MaxLong

  /** The value Java's `long` addition or subtraction yields for the mathematical result `x`:
      `x` reduced into the two's-complement range. */
  function WrapLong(x: int): (r: Long)
    ensures (x - r) % LongModulus == 0
    ensures MinLong <= x <= MaxLong ==> r == x
  {
    (x - MinLong) % LongModulus + MinLong
  }
}
