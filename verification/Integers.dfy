/** The widths of the integers that the code uses, and the wrap-around of 64-bit addition. */
module Integers {
  const INT64_MAX := 0x7FFF_FFFF_FFFF_FFFF
  const TWO_TO_THE_32 := 0x1_0000_0000
  const TWO_TO_THE_64 := 0x1_0000_0000_0000_0000

  type Byte = x: int | 0 <= x < 0x100
  type UInt16 = x: int | 0 <= x < 0x1_0000
  type UInt32 = x: int | 0 <= x < TWO_TO_THE_32
  type Int32 = x: int | -0x8000_0000 <= x <= 0x7FFF_FFFF
  type Int64 = x: int | -INT64_MAX - 1 <= x <= INT64_MAX

  /** Two's-complement value of an integer that may lie outside the 64-bit range. */
  function Wrap64(x: int): Int64 {
    var m := x % TWO_TO_THE_64;
    if m <= INT64_MAX then m else m - TWO_TO_THE_64
  }
}
