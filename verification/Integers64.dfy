/** Fixed-width integers as the Rust release build computes them. */
module Integers64 {
  const I64_MIN := -0x8000_0000_0000_0000
  const I64_MAX := 0x7FFF_FFFF_FFFF_FFFF
  const U64_MAX := 0xFFFF_FFFF_FFFF_FFFF

  type I64 = x: int | I64_MIN <= x <= I64_MAX
  type U64 = x: int | 0 <= x <= U64_MAX

  /** Two's complement reading of the low 64 bits: `as i64`, and wrapping addition. */
  function ToI64(x: int): (r: I64)
    ensures (r - x) % 0x1_0000_0000_0000_0000 == 0
  {
    var low := x % 0x1_0000_0000_0000_0000;
    if low <= I64_MAX then low else low - 0x1_0000_0000_0000_0000
  }

  lemma ToI64Fits(x: int)
    requires I64_MIN <= x <= I64_MAX
    ensures ToI64(x) == x
  {
  }
}
