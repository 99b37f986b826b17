/** Optional values and results, and the integer ranges of the source language. */
module Wrappers {
  datatype Option<+T> = None | Some(value: T)

  datatype Result<+T, +E> = Ok(value: T) | Err(error: E)

  const U32_MAX: int := 0xFFFF_FFFF
  const U64_MAX: int := 0xFFFF_FFFF_FFFF_FFFF
  const I128_MAX: int := 0x7FFF_FFFF_FFFF_FFFF_FFFF_FFFF_FFFF_FFFF
  const I128_MIN: int := -0x8000_0000_0000_0000_0000_0000_0000_0000

  type u32 = x: int | 0 <= x <= U32_MAX
  type i128 = x: int | I128_MIN <= x <= I128_MAX

  predicate FitsI128(x: int) {
    I128_MIN <= x <= I128_MAX
  }

  function Min(a: int, b: int): int {
    if a <= b then a else b
  }

  /** `u32::saturating_add`. */
  function SatAdd32(a: u32, b: u32): u32 {
    Min(a + b, U32_MAX)
  }

  /** `u32::saturating_sub`. */
  function SatSub32(a: u32, b: u32): u32 {
    if a <= b then 0 else a - b
  }
}
