/** Rust's fixed-width integers as the vesting program uses them: `i64` timestamps,
    `u64` amounts and periods, a `u8` bump, and the two wrapping casts `as u64` and
    `as i64` that appear in `unlock`. */
module FixedWidth {

  const TWO_64: int := 0x1_0000_0000_0000_0000
  const U64_MAX: int := 0xffff_ffff_ffff_ffff
  const I64_MIN: int := -0x8000_0000_0000_0000
  const I64_MAX: int := 0x7fff_ffff_ffff_ffff
  const U8_MAX: int := 0xff

  predicate IsU8(x: int) { 0 <= x <= U8_MAX }
  predicate IsU64(x: int) { 0 <= x <= U64_MAX }
  predicate IsI64(x: int) { I64_MIN <= x <= I64_MAX }

  /** `x as u64` for an `i64` value: the unique `u64` congruent to `x` modulo 2^64
      (two's-complement reinterpretation, never a panic). */
  function I64AsU64(x: int): (r: int)
    requires IsI64(x)
    ensures IsU64(r) && (r - x) % TWO_64 == 0
    ensures 0 <= x ==> r == x
    ensures x < 0 ==> I64_MAX < r
  {
    if x < 0 then x + TWO_64 else x
  }

  /** `x as i64` for a `u64` value: the unique `i64` congruent to `x` modulo 2^64. */
  function U64AsI64(x: int): (r: int)
    requires IsU64(x)
    ensures IsI64(r) && (r - x) % TWO_64 == 0
    ensures x <= I64_MAX ==> r == x
    ensures I64_MAX < x ==> r < 0
  {
    if x <= I64_MAX then x else x - TWO_64
  }
}
