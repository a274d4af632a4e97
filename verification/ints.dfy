/**
 * Fixed-width integers of the source, as subsets of `int`, and the
 * `as` casts between them that the source applies at the storage boundary.
 * Rust's `as` between integer types of the same width reinterprets the
 * two's-complement bits; a cast to a narrower unsigned type keeps the low bits.
 */
module Ints {

  const TWO_8: int := 0x100
  const TWO_32: int := 0x1_0000_0000
  const TWO_63: int := 0x8000_0000_0000_0000
  const TWO_64: int := 0x1_0000_0000_0000_0000

  type u8 = x: int | 0 <= x < 0x100
  type u16 = x: int | 0 <= x < 0x1_0000
  type u32 = x: int | 0 <= x < 0x1_0000_0000
  type u64 = x: int | 0 <= x < 0x1_0000_0000_0000_0000
  type i16 = x: int | -0x8000 <= x < 0x8000
  type i32 = x: int | -0x8000_0000 <= x < 0x8000_0000
  type i64 = x: int | -0x8000_0000_0000_0000 <= x < 0x8000_0000_0000_0000

  /** `x as u64` for an `i64`: non-negative values are kept, negative ones gain 2^64. */
  function I64AsU64(x: i64): (r: u64)
    ensures 0 <= x ==> r == x
    ensures x < 0 ==> r == x + TWO_64
  {
    x % TWO_64
  }

  /** `x as i64` for a `u64`: the inverse reinterpretation. */
  function U64AsI64(x: u64): (r: i64)
    ensures x < TWO_63 ==> r == x
    ensures TWO_63 <= x ==> r == x - TWO_64
  {
    if x < TWO_63 then x else x - TWO_64
  }

  /** `x as u32` for an `i32`. */
  function I32AsU32(x: i32): (r: u32)
    ensures 0 <= x ==> r == x
    ensures x < 0 ==> r == x + TWO_32
  {
    x % TWO_32
  }

  /** `x as u8` for any signed integer: the low eight bits. */
  function AsU8(x: int): (r: u8)
    ensures (r - x) % TWO_8 == 0
    ensures 0 <= x < TWO_8 ==> r == x
  {
    x % TWO_8
  }

  /** Reinterpreting an `i64` as `u64` loses nothing: the sign is recoverable. */
  lemma I64AsU64Inverse(x: i64)
    ensures U64AsI64(I64AsU64(x)) == x
  {
  }

  /** Two distinct `i64` identifiers never collide once cast to `u64`. */
  lemma I64AsU64Injective(x: i64, y: i64)
    requires I64AsU64(x) == I64AsU64(y)
    ensures x == y
  {
    I64AsU64Inverse(x);
    I64AsU64Inverse(y);
  }
}
