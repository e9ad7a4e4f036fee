/** The fixed-width integer types of the source, as ranges of the unbounded integers. */
module Ints {
  type u8 = x: int | 0 <= x < 0x100
  type u16 = x: int | 0 <= x < 0x1_0000
  type u32 = x: int | 0 <= x < 0x1_0000_0000
  type u64 = x: int | 0 <= x < 0x1_0000_0000_0000_0000
  type i32 = x: int | -0x8000_0000 <= x < 0x8000_0000

  const I64Max: int := 0x7fff_ffff_ffff_ffff

  /** `v as i64` for a `u64` value: the same 64 bits read as two's complement. */
  function U64AsI64(v: u64): (r: int)
    ensures -I64Max - 1 <= r <= I64Max
    ensures (r - v) % 0x1_0000_0000_0000_0000 == 0
    ensures v <= I64Max ==> r == v
  {
    if v <= I64Max then v else v - 0x1_0000_0000_0000_0000
  }
}
