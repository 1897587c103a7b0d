/**
  Rust's unsigned machine integers as ranges of `int`, for a 64-bit target
  (so `usize` has the range of `u64`).  Wrap-around and truncation are
  written out where the code relies on them.
 */
module MachineWords {

  const U32_LIMIT: int := 0x1_0000_0000
  const WORD: int := 0x1_0000_0000_0000_0000

  type u8 = x: int | 0 <= x < 0x100
  type u16 = x: int | 0 <= x < 0x1_0000
  type u32 = x: int | 0 <= x < U32_LIMIT
  type u64 = x: int | 0 <= x < WORD
  type usize = x: int | 0 <= x < WORD
}
