/** Option, and the few byte-sequence facts every other module needs. */
module Wrappers {
  datatype Option<+T> = None | Some(value: T)

  // A byte, as in Rust's `u8`.
  type byte = b: int | 0 <= b < 0x100

  type Bytes = seq<byte>

  // The largest value of `u32`, of `i32` and (on a 64-bit target) of `usize`.
  const U32_MAX: nat := 0xFFFF_FFFF
  const I32_MAX: nat := 0x7FFF_FFFF
  const USIZE_MAX: nat := 0xFFFF_FFFF_FFFF_FFFF

  type u32 = n: int | 0 <= n <= U32_MAX
  type i32 = n: int | -0x8000_0000 <= n <= 0x7FFF_FFFF

  function Flatten<T>(chunks: seq<seq<T>>): seq<T> {
    if chunks == [] then [] else chunks[0] + Flatten(chunks[1..])
  }
}
