/** Shared vocabulary. */
module Prelude {
  datatype Option<+T> = None | Some(value: T)

  datatype Result<+T, +E> = Ok(value: T) | Err(error: E)

  newtype byte = x: int | 0 <= x < 0x100

  type Bytes = seq<byte>

  const U64_MAX := 0xFFFF_FFFF_FFFF_FFFF
}
