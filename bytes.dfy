/** Machine types shared by the whole model. */
module Bytes {
  /** A `u8`. */
  newtype byte = x: int | 0 <= x < 0x100

  /** 2^64, one more than the largest `u64`. */
  const U64_LIMIT: nat := 0x1_0000_0000_0000_0000

  /** A `u64`; a message sequence number (`MSN`, src/defines.rs) is one. */
  type u64 = x: nat | x < U64_LIMIT

  datatype Option<T> = None | Some(value: T)
}
