/** The byte type of the buffer's storage, Rust's `u8`. */
module Bytes {
  newtype u8 = x: int | 0 <= x < 256
}
