/** Octets, as Rust's `u8`. */
module Bytes {

  type byte = x: int | 0 <= x < 0x100

  /** A byte of the 7-bit ASCII range. */
  predicate IsAscii(x: byte) {
    x < 0x80
  }
}
