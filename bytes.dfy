/**
 The integer types of the wire format: a byte, and the unsigned 32-bit
 integer the checksum field holds.
 */
module Bytes {

  /** One octet of a buffer, as `Buffer` indexing yields it. */
  newtype byte = b: int | 0 <= b < 256

  /** An unsigned 32-bit integer. */
  type uint32 = x: int | 0 <= x < 0x1_0000_0000
}
