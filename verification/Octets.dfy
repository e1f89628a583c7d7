/** Bytes as numbers. */
module Octets {
  type Byte = b: int | 0 <= b < 256
}
