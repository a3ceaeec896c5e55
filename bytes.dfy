/** Octets, as the encoders of a reply produce and consume them. */
module Bytes {
  type Byte = b: int | 0 <= b < 256
}
