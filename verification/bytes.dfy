/** The unit every buffer in this project is made of. */
module Bytes {
  type byte = x: int | 0 <= x < 256
}
