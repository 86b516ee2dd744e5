/** Eight-bit bytes, as every buffer of the program holds them. */
module Bytes {
  type byte = b: int | 0 <= b < 256
}
