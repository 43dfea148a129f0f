/** Raw byte strings (Python `bytes`). */
module Bytes {
  type byte = x: int | 0 <= x < 256
  type bytes = seq<byte>
}
