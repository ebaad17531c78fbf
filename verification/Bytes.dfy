/** The bytes that travel over connections and fill the binary formats. */
module Bytes {
  type Byte = x: int | 0 <= x < 256
}
