/** Bytes as the Python script handles them: `bytes` objects are sequences of these. */
module Octets {
  type Byte = b: int | 0 <= b < 256

  type Bytes = seq<Byte>
}
