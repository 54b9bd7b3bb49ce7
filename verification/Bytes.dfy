/** Bytes, and a hash without collisions. */
module Bytes {

  type Byte = x: int | 0 <= x < 256

  /** SHA-256 taken as injective: a digest stands for the one content it was computed from. */
  datatype Hash = Sha256(content: seq<Byte>)
}
