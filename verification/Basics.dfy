/** Types shared by every part of the model: bytes, optional values and results. */
module Basics {

  /** An 8-bit byte, kept as an integer so that big-endian arithmetic needs no bit vectors. */
  type byte = x: int | 0 <= x < 0x100

  type Bytes = seq<byte>

  datatype Option<+T> = None | Some(value: T)

  function Min(a: int, b: int): int {
    if a < b then a else b
  }

  function Max(a: int, b: int): int {
    if a < b then b else a
  }

  function Abs(x: int): int {
    if x < 0 then -x else x
  }
}
