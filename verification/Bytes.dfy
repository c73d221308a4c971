// Octets and the fixed integer widths of the C++ code. Bit masks are stated with
// division and remainder: `b & 0x1f` is `b % 32`, `b & 0xe0` is `b / 32 * 32`.
module Bytes {
  type byte = x: int | 0 <= x < 256

  const U16: nat := 0x1_0000
  const U32: nat := 0x1_0000_0000
  const U64: nat := 0x1_0000_0000_0000_0000

  datatype Option<+T> = None | Some(value: T)

  function Min(a: int, b: int): int {
    if a <= b then a else b
  }

  function Max(a: int, b: int): int {
    if a >= b then a else b
  }
}
