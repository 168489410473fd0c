/** Octets as the C sources use them (`uint8_t`, modelled as integers 0..255) and optional values. */
module Basics {
  type byte = x: int | 0 <= x < 256

  datatype Option<+T> = None | Some(value: T)

  const DOT: byte := 46
  const SPACE: byte := 32
}
