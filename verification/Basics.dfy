/** What several modules need: optional values, bytes, machine widths, powers of two. */
module Basics {

  datatype Option<+T> = None | Some(value: T)

  type Byte = x: int | 0 <= x < 256 witness 0

  const TWO_32: nat := 0x1_0000_0000
  const TWO_64: nat := 0x1_0000_0000_0000_0000

  ghost predicate PowerOfTwo(d: int) {
    d == 1 || (d > 1 && d % 2 == 0 && PowerOfTwo(d / 2))
  }
}
