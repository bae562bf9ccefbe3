/** Fixed-width integers and the stock Option type shared by the other modules. */
module Primitives {

  type byte = x: int | 0 <= x < 0x100
  type uint32 = x: int | 0 <= x < 0x1_0000_0000

  /** A 32-bit mask, given by the positions of its set bits. */
  type Mask = set<Bit>
  type Bit = b: nat | b < 32

  datatype Option<+T> = None | Some(value: T)
}
