/** Fixed-width unsigned integers of the source, as subset types of `int`. */
module Ints {

  const TWO_TO_THE_8: int := 0x100
  const TWO_TO_THE_16: int := 0x1_0000
  const TWO_TO_THE_32: int := 0x1_0000_0000
  const TWO_TO_THE_64: int := 0x1_0000_0000_0000_0000

  type uint8 = x: int | 0 <= x < TWO_TO_THE_8
  type uint16 = x: int | 0 <= x < TWO_TO_THE_16
  type uint32 = x: int | 0 <= x < TWO_TO_THE_32
  type uint64 = x: int | 0 <= x < TWO_TO_THE_64

  /** `usize` on the 64-bit targets the engine runs on. */
  type usize = uint64

  /** An IPv4 socket: (address, port). */
  type Sock = (uint32, uint16)
}
