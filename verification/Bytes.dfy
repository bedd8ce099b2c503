/** Machine integers shared by the whole model. */
module Bytes {
  type byte = x: int | 0 <= x < 256

  /** Values of the C type `uint32_t`; arithmetic on them wraps modulo `U32`. */
  const U32: int := 0x1_0000_0000
  type uint32 = x: int | 0 <= x < U32

  /** The top bit of a 32-bit word. */
  const TOP_BIT: int := 0x8000_0000
}
