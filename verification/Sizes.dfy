/** Sizes the whole model shares. */
module Sizes {
  /** One past the largest 64-bit number. */
  const U64: nat := 0x1_0000_0000_0000_0000

  /** Bytes of a sector. */
  const SECTOR: nat := 512
}
