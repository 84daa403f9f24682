/** Bytes as small integers, and the three marks of the byte-stuffing protocol. */
module Bytes {

  type byte = b: int | 0 <= b < 256

  const ESC: byte := 0x7D
  const BEGIN: byte := 0x7E
  const END: byte := 0x7F

  predicate IsMark(c: byte) {
    c == ESC || c == BEGIN || c == END
  }

  /** c XOR 0x20: bit 5 flipped. */
  function FlipBit5(c: byte): byte {
    if c / 32 % 2 == 1 then c - 32 else c + 32
  }
}
