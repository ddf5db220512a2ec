/**
 * Byte values of the ACARS character-oriented framing (ARINC Specification 618)
 * as the decoder uses them, each with its odd-parity bit already in bit 7
 * (src/acars.c:27-32).
 */
module Acars {

  const SYN: bv8 := 0x16
  const SOH: bv8 := 0x01
  const STX: bv8 := 0x02
  const ETX: bv8 := 0x83
  const ETB: bv8 := 0x97
  const DLE: bv8 := 0x7f

  /** Text bytes a block buffer holds: the 241 the receiver can write before it gives up on a block. */
  const TxtCapacity: nat := 241
}
