/** Sequence numbers on the wire: 16 bits, wrapping. */
module SequenceNumbers {
  const MODULUS := 0x1_0000

  type U16 = x: int | 0 <= x < MODULUS
}
