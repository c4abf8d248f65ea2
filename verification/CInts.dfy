// The integer types of the C sources.
module CInts {

  /** uint32_t */
  type word = w: int | 0 <= w < 0x1_0000_0000

  /** int */
  type int32 = i: int | -0x8000_0000 <= i < 0x8000_0000

  /** The conversion of an unsigned value to int: its low 32 bits, read in two's complement. */
  function AsInt(n: nat): (i: int32)
    ensures (i - n) % 0x1_0000_0000 == 0
  {
    var low := n % 0x1_0000_0000;
    if low < 0x8000_0000 then low else low - 0x1_0000_0000
  }
}
