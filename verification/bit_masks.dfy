/**
  The source tests and sets single bits of bytes; this model divides and takes
  remainders. The two agree on every byte.
 */
module BitMasks {
  import opened Datagrams

  /** The tests on the first byte of a packet. */
  lemma PacketFlags(b: bv8)
    ensures HasAckBits(b as int) <==> b & 0xc0 == 0xc0
    ensures HasNackBit(b as int) <==> b & 0x20 != 0
    ensures HasDatagramBit(b as int) <==> b & 0x80 != 0
  {
  }

  /** The parts of a frame's flag byte. */
  lemma FramePartsOf(b: bv8)
    ensures b as int / 32 == (b >> 5) as int
    ensures b as int / 16 % 2 == ((b >> 4) & 1) as int
  {
  }

  /** The low seven bits of a byte and the bit above them. */
  lemma VarintParts(b: bv8)
    ensures b as int % 128 == (b & 0x7f) as int
    ensures b as int < 128 <==> b & 0x80 == 0
    ensures b & 0x80 == 0 ==> b as int + 128 == (b | 0x80) as int
  {
  }
}
