/**
 * Byte-level vocabulary shared by the ICMP codec: octets, 16-bit unsigned
 * values, and the big-endian read16/write16 helpers of icmp.c.
 */
module Wire {

  /** An octet (uint8_t). */
  type Byte = x: int | 0 <= x < 0x100

  /** A 16-bit unsigned value (uint16_t). */
  type U16 = x: int | 0 <= x < 0x1_0000

  /** read16: the big-endian 16-bit value whose high byte is `hi` and low byte is `lo`. */
  function Read16(hi: Byte, lo: Byte): U16
  {
    hi * 0x100 + lo
  }

  /** The two bytes write16 stores for `s`: high byte first. */
  function Write16(s: U16): (b: seq<Byte>)
    ensures |b| == 2
    ensures (b[0] as int) * 0x100 + b[1] == s
  {
    [s / 0x100, s % 0x100]
  }

  /** Reading back what write16 stored gives the original value. */
  lemma Read16Write16(s: U16)
    ensures Read16(Write16(s)[0], Write16(s)[1]) == s
  {
  }

  /** Writing what read16 read gives back the original two bytes. */
  lemma Write16Read16(hi: Byte, lo: Byte)
    ensures Write16(Read16(hi, lo)) == [hi, lo]
  {
  }

  /** write16(&data[off], s): stores `s` big-endian at offsets off and off + 1. */
  method Write16At(data: array<Byte>, off: nat, s: U16)
    requires off + 1 < data.Length
    modifies data
    ensures data[..] == old(data[..])[off := Write16(s)[0]][off + 1 := Write16(s)[1]]
  {
    data[off] := s / 0x100;
    data[off + 1] := s % 0x100;
  }
}
