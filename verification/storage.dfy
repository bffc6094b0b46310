/**
 getBitsetFrom2Bytes: a codeword is stored in two bytes, positions 0..7 in
 the first byte and positions 8..12 in the low five bits of the second.
 */
module Storage {
  import opened Bits
  import opened Layout

  /** Which stored bit lands at codeword position i. */
  function StoredBit(first: Byte, second: Byte, i: Position): bool {
    if i < 8 then ByteBit(first, i as bv3) else ByteBit(second, (i - 8) as bv3)
  }

  /** The codeword two stored bytes denote, as one bit-vector expression. */
  function FromTwoBytes(first: Byte, second: Byte): Codeword {
    (first as bv13) | (((second as bv13) & 0x1F) << 8)
  }

  /** Bit i of the codeword is the stored bit for position i. */
  lemma FromTwoBytesBits(first: Byte, second: Byte)
    ensures forall i: Position :: Bit(FromTwoBytes(first, second), i) == StoredBit(first, second, i)
  {
  }

  /** The five kept bits of the second byte, as a number. */
  lemma LowFiveBits(second: Byte)
    ensures ((second as bv13) & 0x1F) as int == second as int % 32
  {
  }

  /** The first byte and the kept bits of the second do not overlap, so or-ing them adds them. */
  lemma FromTwoBytesIsSum(first: Byte, second: Byte)
    ensures FromTwoBytes(first, second) == first as bv13 + ((second as bv13) & 0x1F) * 256
  {
  }

  /** A 13-bit sum that cannot carry out of 13 bits has the value of the integer sum. */
  lemma NoOverflow(low: Codeword, high: Codeword)
    requires low < 256 && high < 32
    ensures (low + high * 256) as int == low as int + 256 * high as int
  {
  }

  /** As a number, the codeword is the first byte plus 256 times the second byte modulo 32. */
  lemma FromTwoBytesValue(first: Byte, second: Byte)
    ensures FromTwoBytes(first, second) as int == first as int + 256 * (second as int % 32)
  {
    FromTwoBytesIsSum(first, second);
    NoOverflow(first as bv13, (second as bv13) & 0x1F);
    LowFiveBits(second);
  }

  /** Only the low five bits of the second byte matter. */
  lemma HighBitsIgnored(first: Byte, second: Byte, other: Byte)
    requires second % 32 == other % 32
    ensures FromTwoBytes(first, second) == FromTwoBytes(first, other)
  {
  }

  /** The low byte of a codeword: positions 0..7. */
  function LowByte(hw: Codeword): Byte {
    (hw & 0xFF) as Byte
  }

  /** The high byte of a codeword: positions 8..12 in its low five bits. */
  function HighByte(hw: Codeword): Byte {
    (hw >> 8) as Byte
  }

  /** A codeword is rebuilt from its low and high byte. */
  lemma TwoBytesRoundTrip(hw: Codeword)
    ensures FromTwoBytes(LowByte(hw), HighByte(hw)) == hw
  {
  }

  /**
   getBitsetFrom2Bytes: copies the eight bits of the first byte to positions
   0..7 and the low five bits of the second byte to positions 8..12.
   */
  method GetBitsetFrom2Bytes(first: Byte, second: Byte) returns (hw: Codeword)
    ensures forall i: Position :: Bit(hw, i) == StoredBit(first, second, i)
    ensures hw as int == first as int + 256 * (second as int % 32)
  {
    hw := 0;
    var i: bv4 := 0;
    while i < 8
      invariant i <= 8
      invariant forall j: Position :: Bit(hw, j) == (j < i && ByteBit(first, j as bv3))
    {
      hw := SetBit(hw, i, ByteBit(first, i as bv3));
      i := i + 1;
    }
    while i < 13
      invariant 8 <= i <= 13
      invariant forall j: Position :: Bit(hw, j) == (j < i && StoredBit(first, second, j))
    {
      hw := SetBit(hw, i, ByteBit(second, (i - 8) as bv3));
      i := i + 1;
    }
    FromTwoBytesBits(first, second);
    CodewordEquality(hw, FromTwoBytes(first, second));
    FromTwoBytesValue(first, second);
  }
}
