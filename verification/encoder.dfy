/**
 encodeByte: a data byte becomes a 13-bit codeword. The four parity bits
 C0..C3 are XORs of data bits chosen by the Hamming rule (C_k covers the
 data bits whose codeword position has bit k set), and G makes the
 overall parity of the codeword even.
 */
module Encoder {
  import opened Bits
  import opened Layout

  /** word[j] as a one-bit value, so that XOR of bits reads as in hamming.cpp. */
  function DataBit(word: Byte, j: bv3): bv1 {
    ((word >> j) & 1) as bv1
  }

  /** The parity bit C_k of a data word: the XOR of the data bits hamming.cpp lists for it. */
  function ParityBit(word: Byte, k: bv2): bv1 {
    match k
    case 0 => DataBit(word, 6) ^ DataBit(word, 4) ^ DataBit(word, 3) ^ DataBit(word, 1) ^ DataBit(word, 0)
    case 1 => DataBit(word, 6) ^ DataBit(word, 5) ^ DataBit(word, 3) ^ DataBit(word, 2) ^ DataBit(word, 0)
    case 2 => DataBit(word, 7) ^ DataBit(word, 3) ^ DataBit(word, 2) ^ DataBit(word, 1)
    case 3 => DataBit(word, 7) ^ DataBit(word, 6) ^ DataBit(word, 5) ^ DataBit(word, 4)
  }

  /** The four parity bits C as one nibble. */
  function ParityBits(word: Byte): (c: bv4)
    ensures forall k: bv2 :: NibbleBit(c, k) == (ParityBit(word, k) == 1)
  {
    (ParityBit(word, 0) as bv4) | ((ParityBit(word, 1) as bv4) << 1)
      | ((ParityBit(word, 2) as bv4) << 2) | ((ParityBit(word, 3) as bv4) << 3)
  }

  /** G: the XOR of the eight data bits and the four parity bits C, in the order hamming.cpp lists them. */
  function OverallParityBit(word: Byte, c: bv4): bv1 {
    var c0 := (c & 1) as bv1;
    var c1 := ((c >> 1) & 1) as bv1;
    var c2 := ((c >> 2) & 1) as bv1;
    var c3 := ((c >> 3) & 1) as bv1;
    DataBit(word, 7) ^ DataBit(word, 6) ^ DataBit(word, 5) ^ DataBit(word, 4) ^ c3 ^ DataBit(word, 3)
      ^ DataBit(word, 2) ^ DataBit(word, 1) ^ c2 ^ DataBit(word, 0) ^ c1 ^ c0
  }

  /** encodeByte: fills M with the word, C with its parity bits, G with the overall parity, then lays the word out. */
  function EncodeByte(word: Byte): (hw: Codeword)
    ensures Split(hw).m == word
    ensures forall k: bv2 :: Bit(hw, ParityPosition(k)) == (ParityBit(word, k) == 1)
  {
    var c := ParityBits(word);
    Join(StructWord(word, c, OverallParityBit(word, c)))
  }

  /** Distinct bytes have distinct codewords: the data bits are read back. */
  lemma EncodeByteInjective(a: Byte, b: Byte)
    requires EncodeByte(a) == EncodeByte(b)
    ensures a == b
  {
  }

  /** Whether parity bit C_k checks data bit M_j: position of M_j has bit k set. */
  function Covers(j: bv3, k: bv2): bool {
    NibbleBit(DataPosition(j), k)
  }

  /** XOR of the data bits M_j, j < n, whose codeword position has bit k set. */
  function CoveredDataParity(word: Byte, k: bv2, n: bv4): bool
    requires n <= 8
    decreases n
  {
    if n == 0 then false
    else CoveredDataParity(word, k, n - 1) != (ByteBit(word, (n - 1) as bv3) && Covers((n - 1) as bv3, k))
  }

  /** CoveredDataParity over all eight data bits, written out bit by bit. */
  lemma CoveredDataParityUnfolded(word: Byte, k: bv2)
    ensures CoveredDataParity(word, k, 8) ==
      ((((((((ByteBit(word, 0) && Covers(0, k)) != (ByteBit(word, 1) && Covers(1, k)))
        != (ByteBit(word, 2) && Covers(2, k))) != (ByteBit(word, 3) && Covers(3, k)))
        != (ByteBit(word, 4) && Covers(4, k))) != (ByteBit(word, 5) && Covers(5, k)))
        != (ByteBit(word, 6) && Covers(6, k))) != (ByteBit(word, 7) && Covers(7, k)))
  {
    assert CoveredDataParity(word, k, 1) == (ByteBit(word, 0) && Covers(0, k));
    assert CoveredDataParity(word, k, 2) == (CoveredDataParity(word, k, 1) != (ByteBit(word, 1) && Covers(1, k)));
    assert CoveredDataParity(word, k, 3) == (CoveredDataParity(word, k, 2) != (ByteBit(word, 2) && Covers(2, k)));
    assert CoveredDataParity(word, k, 4) == (CoveredDataParity(word, k, 3) != (ByteBit(word, 3) && Covers(3, k)));
    assert CoveredDataParity(word, k, 5) == (CoveredDataParity(word, k, 4) != (ByteBit(word, 4) && Covers(4, k)));
    assert CoveredDataParity(word, k, 6) == (CoveredDataParity(word, k, 5) != (ByteBit(word, 5) && Covers(5, k)));
    assert CoveredDataParity(word, k, 7) == (CoveredDataParity(word, k, 6) != (ByteBit(word, 6) && Covers(6, k)));
  }

  /** The Hamming rule: parity bit C_k checks exactly the data positions with bit k set. */
  lemma ParityBitCoversPositions(word: Byte, k: bv2)
    ensures (ParityBit(word, k) == 1) == CoveredDataParity(word, k, 8)
  {
    CoveredDataParityUnfolded(word, k);
  }

  /** Every codeword has even overall parity. */
  lemma EncodeByteEvenParity(word: Byte)
    ensures EvenParity(EncodeByte(word))
  {
    ParityBelowUnfolded(EncodeByte(word));
  }

  /** Two concrete codewords: the all-zero and the all-one byte. */
  lemma EncodeByteExamples()
    ensures EncodeByte(0x00) == 0
    ensures EncodeByte(0xFF) == 0x1EEE
  {
  }
}
