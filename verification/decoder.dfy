/**
 Decoding: cTest corrects the word a nonzero syndrome points at, gTest
 compares the overall parity bit G with the one the data would be encoded
 with, and decodeByte combines the two. Also getBitsetFrom2Bytes, which
 rebuilds a codeword from the two bytes it is stored in.

 Each operation is stated against the reference view: the four Hamming
 checks (Syndromes.Checks) and the overall parity (Bits.EvenParity).
 */
module Decoder {
  import opened Bits
  import opened Layout
  import opened Encoder
  import opened Syndromes

  /** The pair cTest returns: the corrected word and the error flag. */
  datatype Checked = Checked(word: StructWord, error: bool)

  /** The pair decodeByte returns: the data byte and the error flag. */
  datatype Decoded = Decoded(word: Byte, error: bool)

  /** The same G-less layout with G inverted: the codeword one flip of bit 0 away. */
  lemma SplitOfFlipZero(x: Codeword)
    ensures Split(Flip(x, 0)) == Split(x).(g := Split(x).g ^ 1)
  {
  }

  /**
   A word that passes all four checks is the codeword of its own data bits,
   up to the overall parity bit G.
   */
  lemma PassingChecksMeansCodewordUpToG(x: Codeword)
    requires Checks(x) == 0
    ensures x == EncodeByte(Split(x).m) || x == Flip(EncodeByte(Split(x).m), 0)
  {
    var e := EncodeByte(Split(x).m);
    SyndromeIsChecks(x);
    assert Split(x).c == Split(e).c;
    JoinSplit(x);
    JoinSplit(e);
    if Split(x).g != Split(e).g {
      SplitOfFlipZero(e);
      JoinSplit(Flip(e, 0));
    }
  }

  /** The codewords are exactly the words that pass all four checks and have even parity. */
  lemma CodewordCharacterization(x: Codeword)
    ensures (Checks(x) == 0 && EvenParity(x)) <==> x == EncodeByte(Split(x).m)
  {
    var e := EncodeByte(Split(x).m);
    EncodeByteEvenParity(Split(x).m);
    ChecksOfCodeword(Split(x).m);
    if Checks(x) == 0 {
      PassingChecksMeansCodewordUpToG(x);
      FlipTogglesParity(e, 0);
    }
  }

  /**
   cTest: a zero syndrome keeps the word; a syndrome above 12 is an error
   and yields the empty word; otherwise the bit the syndrome names is flipped.
   */
  function CTest(hw: Codeword): (r: Checked)
    ensures r.error <==> Checks(hw) > 12
    ensures r.error ==> r.word == EmptyWord
    ensures !r.error ==> Checks(Join(r.word)) == 0
    ensures !r.error ==> Join(r.word) == if Checks(hw) == 0 then hw else Flip(hw, Checks(hw))
  {
    var hammingWord := Split(hw);
    var syndrome := Syndrome(hw);
    SyndromeIsChecks(hw);
    if syndrome == 0 then
      JoinSplit(hw);
      Checked(hammingWord, false)
    else if syndrome > 12 then
      Checked(EmptyWord, true)
    else
      var fixed := Flip(hw, syndrome);
      ChecksOfFlip(hw, syndrome);
      JoinSplit(fixed);
      Checked(Split(fixed), false)
  }

  /**
   gTest: G of hw equals G of the encoding of hw's data. For a word that
   passes the four checks, that is exactly even overall parity.
   */
  function GTest(hw: Codeword): (ok: bool)
    ensures Checks(hw) == 0 ==> (ok <==> EvenParity(hw))
  {
    var hammingTest := EncodeByte(Split(hw).m);
    if Checks(hw) == 0 then
      PassingChecksMeansCodewordUpToG(hw);
      EncodeByteEvenParity(Split(hw).m);
      FlipTogglesParity(hammingTest, 0);
      Bit(hammingTest, 0) == Bit(hw, 0)
    else
      Bit(hammingTest, 0) == Bit(hw, 0)
  }

  /**
   decodeByte: an error from cTest, or a G mismatch on the corrected word,
   is reported with a zero byte; otherwise the corrected word's data.
   */
  function DecodeByte(hw: Codeword): (r: Decoded)
    ensures r.error ==> r.word == 0
    ensures r.error <==> Checks(hw) > 12 || (Checks(hw) == 0) != EvenParity(hw)
    ensures !r.error ==> EncodeByte(r.word) == if Checks(hw) == 0 then hw else Flip(hw, Checks(hw))
  {
    var cCorrection := CTest(hw);
    if cCorrection.error then
      Decoded(0, true)
    else
      var corrected := Join(cCorrection.word);
      FlipTogglesParity(hw, Checks(hw));
      CodewordCharacterization(corrected);
      if !GTest(corrected) then
        Decoded(0, true)
      else
        Decoded(cCorrection.word.m, false)
  }
}
