/**
 decodeByte as the extended Hamming (SECDED) scheme intends it: a word
 whose four checks pass but whose overall parity is odd has only its
 overall parity bit G damaged, so its data bits are intact and are
 returned. The decoder as written reports such a word as an error.
 */
module Secded {
  import opened Bits
  import opened Layout
  import opened Encoder
  import opened Syndromes
  import opened Decoder

  /**
   decodeByte with the G-only case corrected: when gTest fails on a word
   that cTest left unchanged (its syndrome was 0), the data bits of the
   word are returned.
   */
  function DecodeByteSecded(hw: Codeword): (r: Decoded)
    ensures r.error ==> r.word == 0
    ensures r.error <==> Checks(hw) > 12 || (Checks(hw) != 0 && EvenParity(hw))
    ensures !r.error && Checks(hw) == 0 ==> EncodeByte(r.word) == if EvenParity(hw) then hw else Flip(hw, 0)
    ensures !r.error && Checks(hw) != 0 ==> EncodeByte(r.word) == Flip(hw, Checks(hw))
  {
    var cCorrection := CTest(hw);
    if cCorrection.error then
      Decoded(0, true)
    else
      var corrected := Join(cCorrection.word);
      FlipTogglesParity(hw, Checks(hw));
      CodewordCharacterization(corrected);
      if GTest(corrected) then
        Decoded(cCorrection.word.m, false)
      else if corrected == hw then
        GOnlyDamaged(hw);
        JoinSplit(hw);
        Decoded(cCorrection.word.m, false)
      else
        Decoded(0, true)
  }

  /** A word that passes the four checks with odd parity is a codeword with G flipped. */
  lemma GOnlyDamaged(hw: Codeword)
    requires Checks(hw) == 0 && !EvenParity(hw)
    ensures EncodeByte(Split(hw).m) == Flip(hw, 0)
  {
    PassingChecksMeansCodewordUpToG(hw);
    EncodeByteEvenParity(Split(hw).m);
    FlipTwiceCancels(EncodeByte(Split(hw).m), 0);
  }

  /** Decoding an undamaged codeword gives back its byte. */
  lemma SecdedRoundTrip(word: Byte)
    ensures DecodeByteSecded(EncodeByte(word)) == Decoded(word, false)
  {
    ChecksOfCodeword(word);
    EncodeByteEvenParity(word);
    var r := DecodeByteSecded(EncodeByte(word));
    EncodeByteInjective(r.word, word);
  }

  /** One flipped bit at any position 0..12, G included, is corrected. */
  lemma SecdedCorrectsEverySingleFlip(word: Byte, p: Position)
    ensures DecodeByteSecded(Flip(EncodeByte(word), p)) == Decoded(word, false)
  {
    var e := EncodeByte(word);
    var hw := Flip(e, p);
    ChecksOfCodeword(word);
    ChecksOfFlip(e, p);
    EncodeByteEvenParity(word);
    FlipTogglesParity(e, p);
    FlipTwiceCancels(e, p);
    var r := DecodeByteSecded(hw);
    assert !r.error;
    assert EncodeByte(r.word) == e;
    EncodeByteInjective(r.word, word);
  }

  /** Any two distinct flipped bits are still reported as an error. */
  lemma SecdedDetectsDoubleFlip(word: Byte, p: Position, q: Position)
    requires p != q
    ensures DecodeByteSecded(Flip(Flip(EncodeByte(word), p), q)).error
  {
    var e := EncodeByte(word);
    ChecksOfCodeword(word);
    ChecksOfFlip(e, p);
    ChecksOfFlip(Flip(e, p), q);
    EncodeByteEvenParity(word);
    FlipTogglesParity(e, p);
    FlipTogglesParity(Flip(e, p), q);
  }

  /** The correction changes only the words whose four checks pass with odd parity. */
  lemma SecdedDiffersOnlyOnGOnlyDamage(hw: Codeword)
    ensures DecodeByteSecded(hw) != DecodeByte(hw) <==> Checks(hw) == 0 && !EvenParity(hw)
  {
  }
}
