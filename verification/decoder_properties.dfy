/**
 What decodeByte guarantees about damaged codewords: an undamaged
 codeword decodes to its byte, one flipped bit at positions 1..12 is
 corrected, a flip of the overall parity bit alone is reported as an
 error, and any two flipped bits are reported as an error.
 */
module DecoderProperties {
  import opened Bits
  import opened Encoder
  import opened Syndromes
  import opened Decoder

  /** Decoding an undamaged codeword gives back its byte. */
  lemma RoundTrip(word: Byte)
    ensures DecodeByte(EncodeByte(word)) == Decoded(word, false)
  {
    ChecksOfCodeword(word);
    EncodeByteEvenParity(word);
  }

  /** The syndrome of a codeword with bit p flipped names p (0 for the overall parity bit). */
  lemma SyndromeLocatesSingleFlip(word: Byte, p: Position)
    ensures Syndrome(Flip(EncodeByte(word), p)) == p
  {
    ChecksOfCodeword(word);
    ChecksOfFlip(EncodeByte(word), p);
    SyndromeIsChecks(Flip(EncodeByte(word), p));
  }

  /** One flipped bit at a position 1..12 is corrected. */
  lemma SingleFlipCorrected(word: Byte, p: Position)
    requires p != 0
    ensures DecodeByte(Flip(EncodeByte(word), p)) == Decoded(word, false)
  {
    var e := EncodeByte(word);
    var hw := Flip(e, p);
    ChecksOfCodeword(word);
    ChecksOfFlip(e, p);
    EncodeByteEvenParity(word);
    FlipTogglesParity(e, p);
    FlipTwiceCancels(e, p);
    var r := DecodeByte(hw);
    assert !r.error;
    assert EncodeByte(r.word) == e;
    EncodeByteInjective(r.word, word);
  }

  /**
   A flip of the overall parity bit G alone leaves the syndrome 0, fails
   gTest, and is reported as an error with a zero byte.
   */
  lemma OverallBitFlipReported(word: Byte)
    ensures Syndrome(Flip(EncodeByte(word), 0)) == 0
    ensures !GTest(Flip(EncodeByte(word), 0))
    ensures DecodeByte(Flip(EncodeByte(word), 0)) == Decoded(0, true)
  {
    SyndromeLocatesSingleFlip(word, 0);
    ChecksOfCodeword(word);
    ChecksOfFlip(EncodeByte(word), 0);
    EncodeByteEvenParity(word);
    FlipTogglesParity(EncodeByte(word), 0);
  }

  /** A syndrome above 12 names no position and is reported as an error. */
  lemma LargeSyndromeReported(hw: Codeword)
    requires Syndrome(hw) > 12
    ensures DecodeByte(hw) == Decoded(0, true)
  {
    SyndromeIsChecks(hw);
  }

  /** Any two distinct flipped bits are reported as an error. */
  lemma DoubleFlipDetected(word: Byte, p: Position, q: Position)
    requires p != q
    ensures DecodeByte(Flip(Flip(EncodeByte(word), p), q)).error
  {
    var e := EncodeByte(word);
    ChecksOfCodeword(word);
    ChecksOfFlip(e, p);
    ChecksOfFlip(Flip(e, p), q);
    EncodeByteEvenParity(word);
    FlipTogglesParity(e, p);
    FlipTogglesParity(Flip(e, p), q);
  }

  /** A word that decodes without error is a codeword or a codeword with one bit other than G flipped. */
  lemma DecodedWordsAreNearCodewords(hw: Codeword)
    requires !DecodeByte(hw).error
    ensures hw == EncodeByte(DecodeByte(hw).word)
      || (Checks(hw) != 0 && hw == Flip(EncodeByte(DecodeByte(hw).word), Checks(hw)))
  {
    if Checks(hw) != 0 {
      FlipTwiceCancels(hw, Checks(hw));
    }
  }

  /** The words within one flip (other than of G) of a codeword. */
  ghost predicate NearCodeword(hw: Codeword) {
    (exists word: Byte :: hw == EncodeByte(word))
    || (exists word: Byte, p: Position :: p != 0 && hw == Flip(EncodeByte(word), p))
  }

  /** Every word that decodes without error is near a codeword. */
  lemma DecodedIsNear(hw: Codeword)
    requires !DecodeByte(hw).error
    ensures NearCodeword(hw)
  {
    DecodedWordsAreNearCodewords(hw);
    var word := DecodeByte(hw).word;
    if hw != EncodeByte(word) {
      var p: Position := Checks(hw);
      assert hw == Flip(EncodeByte(word), p);
    }
  }

  /** Every word near a codeword decodes without error. */
  lemma NearIsDecoded(hw: Codeword)
    requires NearCodeword(hw)
    ensures !DecodeByte(hw).error
  {
    if exists word: Byte :: hw == EncodeByte(word) {
      var word: Byte :| hw == EncodeByte(word);
      RoundTrip(word);
    } else {
      var word: Byte, p: Position :| p != 0 && hw == Flip(EncodeByte(word), p);
      SingleFlipCorrected(word, p);
    }
  }

  /**
   Decoding succeeds exactly on the codewords and on the codewords with one
   bit other than G flipped.
   */
  lemma DecodeSucceedsExactly(hw: Codeword)
    ensures !DecodeByte(hw).error <==> NearCodeword(hw)
  {
    if !DecodeByte(hw).error {
      DecodedIsNear(hw);
    }
    if NearCodeword(hw) {
      NearIsDecoded(hw);
    }
  }
}
