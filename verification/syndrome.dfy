/**
 The syndrome cTest computes: the parity bits C a word carries XOR the
 parity bits its data M would be encoded with.

 The reference it is proved against is the textbook Hamming check: bit k
 of the syndrome is the parity of the codeword bits at the positions whose
 index has bit k set. From that view the syndrome is linear, a single set
 bit at position p has syndrome p, and every codeword has syndrome 0.
 */
module Syndromes {
  import opened Bits
  import opened Layout
  import opened Encoder

  /** syndromeWord in cTest: C of hw XOR C of encodeByte(M of hw). */
  function Syndrome(hw: Codeword): bv4 {
    Split(hw).c ^ Split(EncodeByte(Split(hw).m)).c
  }

  /** Whether check k covers position i: the index i has bit k set. */
  predicate InCheck(i: bv4, k: bv2) {
    NibbleBit(i, k)
  }

  /** Hamming check k over the positions below n: the XOR of the bits of x it covers. */
  function CheckParity(x: Codeword, k: bv2, n: bv4): bool
    requires n <= 13
    decreases n
  {
    if n == 0 then false
    else CheckParity(x, k, n - 1) != (Bit(x, n - 1) && InCheck(n - 1, k))
  }

  /** Check k over the whole codeword fails. */
  predicate CheckFails(x: Codeword, k: bv2) {
    CheckParity(x, k, 13)
  }

  /** Four check outcomes as a nibble, outcome k in bit k. */
  function Nibble(c0: bool, c1: bool, c2: bool, c3: bool): bv4 {
    (if c0 then 1 else 0) ^ (if c1 then 2 else 0) ^ (if c2 then 4 else 0) ^ (if c3 then 8 else 0)
  }

  /** Building nibbles commutes with XOR. */
  lemma NibbleOfXor(a0: bool, a1: bool, a2: bool, a3: bool, b0: bool, b1: bool, b2: bool, b3: bool)
    ensures Nibble(a0 != b0, a1 != b1, a2 != b2, a3 != b3) == Nibble(a0, a1, a2, a3) ^ Nibble(b0, b1, b2, b3)
  {
  }

  /** The four Hamming checks as one nibble, check k in bit k. */
  function Checks(x: Codeword): bv4 {
    Nibble(CheckFails(x, 0), CheckFails(x, 1), CheckFails(x, 2), CheckFails(x, 3))
  }

  /** Bit k of Checks(x) is check k. */
  lemma ChecksBit(x: Codeword, k: bv2)
    ensures NibbleBit(Checks(x), k) == CheckFails(x, k)
  {
  }

  /** Check k, written out over positions 1..12 (position 0 is in no check). */
  function CheckWrittenOut(x: Codeword, k: bv2): bool {
    (((((((((((Bit(x, 1) && InCheck(1, k)) != (Bit(x, 2) && InCheck(2, k))) != (Bit(x, 3) && InCheck(3, k)))
      != (Bit(x, 4) && InCheck(4, k))) != (Bit(x, 5) && InCheck(5, k))) != (Bit(x, 6) && InCheck(6, k)))
      != (Bit(x, 7) && InCheck(7, k))) != (Bit(x, 8) && InCheck(8, k))) != (Bit(x, 9) && InCheck(9, k)))
      != (Bit(x, 10) && InCheck(10, k))) != (Bit(x, 11) && InCheck(11, k))) != (Bit(x, 12) && InCheck(12, k))
  }

  /** Unfolds CheckParity over all thirteen positions. */
  lemma CheckParityUnfolded(x: Codeword, k: bv2)
    ensures CheckParity(x, k, 13) == CheckWrittenOut(x, k)
  {
    assert CheckParity(x, k, 1) == false;
    assert CheckParity(x, k, 2) == (Bit(x, 1) && InCheck(1, k));
    assert CheckParity(x, k, 3) == (CheckParity(x, k, 2) != (Bit(x, 2) && InCheck(2, k)));
    assert CheckParity(x, k, 4) == (CheckParity(x, k, 3) != (Bit(x, 3) && InCheck(3, k)));
    assert CheckParity(x, k, 5) == (CheckParity(x, k, 4) != (Bit(x, 4) && InCheck(4, k)));
    assert CheckParity(x, k, 6) == (CheckParity(x, k, 5) != (Bit(x, 5) && InCheck(5, k)));
    assert CheckParity(x, k, 7) == (CheckParity(x, k, 6) != (Bit(x, 6) && InCheck(6, k)));
    assert CheckParity(x, k, 8) == (CheckParity(x, k, 7) != (Bit(x, 7) && InCheck(7, k)));
    assert CheckParity(x, k, 9) == (CheckParity(x, k, 8) != (Bit(x, 8) && InCheck(8, k)));
    assert CheckParity(x, k, 10) == (CheckParity(x, k, 9) != (Bit(x, 9) && InCheck(9, k)));
    assert CheckParity(x, k, 11) == (CheckParity(x, k, 10) != (Bit(x, 10) && InCheck(10, k)));
    assert CheckParity(x, k, 12) == (CheckParity(x, k, 11) != (Bit(x, 11) && InCheck(11, k)));
  }

  /** C of an encoded word is the parity nibble of its data. */
  lemma EncodedParityField(word: Byte)
    ensures Split(EncodeByte(word)).c == ParityBits(word)
  {
  }

  /** Bit 0 of the syndrome is Hamming check 0. */
  lemma SyndromeBit0(x: Codeword)
    ensures NibbleBit(Syndrome(x), 0) == CheckFails(x, 0)
  {
    EncodedParityField(Split(x).m);
    CheckParityUnfolded(x, 0);
  }

  /** Bit 1 of the syndrome is Hamming check 1. */
  lemma SyndromeBit1(x: Codeword)
    ensures NibbleBit(Syndrome(x), 1) == CheckFails(x, 1)
  {
    EncodedParityField(Split(x).m);
    CheckParityUnfolded(x, 1);
  }

  /** Bit 2 of the syndrome is Hamming check 2. */
  lemma SyndromeBit2(x: Codeword)
    ensures NibbleBit(Syndrome(x), 2) == CheckFails(x, 2)
  {
    EncodedParityField(Split(x).m);
    CheckParityUnfolded(x, 2);
  }

  /** Bit 3 of the syndrome is Hamming check 3. */
  lemma SyndromeBit3(x: Codeword)
    ensures NibbleBit(Syndrome(x), 3) == CheckFails(x, 3)
  {
    EncodedParityField(Split(x).m);
    CheckParityUnfolded(x, 3);
  }

  /** The syndrome cTest computes is the nibble of the four Hamming checks. */
  lemma SyndromeIsChecks(x: Codeword)
    ensures Syndrome(x) == Checks(x)
  {
    SyndromeBit0(x);
    SyndromeBit1(x);
    SyndromeBit2(x);
    SyndromeBit3(x);
    ChecksBit(x, 0);
    ChecksBit(x, 1);
    ChecksBit(x, 2);
    ChecksBit(x, 3);
    NibbleEquality(Syndrome(x), Checks(x));
  }

  /** Each check is linear. */
  lemma {:induction false} CheckParityOfXor(a: Codeword, b: Codeword, k: bv2, n: bv4)
    requires n <= 13
    ensures CheckParity(a ^ b, k, n) == (CheckParity(a, k, n) != CheckParity(b, k, n))
    decreases n
  {
    if n > 0 {
      CheckParityOfXor(a, b, k, n - 1);
      BitOfXor(a, b, n - 1);
    }
  }

  /** The checks are linear: the checks of a ^ b are the XOR of the checks. */
  lemma ChecksOfXor(a: Codeword, b: Codeword)
    ensures Checks(a ^ b) == Checks(a) ^ Checks(b)
  {
    CheckParityOfXor(a, b, 0, 13);
    CheckParityOfXor(a, b, 1, 13);
    CheckParityOfXor(a, b, 2, 13);
    CheckParityOfXor(a, b, 3, 13);
    NibbleOfXor(CheckFails(a, 0), CheckFails(a, 1), CheckFails(a, 2), CheckFails(a, 3),
      CheckFails(b, 0), CheckFails(b, 1), CheckFails(b, 2), CheckFails(b, 3));
  }

  /** A single set bit at position p fails the checks named by the bits of p. */
  lemma {:induction false} CheckParityOfUnit(p: Position, k: bv2, n: bv4)
    requires n <= 13
    ensures CheckParity(Unit(p), k, n) == (p < n && InCheck(p, k))
    decreases n
  {
    if n > 0 {
      CheckParityOfUnit(p, k, n - 1);
    }
  }

  /** A single set bit at position p has syndrome p; position 0 is outside every check. */
  lemma ChecksOfUnit(p: Position)
    ensures Checks(Unit(p)) == p
  {
    CheckParityOfUnit(p, 0, 13);
    CheckParityOfUnit(p, 1, 13);
    CheckParityOfUnit(p, 2, 13);
    CheckParityOfUnit(p, 3, 13);
  }

  /** Every codeword passes all four checks. */
  lemma ChecksOfCodeword(word: Byte)
    ensures Checks(EncodeByte(word)) == 0
  {
    SyndromeIsChecks(EncodeByte(word));
  }

  /** Flipping bit p moves the syndrome by p (by nothing for p = 0). */
  lemma ChecksOfFlip(x: Codeword, p: Position)
    ensures Checks(Flip(x, p)) == Checks(x) ^ p
  {
    ChecksOfXor(x, Unit(p));
    ChecksOfUnit(p);
  }
}
