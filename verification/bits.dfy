/**
 Fixed-width bit vectors used by the Hamming codec: 8-bit data words
 (std::bitset<8>), 13-bit codewords (std::bitset<13>) and the positions
 0..12 inside a codeword. Positions are 4-bit values, so that shifting a
 codeword by a position stays inside the bit-vector theory.

 Also holds the overall parity of a codeword (the XOR of all its bits),
 defined bit by bit, and the two facts the SECDED argument needs about it:
 it is linear in the codeword and a single set bit has odd parity.
 */
module Bits {

  /** An 8-bit data word. */
  type Byte = bv8

  /** A 13-bit codeword. */
  type Codeword = bv13

  /** A bit position inside a codeword. */
  type Position = p: bv4 | p < 13

  /** hw[i] for a codeword. */
  function Bit(x: Codeword, i: Position): bool {
    (x >> i) & 1 == 1
  }

  /** word[k] for a data word. */
  function ByteBit(x: Byte, k: bv3): bool {
    (x >> k) & 1 == 1
  }

  /** C[k] for the four parity bits. */
  function NibbleBit(x: bv4, k: bv2): bool {
    (x >> k) & 1 == 1
  }

  /** The codeword whose only set bit is the one at position p. */
  function Unit(p: Position): (u: Codeword)
    ensures Bit(u, p)
    ensures forall i: Position :: i != p ==> !Bit(u, i)
  {
    1 << p
  }

  /** std::bitset::flip(p): the same codeword with bit p inverted. */
  function Flip(x: Codeword, p: Position): (r: Codeword)
    ensures Bit(r, p) != Bit(x, p)
    ensures forall i: Position :: i != p ==> Bit(r, i) == Bit(x, i)
  {
    var u := Unit(p);
    assert forall i: Position :: Bit(x ^ u, i) == (Bit(x, i) != Bit(u, i));
    x ^ u
  }

  lemma FlipTwiceCancels(x: Codeword, p: Position)
    ensures Flip(Flip(x, p), p) == x
  {
  }

  /** The bits of an exclusive or are the exclusive ors of the bits. */
  lemma BitOfXor(a: Codeword, b: Codeword, i: Position)
    ensures Bit(a ^ b, i) == (Bit(a, i) != Bit(b, i))
  {
  }

  /** XOR of the bits of x below position n. */
  function ParityBelow(x: Codeword, n: bv4): bool
    requires n <= 13
    decreases n
  {
    if n == 0 then false else ParityBelow(x, n - 1) != Bit(x, n - 1)
  }

  /** The overall parity of a codeword is even: its 13 bits XOR to 0. */
  predicate EvenParity(x: Codeword) {
    !ParityBelow(x, 13)
  }

  /** The same XOR, written out position by position. */
  function XorOfAllBits(x: Codeword): bool {
    ((((((((((((Bit(x, 0) != Bit(x, 1)) != Bit(x, 2)) != Bit(x, 3)) != Bit(x, 4))
      != Bit(x, 5)) != Bit(x, 6)) != Bit(x, 7)) != Bit(x, 8)) != Bit(x, 9))
      != Bit(x, 10)) != Bit(x, 11)) != Bit(x, 12))
  }

  /** Unfolds ParityBelow over all thirteen positions. */
  lemma ParityBelowUnfolded(x: Codeword)
    ensures ParityBelow(x, 13) == XorOfAllBits(x)
  {
    assert ParityBelow(x, 1) == Bit(x, 0);
    assert ParityBelow(x, 2) == (ParityBelow(x, 1) != Bit(x, 1));
    assert ParityBelow(x, 3) == (ParityBelow(x, 2) != Bit(x, 2));
    assert ParityBelow(x, 4) == (ParityBelow(x, 3) != Bit(x, 3));
    assert ParityBelow(x, 5) == (ParityBelow(x, 4) != Bit(x, 4));
    assert ParityBelow(x, 6) == (ParityBelow(x, 5) != Bit(x, 5));
    assert ParityBelow(x, 7) == (ParityBelow(x, 6) != Bit(x, 6));
    assert ParityBelow(x, 8) == (ParityBelow(x, 7) != Bit(x, 7));
    assert ParityBelow(x, 9) == (ParityBelow(x, 8) != Bit(x, 8));
    assert ParityBelow(x, 10) == (ParityBelow(x, 9) != Bit(x, 9));
    assert ParityBelow(x, 11) == (ParityBelow(x, 10) != Bit(x, 10));
    assert ParityBelow(x, 12) == (ParityBelow(x, 11) != Bit(x, 11));
  }

  /** Parity is linear: the parity of a ^ b is the XOR of the parities. */
  lemma {:induction false} ParityBelowOfXor(a: Codeword, b: Codeword, n: bv4)
    requires n <= 13
    ensures ParityBelow(a ^ b, n) == (ParityBelow(a, n) != ParityBelow(b, n))
    decreases n
  {
    if n > 0 {
      ParityBelowOfXor(a, b, n - 1);
      BitOfXor(a, b, n - 1);
    }
  }

  /** A single set bit at position p is counted once p is below n. */
  lemma {:induction false} ParityBelowOfUnit(p: Position, n: bv4)
    requires n <= 13
    ensures ParityBelow(Unit(p), n) == (p < n)
    decreases n
  {
    if n > 0 {
      ParityBelowOfUnit(p, n - 1);
    }
  }

  /** Flipping one bit turns even parity into odd parity and back. */
  lemma FlipTogglesParity(x: Codeword, p: Position)
    ensures EvenParity(Flip(x, p)) == !EvenParity(x)
  {
    ParityBelowOfXor(x, Unit(p), 13);
    ParityBelowOfUnit(p, 13);
  }
}
