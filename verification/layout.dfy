/**
 The bit layout of a codeword (hamming::StructWord). Position 0 holds the
 overall parity bit G, the power-of-two positions 1, 2, 4 and 8 hold the
 parity bits C0..C3, and the remaining positions 3, 5, 6, 7, 9, 10, 11 and
 12 hold the data bits M0..M7, both in ascending order.

 Split and Join state the layout as a table; SetStruct and
 GetStructuredHW walk the positions the way hamming.cpp does, sending each
 bit to C or M according to isPowOf2, and are proved to agree with the table.
 */
module Layout {
  import opened Bits

  /** The three fields of a structured word: M (data), C (parity), G (overall parity). */
  datatype StructWord = StructWord(m: Byte, c: bv4, g: bv1)

  /** The structured word every bitset member of which is zero. */
  const EmptyWord := StructWord(0, 0, 0)

  /** isPowOf2, applied to codeword positions: n & (n - 1) == 0. */
  function IsPowOf2(n: Position): (r: bool)
    ensures r <==> n == 0 || n == 1 || n == 2 || n == 4 || n == 8
  {
    n & (n - 1) == 0
  }

  /** The codeword position of parity bit C_k. */
  function ParityPosition(k: bv2): (p: Position)
    ensures p != 0 && IsPowOf2(p)
  {
    match k
    case 0 => 1
    case 1 => 2
    case 2 => 4
    case 3 => 8
  }

  /** The codeword position of data bit M_k. */
  function DataPosition(k: bv3): (p: Position)
    ensures !IsPowOf2(p)
  {
    match k
    case 0 => 3
    case 1 => 5
    case 2 => 6
    case 3 => 7
    case 4 => 9
    case 5 => 10
    case 6 => 11
    case 7 => 12
  }

  /** Each table lists its positions in ascending order. */
  lemma PositionsAscend(j: bv3, k: bv3, a: bv2, b: bv2)
    ensures j < k ==> DataPosition(j) < DataPosition(k)
    ensures a < b ==> ParityPosition(a) < ParityPosition(b)
  {
  }

  /** The table view of setStruct: which codeword bit lands in which field. */
  function Split(hw: Codeword): (w: StructWord)
    ensures (w.g == 1) == Bit(hw, 0)
    ensures forall k: bv2 :: NibbleBit(w.c, k) == Bit(hw, ParityPosition(k))
    ensures forall k: bv3 :: ByteBit(w.m, k) == Bit(hw, DataPosition(k))
  {
    StructWord(
      (((hw >> 3) & 0x01) | ((hw >> 4) & 0x0E) | ((hw >> 5) & 0xF0)) as bv8,
      (((hw >> 1) & 0x3) | ((hw >> 2) & 0x4) | ((hw >> 5) & 0x8)) as bv4,
      (hw & 1) as bv1)
  }

  /** The table view of getStructuredHW: the inverse of Split. */
  function Join(w: StructWord): (hw: Codeword)
    ensures Split(hw) == w
  {
    var m := w.m as bv13;
    var c := w.c as bv13;
    (w.g as bv13) | ((c & 0x3) << 1) | ((c & 0x4) << 2) | ((c & 0x8) << 5)
      | ((m & 0x01) << 3) | ((m & 0x0E) << 4) | ((m & 0xF0) << 5)
  }

  /** Splitting a codeword and joining it back gives the same codeword. */
  lemma JoinSplit(hw: Codeword)
    ensures Join(Split(hw)) == hw
  {
  }

  /** How many of the parity positions 1, 2, 4, 8 lie in 1..i-1. */
  ghost function ParityCountBelow(i: bv4): bv4 {
    if i <= 1 then 0 else if i <= 2 then 1 else if i <= 4 then 2 else if i <= 8 then 3 else 4
  }

  /**
   Walking positions 1..12 in order, a position is the next parity slot
   when isPowOf2 holds and the next data slot otherwise.
   */
  lemma WalkMeetsTables(i: Position)
    requires 1 <= i
    ensures IsPowOf2(i) ==> ParityCountBelow(i) < 4 && ParityPosition(ParityCountBelow(i) as bv2) == i
    ensures !IsPowOf2(i) ==> i - 1 - ParityCountBelow(i) < 8 && DataPosition((i - 1 - ParityCountBelow(i)) as bv3) == i
    ensures forall k: bv2 :: k as bv4 < ParityCountBelow(i) ==> ParityPosition(k) < i
    ensures forall k: bv3 :: k as bv4 < i - 1 - ParityCountBelow(i) ==> DataPosition(k) < i
  {
  }

  /** C[k] = b. */
  function SetNibbleBit(x: bv4, k: bv2, b: bool): (r: bv4)
    ensures NibbleBit(r, k) == b
    ensures forall j: bv2 :: j != k ==> NibbleBit(r, j) == NibbleBit(x, j)
  {
    if NibbleBit(x, k) == b then x else x ^ (1 << k)
  }

  /** M[k] = b. */
  function SetByteBit(x: Byte, k: bv3, b: bool): (r: Byte)
    ensures ByteBit(r, k) == b
    ensures forall j: bv3 :: j != k ==> ByteBit(r, j) == ByteBit(x, j)
  {
    if ByteBit(x, k) == b then x else x ^ (1 << k)
  }

  /** hw[i] = b. */
  function SetBit(x: Codeword, i: Position, b: bool): (r: Codeword)
    ensures Bit(r, i) == b
    ensures forall j: Position :: j != i ==> Bit(r, j) == Bit(x, j)
  {
    if Bit(x, i) == b then x else Flip(x, i)
  }

  /** Four parity bits that agree bit by bit are equal. */
  lemma NibbleEquality(a: bv4, b: bv4)
    requires forall k: bv2 :: NibbleBit(a, k) == NibbleBit(b, k)
    ensures a == b
  {
    assert NibbleBit(a, 0) == NibbleBit(b, 0) && NibbleBit(a, 1) == NibbleBit(b, 1);
    assert NibbleBit(a, 2) == NibbleBit(b, 2) && NibbleBit(a, 3) == NibbleBit(b, 3);
  }

  /** Two data words that agree bit by bit are equal. */
  lemma ByteEquality(a: Byte, b: Byte)
    requires forall k: bv3 :: ByteBit(a, k) == ByteBit(b, k)
    ensures a == b
  {
    assert ByteBit(a, 0) == ByteBit(b, 0) && ByteBit(a, 1) == ByteBit(b, 1);
    assert ByteBit(a, 2) == ByteBit(b, 2) && ByteBit(a, 3) == ByteBit(b, 3);
    assert ByteBit(a, 4) == ByteBit(b, 4) && ByteBit(a, 5) == ByteBit(b, 5);
    assert ByteBit(a, 6) == ByteBit(b, 6) && ByteBit(a, 7) == ByteBit(b, 7);
  }

  /** One parity step of setStruct keeps C equal to the table on the slots filled so far. */
  lemma ParitySlotFilled(hw: Codeword, c: bv4, n: bv4)
    requires n < 4
    requires forall k: bv2 :: k as bv4 < n ==> NibbleBit(c, k) == Bit(hw, ParityPosition(k))
    ensures forall k: bv2 :: k as bv4 < n + 1 ==>
      NibbleBit(SetNibbleBit(c, n as bv2, Bit(hw, ParityPosition(n as bv2))), k) == Bit(hw, ParityPosition(k))
  {
  }

  /** One data step of setStruct keeps M equal to the table on the slots filled so far. */
  lemma DataSlotFilled(hw: Codeword, m: Byte, n: bv4)
    requires n < 8
    requires forall k: bv3 :: k as bv4 < n ==> ByteBit(m, k) == Bit(hw, DataPosition(k))
    ensures forall k: bv3 :: k as bv4 < n + 1 ==>
      ByteBit(SetByteBit(m, n as bv3, Bit(hw, DataPosition(n as bv3))), k) == Bit(hw, DataPosition(k))
  {
  }

  /** Two codewords that agree bit by bit are equal. */
  lemma CodewordEquality(a: Codeword, b: Codeword)
    requires forall i: Position :: Bit(a, i) == Bit(b, i)
    ensures a == b
  {
    NibbleEquality(Split(a).c, Split(b).c);
    ByteEquality(Split(a).m, Split(b).m);
    JoinSplit(a);
    JoinSplit(b);
  }

  /**
   setStruct on a freshly constructed word: G takes hw[0]; positions 1..12
   go in order to C when isPowOf2 holds and to M otherwise.
   */
  method SetStruct(hw: Codeword) returns (w: StructWord)
    ensures w == Split(hw)
  {
    var g: bv1 := if Bit(hw, 0) then 1 else 0;
    var c: bv4 := 0;
    var m: Byte := 0;
    var cIdx: bv4 := 0;
    var mIdx: bv4 := 0;
    var i: bv4 := 1;
    while i < 13
      invariant 1 <= i <= 13
      invariant cIdx == ParityCountBelow(i) && mIdx == i - 1 - cIdx
      invariant forall k: bv2 :: k as bv4 < cIdx ==> NibbleBit(c, k) == Bit(hw, ParityPosition(k))
      invariant forall k: bv3 :: k as bv4 < mIdx ==> ByteBit(m, k) == Bit(hw, DataPosition(k))
      decreases 13 - i
    {
      WalkMeetsTables(i);
      if IsPowOf2(i) {
        ParitySlotFilled(hw, c, cIdx);
        c := SetNibbleBit(c, cIdx as bv2, Bit(hw, i));
        cIdx := cIdx + 1;
      } else {
        DataSlotFilled(hw, m, mIdx);
        m := SetByteBit(m, mIdx as bv3, Bit(hw, i));
        mIdx := mIdx + 1;
      }
      i := i + 1;
    }
    NibbleEquality(c, Split(hw).c);
    ByteEquality(m, Split(hw).m);
    w := StructWord(m, c, g);
  }

  /** One parity step of getStructuredHW places C_n and keeps every other codeword bit. */
  lemma ParityBitPlaced(hw: Codeword, w: StructWord, n: bv4)
    requires n < 4
    requires forall k: bv2 :: k as bv4 < n ==> Bit(hw, ParityPosition(k)) == NibbleBit(w.c, k)
    ensures forall k: bv2 :: k as bv4 < n + 1 ==>
      Bit(SetBit(hw, ParityPosition(n as bv2), NibbleBit(w.c, n as bv2)), ParityPosition(k)) == NibbleBit(w.c, k)
  {
  }

  /** One data step of getStructuredHW places M_n and keeps every other codeword bit. */
  lemma DataBitPlaced(hw: Codeword, w: StructWord, n: bv4)
    requires n < 8
    requires forall k: bv3 :: k as bv4 < n ==> Bit(hw, DataPosition(k)) == ByteBit(w.m, k)
    ensures forall k: bv3 :: k as bv4 < n + 1 ==>
      Bit(SetBit(hw, DataPosition(n as bv3), ByteBit(w.m, n as bv3)), DataPosition(k)) == ByteBit(w.m, k)
  {
  }

  /**
   getStructuredHW: hw[0] takes G; positions 1..12 are filled in order from
   C when isPowOf2 holds and from M otherwise.
   */
  method GetStructuredHW(w: StructWord) returns (hw: Codeword)
    ensures hw == Join(w)
  {
    hw := SetBit(0, 0, w.g == 1);
    var cIdx: bv4 := 0;
    var mIdx: bv4 := 0;
    var i: bv4 := 1;
    while i < 13
      invariant 1 <= i <= 13
      invariant cIdx == ParityCountBelow(i) && mIdx == i - 1 - cIdx
      invariant Bit(hw, 0) == (w.g == 1)
      invariant forall k: bv2 :: k as bv4 < cIdx ==> Bit(hw, ParityPosition(k)) == NibbleBit(w.c, k)
      invariant forall k: bv3 :: k as bv4 < mIdx ==> Bit(hw, DataPosition(k)) == ByteBit(w.m, k)
      decreases 13 - i
    {
      WalkMeetsTables(i);
      if IsPowOf2(i) {
        ParityBitPlaced(hw, w, cIdx);
        hw := SetBit(hw, i, NibbleBit(w.c, cIdx as bv2));
        cIdx := cIdx + 1;
      } else {
        DataBitPlaced(hw, w, mIdx);
        hw := SetBit(hw, i, ByteBit(w.m, mIdx as bv3));
        mIdx := mIdx + 1;
      }
      i := i + 1;
    }
    NibbleEquality(Split(hw).c, w.c);
    ByteEquality(Split(hw).m, w.m);
    JoinSplit(hw);
  }
}
