/**
 The few std::string operations the file-name helpers use: find_last_of
 with a one-character set, substr with its clipped count, and size() - 1
 computed in the 64-bit unsigned size_t. A std::string holds bytes; here
 each char of a Dafny string stands for one of them.
 */
module Strings {

  /** Option for find_last_of: None stands for string::npos. */
  datatype Option<T> = None | Some(value: T)

  /** The largest size_t: size_t is 64 bits wide and string::npos is this value. */
  const SizeMax: nat := 0xFFFF_FFFF_FFFF_FFFF

  /** size_t subtraction, which wraps around modulo 2^64. */
  function SizeSub(a: nat, b: nat): (r: nat)
    requires a <= SizeMax && b <= SizeMax
    ensures r <= SizeMax
    ensures b <= a ==> r == a - b
    ensures a < b ==> r == a - b + SizeMax + 1
  {
    (a - b) % (SizeMax + 1)
  }

  /** find_last_of(c): the index of the last occurrence of c, or None. */
  function FindLastOf(s: string, c: char): (r: Option<nat>)
    ensures r.None? <==> c !in s
    ensures r.Some? ==> r.value < |s| && s[r.value] == c && c !in s[r.value + 1..]
  {
    if |s| == 0 then None
    else if s[|s| - 1] == c then Some(|s| - 1)
    else
      var r := FindLastOf(s[..|s| - 1], c);
      assert s == s[..|s| - 1] + [s[|s| - 1]];
      r
  }

  /** substr(pos, count): at most count characters from pos on; the count is clipped at the end. */
  function Substr(s: string, pos: nat, count: nat): (r: string)
    requires pos <= |s|
    ensures |r| == if count < |s| - pos then count else |s| - pos
    ensures forall i :: 0 <= i < |r| ==> r[i] == s[pos + i]
  {
    if count < |s| - pos then s[pos..pos + count] else s[pos..]
  }
}
