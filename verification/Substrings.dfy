/** Occurrences of one byte string in another, and of a byte in a string. */
module Substrings {
  import opened Prelude

  predicate OccursAt(pattern: Bytes, text: Bytes, i: int) {
    0 <= i <= |text| - |pattern| && text[i..i + |pattern|] == pattern
  }

  predicate Occurs(pattern: Bytes, text: Bytes) {
    exists i :: 0 <= i <= |text| && OccursAt(pattern, text, i)
  }

  /** The position of the first `b`, or the length when there is none. */
  function FirstIndex(b: byte, s: Bytes): (n: nat)
    ensures n <= |s| && (n < |s| ==> s[n] == b)
    ensures forall i :: 0 <= i < n ==> s[i] != b
  {
    if s == [] || s[0] == b then 0
    else
      var n := FirstIndex(b, s[1..]);
      assert forall i :: 1 <= i < |s| ==> s[i] == s[1..][i - 1];
      n + 1
  }

  /** A byte moves from the front of what is left to the end of what is done. */
  lemma Shift(done: Bytes, b: byte, left: Bytes)
    ensures done + ([b] + left) == done + [b] + left
  {
  }
}
