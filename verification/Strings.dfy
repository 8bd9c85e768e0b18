// Substrings and hexadecimal text.
module Strings {

  predicate Contains(s: string, part: string) { exists i :: 0 <= i <= |s| && part <= s[i..] }

  // Lower-case digits only, as every recorded hash is written.
  predicate IsHex(c: char) { '0' <= c <= '9' || 'a' <= c <= 'f' }

  predicate IsHexText(s: string, n: nat) { |s| == n && forall c :: c in s ==> IsHex(c) }

  lemma HexExact(c: char)
    ensures IsHex(c) <==> c in {'0', '1', '2', '3', '4', '5', '6', '7', '8', '9', 'a', 'b', 'c', 'd', 'e', 'f'}
  {}
}
