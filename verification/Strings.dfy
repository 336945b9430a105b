/** Characters of NUL-terminated strings. */
module Strings {
  const NUL: char := '\0'

  /** The character at `i`; behind the string there is its terminator. */
  function At(s: string, i: nat): char {
    if i < |s| then s[i] else NUL
  }

  predicate IsHex(c: char) {
    '0' <= c <= '9' || 'a' <= c <= 'f' || 'A' <= c <= 'F'
  }
}
