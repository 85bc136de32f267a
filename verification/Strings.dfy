/** Whitespace (lib/src/tux64/string.c). */
module Strings {
  predicate IsWhitespace(c: char) {
    c as int in {0x09, 0x0a, 0x0b, 0x0c, 0x0d, 0x20}
  }

  predicate AllWhitespace(s: string) {
    forall i :: 0 <= i < |s| ==> IsWhitespace(s[i])
  }
}
