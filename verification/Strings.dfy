/** Characters and terminated strings. */
module Strings {

  const NUL: char := '\0'

  predicate IsSpace(c: char) {
    c == ' ' || '\t' <= c <= '\r'
  }

  /** The first len characters of the buffer hold as much of the text as fits, terminated. */
  predicate Filled(b: string, len: nat, text: string) {
    && len <= |b|
    && (len > 0 ==> var n := if |text| < len then |text| else len - 1; b[..n] == text[..n] && b[n] == NUL)
  }
}
