/** Characters as JavaScript's regular expressions and string methods see them. */
module Texts {

  const LONG_S: char := '\U{017F}'
  const KELVIN: char := '\U{212A}'

  predicate IsAsciiAlpha(c: char) {
    'a' <= c <= 'z' || 'A' <= c <= 'Z'
  }

  predicate IsAsciiAlnum(c: char) {
    IsAsciiAlpha(c) || '0' <= c <= '9'
  }

  /** [a-z] with the flags i and u, which also fold the long s and the Kelvin sign. */
  predicate IsLetter(c: char) {
    IsAsciiAlpha(c) || c == LONG_S || c == KELVIN
  }

  /** \w with the flags i and u. */
  predicate IsWordChar(c: char) {
    IsLetter(c) || '0' <= c <= '9' || c == '_'
  }

  /** \s, and what `trim` removes. */
  predicate IsSpace(c: char) {
    c in "\t\n\r \U{000B}\U{000C}\U{00A0}\U{1680}\U{2028}\U{2029}\U{202F}\U{205F}\U{3000}\U{FEFF}" ||
    '\U{2000}' <= c <= '\U{200A}'
  }
}
