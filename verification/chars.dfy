/** ASCII character classes shared by the two field normalisers. */
module Chars {

  predicate IsLower(c: char) { 'a' <= c <= 'z' }

  predicate IsUpper(c: char) { 'A' <= c <= 'Z' }

  /** A character that `\d` matches (ASCII digits only). */
  predicate IsDigit(c: char) { '0' <= c <= '9' }
}
