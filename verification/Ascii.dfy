/** Character classes that every text operation shares. */
module Ascii {
  predicate IsDigit(c: char) { '0' <= c <= '9' }
}
