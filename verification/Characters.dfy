/** Classes of ASCII characters. */
module Characters {

  predicate IsLetter(c: char) {
    'A' <= c <= 'Z' || 'a' <= c <= 'z'
  }

  predicate IsDigit(c: char) {
    '0' <= c <= '9'
  }

  /** The lower-case hexadecimal digits. */
  const HEX: string := "0123456789abcdef"
}
