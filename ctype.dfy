/** The C-locale character classification tables (ISO C11, sections 7.4.1.8 and
    7.4.1.10) that xdd consults, over bytes and over the characters of argument strings. */
module CType {

  /** One byte of the input stream: the unsigned value of a `char`. */
  type Byte = b: int | 0 <= b < 0x100

  /** A C string's contents: the characters before its terminating NUL. */
  type CString = s: string | '\0' !in s

  /** `isspace` in the C locale: space, and the controls `\t` `\n` `\v` `\f` `\r`.
      Bytes at or above 0x80 (negative as `signed char`) are taken as not spaces. */
  predicate IsSpace(b: Byte) {
    b == 0x20 || 0x09 <= b <= 0x0D
  }

  /** `isprint` in the C locale: the 95 graphic ASCII characters and space. */
  predicate IsPrint(b: Byte) {
    0x20 <= b <= 0x7E
  }

  /** `isspace` applied to a character of an argument string. */
  predicate IsSpaceChar(c: char) {
    c == ' ' || c == '\t' || c == '\n' || c == '\U{B}' || c == '\U{C}' || c == '\r'
  }

  /** The two forms of `isspace` agree: a character is white space exactly when it
      is a byte that is. */
  lemma SpaceCharIsSpaceByte(c: char)
    ensures IsSpaceChar(c) <==> (c as int < 0x100 && IsSpace(c as int))
  {
  }

  /** A decimal digit, as `strtol` with base 10 accepts it. */
  predicate IsDigitChar(c: char) {
    '0' <= c <= '9'
  }

  /** The value of a decimal digit. */
  function DigitValue(c: char): (d: nat)
    requires IsDigitChar(c)
    ensures d < 10
  {
    (c as int) - ('0' as int)
  }

  /** The decimal digit for a value below ten. */
  function DigitChar(d: nat): (c: char)
    requires d < 10
    ensures IsDigitChar(c) && DigitValue(c) == d
  {
    (('0' as int) + d) as char
  }
}
