/** How xdd colours a byte and which glyph its character column shows. The hex
    view and the character view classify a byte by two slightly different chains
    of tests; the first test that matches decides. */
module Classify {
  import opened CType

  /** The ANSI foreground colours xdd uses. */
  datatype Color = White | Blue | Yellow | Red | Green

  const Esc: char := '\U{1B}'

  /** The SGR parameter of each colour. */
  function ColorCode(c: Color): string {
    match c
    case White => "37"
    case Blue => "34"
    case Yellow => "33"
    case Red => "31"
    case Green => "32"
  }

  /** The escape sequence that selects a colour, such as `ESC [ 3 7 m`. */
  function Escape(c: Color): string {
    [Esc] + "[" + ColorCode(c) + "m"
  }

  /** Bold, written before each row's hex grid. */
  const Bold: string := [Esc] + "[1m"

  /** Reset, written at the end of each row. */
  const Reset: string := [Esc] + "[0m"

  /** The escape sequences as the bytes the terminal receives: ESC, `[`, the
      SGR parameter and `m`. */
  lemma EscapeCodes()
    ensures Escape(White) == "\U{1B}[37m" && Escape(Blue) == "\U{1B}[34m"
    ensures Escape(Yellow) == "\U{1B}[33m" && Escape(Red) == "\U{1B}[31m"
    ensures Escape(Green) == "\U{1B}[32m"
    ensures Bold == "\U{1B}[1m" && Reset == "\U{1B}[0m"
  {}

  /** The colour of a byte in the hex view: the first of these tests that holds
      decides. */
  function HexColor(b: Byte): Color {
    if b == 0x00 then White
    else if b == 0xFF then Blue
    else if IsSpace(b) && b != 0x20 then Yellow
    else if !IsPrint(b) then Red
    else Green
  }

  /** In the hex view NUL is white, 0xFF blue, white space other than the space
      character yellow, any other non-printable byte red, and a printable byte
      green. */
  lemma HexColorClasses(b: Byte)
    ensures HexColor(b) == White <==> b == 0x00
    ensures HexColor(b) == Blue <==> b == 0xFF
    ensures HexColor(b) == Yellow <==> 0x09 <= b <= 0x0D
    ensures HexColor(b) == Red <==> 0x01 <= b <= 0x08 || 0x0E <= b <= 0x1F || 0x7F <= b <= 0xFE
    ensures HexColor(b) == Green <==> IsPrint(b)
  {
  }

  /** The colour of a byte in the character view: the same chain of tests, except
      that only the newline is singled out among the white space. */
  function CharColor(b: Byte): Color {
    if b == 0x00 then White
    else if b == 0xFF then Blue
    else if b == 0x0A then Yellow
    else if !IsPrint(b) then Red
    else Green
  }

  /** In the character view only the newline is yellow; tab, vertical tab, form
      feed and carriage return fall through to red. */
  lemma CharColorClasses(b: Byte)
    ensures CharColor(b) == White <==> b == 0x00
    ensures CharColor(b) == Blue <==> b == 0xFF
    ensures CharColor(b) == Yellow <==> b == 0x0A
    ensures CharColor(b) == Red <==> 0x01 <= b <= 0x09 || 0x0B <= b <= 0x1F || 0x7F <= b <= 0xFE
    ensures CharColor(b) == Green <==> IsPrint(b)
  {
  }

  /** The glyph the character view shows: the character itself when printable,
      otherwise a dot. */
  function Glyph(b: Byte): (g: char)
    ensures IsPrint(b) ==> g as int == b
    ensures !IsPrint(b) ==> g == '.'
    ensures g != '\n' && g != Esc
  {
    if IsPrint(b) then b as char else '.'
  }

  /** The two views colour a byte differently exactly for tab, vertical tab, form
      feed and carriage return. */
  lemma ViewsDisagreeOnControlSpaces(b: Byte)
    ensures HexColor(b) != CharColor(b) <==> b == 0x09 || b == 0x0B || b == 0x0C || b == 0x0D
    ensures HexColor(b) != CharColor(b) ==> HexColor(b) == Yellow && CharColor(b) == Red
  {
  }
}
