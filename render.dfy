/** The text of one output row of xdd: the offset, the hex grid and the character
    column, with their escape sequences; and what a reader sees of it once the
    escape sequences are taken out. */
module Render {
  import opened CType
  import opened HexFormat
  import opened Classify

  /** The part of the hex grid for column position `i` of a row holding `chunk`:
      a space before every nonzero even position, then the coloured byte, or two
      spaces past the end of a short row. */
  function HexCell(chunk: seq<Byte>, i: nat): string {
    (if i > 0 && i % 2 == 0 then " " else "")
    + (if i < |chunk| then Escape(HexColor(chunk[i])) + Hex2(chunk[i]) else "  ")
  }

  /** The hex grid from position `i` up to `columns`. */
  function HexGridFrom(chunk: seq<Byte>, i: nat, columns: nat): string
    decreases columns - i
  {
    if i >= columns then "" else HexCell(chunk, i) + HexGridFrom(chunk, i + 1, columns)
  }

  function HexGrid(chunk: seq<Byte>, columns: nat): string {
    HexGridFrom(chunk, 0, columns)
  }

  /** One byte of the character column: its colour, written twice for a printable
      byte, then the character itself or a dot. */
  function CharCell(b: Byte): string {
    if CharColor(b) == Green then Escape(Green) + Escape(Green) + [b as char]
    else Escape(CharColor(b)) + "."
  }

  /** The character column: one cell per byte read, none for padding. */
  function CharColumn(chunk: seq<Byte>): string {
    if chunk == [] then "" else CharCell(chunk[0]) + CharColumn(chunk[1..])
  }

  /** The offset of row `row` as `%08x` prints `row * columns` computed in 32-bit
      unsigned arithmetic. */
  function Offset(row: nat, columns: nat): string {
    HexFixed((row * columns) % 0x1_0000_0000, 8)
  }

  /** The offset is eight lowercase hex digits whose value is `row * columns`
      modulo 2 to the 32. */
  lemma OffsetValue(row: nat, columns: nat)
    ensures |Offset(row, columns)| == 8 && AllHex(Offset(row, columns))
    ensures HexValue(Offset(row, columns)) == (row * columns) % 0x1_0000_0000
  {
    var v := (row * columns) % 0x1_0000_0000;
    assert Pow16(8) == 0x1_0000_0000;
    HexFixedBelow(v, 8);
  }

  /** Everything one iteration of the read loop prints for row `row` holding `chunk`. */
  function RowText(row: nat, chunk: seq<Byte>, columns: nat): string {
    Offset(row, columns) + ": " + Bold + HexGrid(chunk, columns) + RowTail(chunk)
  }

  /** The end of a row: two spaces, the character column, the reset escape and the
      newline. */
  function RowTail(chunk: seq<Byte>): string {
    "  " + CharColumn(chunk) + Reset + "\n"
  }

  /** The text without its escape sequences: each `ESC` is dropped together with
      everything up to and including the next `m`. */
  function Strip(s: string): string
    decreases |s|
  {
    if s == [] then []
    else if s[0] == Esc then Strip(AfterEscape(s[1..]))
    else [s[0]] + Strip(s[1..])
  }

  /** What follows the `m` that ends an escape sequence. */
  function AfterEscape(s: string): (r: string)
    ensures |r| <= |s|
  {
    if s == [] then [] else if s[0] == 'm' then s[1..] else AfterEscape(s[1..])
  }

  /** The visible text of the hex grid: each byte as two digits, two spaces for each
      position past the end of the row, a space before every nonzero even position. */
  function PlainCell(chunk: seq<Byte>, i: nat): string {
    (if i > 0 && i % 2 == 0 then " " else "") + (if i < |chunk| then Hex2(chunk[i]) else "  ")
  }

  function PlainGridFrom(chunk: seq<Byte>, i: nat, columns: nat): string
    decreases columns - i
  {
    if i >= columns then "" else PlainCell(chunk, i) + PlainGridFrom(chunk, i + 1, columns)
  }

  /** The glyphs of the character column. */
  function Glyphs(chunk: seq<Byte>): (g: string)
    ensures |g| == |chunk|
    ensures forall k :: 0 <= k < |chunk| ==> g[k] == Glyph(chunk[k])
  {
    if chunk == [] then "" else [Glyph(chunk[0])] + Glyphs(chunk[1..])
  }

  /** The number of nonzero even positions below `n`: the grouping spaces of a grid
      `n` bytes wide. */
  function GroupSpaces(n: nat): nat {
    if n == 0 then 0 else (n - 1) / 2
  }

  /** The visible width of the hex grid of a row `columns` wide. */
  function GridWidth(columns: nat): nat {
    2 * columns + GroupSpaces(columns)
  }

  /** The visible text of a row: the offset, `": "`, the plain grid, two spaces, the
      glyphs and the newline. */
  function VisibleRow(row: nat, chunk: seq<Byte>, columns: nat): string {
    Offset(row, columns) + ": " + PlainGridFrom(chunk, 0, columns) + ("  " + Glyphs(chunk) + "\n")
  }

  /** The hex digits of a sequence of bytes, two per byte. */
  function HexBytes(chunk: seq<Byte>): (s: string)
    ensures AllHex(s) && |s| == 2 * |chunk|
  {
    if chunk == [] then ""
    else
      Hex2Value(chunk[0]);
      Hex2(chunk[0]) + HexBytes(chunk[1..])
  }

  /** The text without its spaces. */
  function RemoveSpaces(s: string): string {
    if s == [] then [] else (if s[0] == ' ' then "" else [s[0]]) + RemoveSpaces(s[1..])
  }

  /** `printf`'s output for the hex view of one row: the loop over the column
      positions of the source. */
  method HexView(buf: array<Byte>, bytesRead: nat, columns: nat) returns (s: string)
    requires bytesRead <= columns <= buf.Length
    ensures s == HexGrid(buf[..bytesRead], columns)
  {
    ghost var chunk := buf[..bytesRead];
    s := "";
    for i := 0 to columns
      invariant s + HexGridFrom(chunk, i, columns) == HexGrid(chunk, columns)
    {
      ghost var before := s;
      ghost var sep := if i > 0 && i % 2 == 0 then " " else "";
      HexGridStep(before, chunk, i, columns);
      if i > 0 && i % 2 == 0 {
        s := s + " ";
      }
      assert s == before + sep;
      if i >= bytesRead {
        s := s + "  ";
        Associate(before, sep, "  ");
        continue;
      }
      var cell := Escape(HexColor(buf[i])) + Hex2(buf[i]);
      assert chunk[i] == buf[i];
      s := s + cell;
      Associate(before, sep, cell);
    }
  }

  lemma Associate(a: string, b: string, c: string)
    ensures a + b + c == a + (b + c)
  {
  }

  lemma HexGridStep(prefix: string, chunk: seq<Byte>, i: nat, columns: nat)
    requires i < columns
    ensures prefix + HexGridFrom(chunk, i, columns)
         == (prefix + HexCell(chunk, i)) + HexGridFrom(chunk, i + 1, columns)
  {
  }

  /** `printf`'s output for the character view of one row. */
  method CharView(buf: array<Byte>, bytesRead: nat) returns (s: string)
    requires bytesRead <= buf.Length
    ensures s == CharColumn(buf[..bytesRead])
  {
    ghost var chunk := buf[..bytesRead];
    s := "";
    for i := 0 to bytesRead
      invariant s + CharColumn(chunk[i..]) == CharColumn(chunk)
    {
      ghost var before := s;
      CharColumnStep(before, chunk, i);
      var b := buf[i];
      assert b == chunk[i];
      if CharColor(b) == Green {
        s := s + Escape(Green) + Escape(Green) + [b as char];
        Associate(before + Escape(Green), Escape(Green), [b as char]);
        Associate(before, Escape(Green), Escape(Green) + [b as char]);
        Associate(Escape(Green), Escape(Green), [b as char]);
        continue;
      }
      s := s + Escape(CharColor(b)) + ".";
      Associate(before, Escape(CharColor(b)), ".");
    }
  }

  lemma CharColumnStep(prefix: string, chunk: seq<Byte>, i: nat)
    requires i < |chunk|
    ensures prefix + CharColumn(chunk[i..]) == (prefix + CharCell(chunk[i])) + CharColumn(chunk[i + 1..])
  {
    assert chunk[i..][1..] == chunk[i + 1..];
  }

  /** Text without an escape character passes through `Strip` unchanged. */
  lemma {:induction false} StripPlain(x: string, t: string)
    requires Esc !in x
    ensures Strip(x + t) == x + Strip(t)
  {
    if x == [] {
      assert x + t == t;
    } else {
      assert x[0] in x;
      assert (x + t)[0] == x[0] && (x + t)[1..] == x[1..] + t;
      assert Esc !in x[1..] by {
        forall k | 0 <= k < |x| - 1 ensures x[1..][k] != Esc {
          assert x[1..][k] == x[k + 1];
        }
      }
      StripPlain(x[1..], t);
      assert Strip(x + t) == [x[0]] + Strip(x[1..] + t);
      assert [x[0]] + (x[1..] + Strip(t)) == x + Strip(t);
    }
  }

  lemma {:induction false} AfterEscapeSkips(u: string, t: string)
    requires 'm' !in u
    ensures AfterEscape(u + "m" + t) == t
  {
    if u == [] {
      assert u + "m" + t == "m" + t;
    } else {
      assert (u + "m" + t)[1..] == u[1..] + "m" + t;
      AfterEscapeSkips(u[1..], t);
    }
  }

  /** An escape sequence `ESC [ code m` disappears under `Strip`. */
  lemma StripCode(code: string, t: string)
    requires 'm' !in code
    ensures Strip([Esc] + "[" + code + "m" + t) == Strip(t)
  {
    var s := [Esc] + "[" + code + "m" + t;
    assert s[1..] == ("[" + code) + "m" + t;
    AfterEscapeSkips("[" + code, t);
  }

  lemma StripEscape(c: Color, t: string)
    ensures Strip(Escape(c) + t) == Strip(t)
  {
    StripCode(ColorCode(c), t);
    assert Escape(c) + t == [Esc] + "[" + ColorCode(c) + "m" + t;
  }

  lemma HexHasNoEscape(b: Byte)
    ensures Esc !in Hex2(b) && ' ' !in Hex2(b) && '\n' !in Hex2(b)
  {
    Hex2Value(b);
    var h := Hex2(b);
    assert IsHexDigit(h[0]) && IsHexDigit(h[1]);
  }

  /** A coloured pair of hex digits shows as the digits. */
  lemma StripColoredText(c: Color, x: string, rest: string)
    requires Esc !in x
    ensures Strip(Escape(c) + x + rest) == x + Strip(rest)
  {
    Associate(Escape(c), x, rest);
    StripEscape(c, x + rest);
    StripPlain(x, rest);
  }

  /** Under `Strip`, one cell of the hex grid shows its plain text. */
  lemma StripHexCell(chunk: seq<Byte>, i: nat, rest: string)
    ensures Strip(HexCell(chunk, i) + rest) == PlainCell(chunk, i) + Strip(rest)
  {
    var sep := if i > 0 && i % 2 == 0 then " " else "";
    var body := if i < |chunk| then Escape(HexColor(chunk[i])) + Hex2(chunk[i]) else "  ";
    var plain := if i < |chunk| then Hex2(chunk[i]) else "  ";
    Associate(sep, body, rest);
    StripPlain(sep, body + rest);
    if i < |chunk| {
      HexHasNoEscape(chunk[i]);
      StripColoredText(HexColor(chunk[i]), Hex2(chunk[i]), rest);
    } else {
      StripPlain("  ", rest);
    }
    Associate(sep, plain, Strip(rest));
  }

  /** Under `Strip`, the hex grid from position `i` shows exactly its plain text,
      whatever follows it. */
  lemma {:induction false} StripHexGrid(chunk: seq<Byte>, i: nat, columns: nat, t: string)
    ensures Strip(HexGridFrom(chunk, i, columns) + t) == PlainGridFrom(chunk, i, columns) + Strip(t)
    decreases columns - i
  {
    if i < columns {
      var cell, later := HexCell(chunk, i), HexGridFrom(chunk, i + 1, columns);
      Associate(cell, later, t);
      StripHexCell(chunk, i, later + t);
      StripHexGrid(chunk, i + 1, columns, t);
      Associate(PlainCell(chunk, i), PlainGridFrom(chunk, i + 1, columns), Strip(t));
    } else {
      assert HexGridFrom(chunk, i, columns) + t == t;
    }
  }

  /** Under `Strip`, one cell of the character column shows its glyph. */
  lemma StripCharCell(b: Byte, rest: string)
    ensures Strip(CharCell(b) + rest) == [Glyph(b)] + Strip(rest)
  {
    CharColorClasses(b);
    if CharColor(b) == Green {
      var e := Escape(Green);
      Associate(e + e, [b as char], rest);
      Associate(e, e, [b as char] + rest);
      StripEscape(Green, e + ([b as char] + rest));
      StripColoredText(Green, [b as char], rest);
      Associate(e, [b as char], rest);
    } else {
      StripColoredText(CharColor(b), ".", rest);
    }
  }

  /** Under `Strip`, the character column shows exactly the glyphs of its bytes. */
  lemma {:induction false} StripCharColumn(chunk: seq<Byte>, t: string)
    ensures Strip(CharColumn(chunk) + t) == Glyphs(chunk) + Strip(t)
  {
    if chunk != [] {
      var cell, later := CharCell(chunk[0]), CharColumn(chunk[1..]);
      Associate(cell, later, t);
      StripCharCell(chunk[0], later + t);
      StripCharColumn(chunk[1..], t);
      Associate([Glyph(chunk[0])], Glyphs(chunk[1..]), Strip(t));
    } else {
      assert CharColumn(chunk) + t == t;
    }
  }

  /** Under `Strip`, a row is its offset, `": "`, the plain hex grid, two spaces,
      the glyphs of its bytes and a newline, whatever text follows it. */
  lemma StripRow(row: nat, chunk: seq<Byte>, columns: nat, t: string)
    ensures Strip(RowText(row, chunk, columns) + t) == VisibleRow(row, chunk, columns) + Strip(t)
  {
    var head := Offset(row, columns) + ": ";
    var grid, tail := HexGrid(chunk, columns), RowTail(chunk);
    var plain, visibleTail := PlainGridFrom(chunk, 0, columns), "  " + Glyphs(chunk) + "\n";
    Associate4(head + Bold, grid, tail, t);
    StripRowHead(row, columns, grid + (tail + t));
    StripHexGrid(chunk, 0, columns, tail + t);
    StripRowTail(chunk, t);
    Associate4(head, plain, visibleTail, Strip(t));
  }

  /** Re-association of a concatenation of four strings. */
  lemma Associate4(a: string, b: string, c: string, d: string)
    ensures a + b + c + d == a + (b + (c + d))
  {
  }

  lemma StripRowHead(row: nat, columns: nat, t: string)
    ensures Strip(Offset(row, columns) + ": " + Bold + t) == Offset(row, columns) + ": " + Strip(t)
  {
    var offset := Offset(row, columns) + ": ";
    OffsetValue(row, columns);
    assert Esc !in offset by {
      forall k | 0 <= k < 8 ensures offset[k] != Esc {
        assert offset[k] == Offset(row, columns)[k];
        assert IsHexDigit(Offset(row, columns)[k]);
      }
    }
    Associate(offset, Bold, t);
    StripPlain(offset, Bold + t);
    StripBold(t);
  }

  lemma StripBold(t: string)
    ensures Strip(Bold + t) == Strip(t)
  {
    assert Bold + t == [Esc] + "[" + "1" + "m" + t;
    StripCode("1", t);
  }

  lemma StripReset(t: string)
    ensures Strip(Reset + t) == Strip(t)
  {
    assert Reset + t == [Esc] + "[" + "0" + "m" + t;
    StripCode("0", t);
  }

  lemma StripRowTail(chunk: seq<Byte>, t: string)
    ensures Strip(RowTail(chunk) + t) == "  " + Glyphs(chunk) + "\n" + Strip(t)
  {
    var column := CharColumn(chunk);
    Associate4("  " + column, Reset, "\n", t);
    Associate("  ", column, Reset + ("\n" + t));
    StripPlain("  ", column + (Reset + ("\n" + t)));
    StripCharColumn(chunk, Reset + ("\n" + t));
    StripReset("\n" + t);
    StripPlain("\n", t);
    Associate4("  ", Glyphs(chunk), "\n", Strip(t));
  }

  /** Every row starts with its offset in eight lowercase hex digits and `": "`, and
      ends with a newline. */
  lemma RowFraming(row: nat, chunk: seq<Byte>, columns: nat)
    ensures var s := RowText(row, chunk, columns);
            |s| > 10 && s[..10] == Offset(row, columns) + ": " && s[|s| - 1] == '\n'
  {
    var offset := Offset(row, columns) + ": ";
    var rest := Bold + HexGrid(chunk, columns) + RowTail(chunk);
    OffsetValue(row, columns);
    Associate(offset + Bold, HexGrid(chunk, columns), RowTail(chunk));
    Associate(offset, Bold, HexGrid(chunk, columns) + RowTail(chunk));
    assert (offset + rest)[..10] == offset;
  }

  /** The text of a row, piece by piece as `printf` writes it. */
  lemma RowPieces(row: nat, chunk: seq<Byte>, columns: nat)
    ensures RowText(row, chunk, columns)
         == Offset(row, columns) + ": " + Bold + HexGrid(chunk, columns) + "  " + CharColumn(chunk) + Reset + "\n"
  {
    var head := Offset(row, columns) + ": " + Bold + HexGrid(chunk, columns);
    Associate4(head, "  " + CharColumn(chunk), Reset, "\n");
    Associate(head, "  ", CharColumn(chunk));
  }

  /** A row holds exactly one newline, its last character: the offset, the escapes,
      the hex digits and the glyphs never contain one. */
  lemma RowLine(row: nat, chunk: seq<Byte>, columns: nat)
    ensures var s := RowText(row, chunk, columns);
            |s| > 0 && s[|s| - 1] == '\n' && '\n' !in s[..|s| - 1]
  {
    var head := Offset(row, columns) + ": " + Bold + HexGrid(chunk, columns);
    var middle := "  " + CharColumn(chunk) + Reset;
    RowBodyHasNoNewline(row, chunk, columns);
    Associate(head, middle, "\n");
    LastLine(head + middle);
  }

  lemma RowBodyHasNoNewline(row: nat, chunk: seq<Byte>, columns: nat)
    ensures '\n' !in Offset(row, columns) + ": " + Bold + HexGrid(chunk, columns) + ("  " + CharColumn(chunk) + Reset)
  {
    var offset := Offset(row, columns);
    OffsetValue(row, columns);
    assert '\n' !in offset by {
      forall k | 0 <= k < |offset| ensures offset[k] != '\n' {
        assert IsHexDigit(offset[k]);
      }
    }
    HexGridHasNoNewline(chunk, 0, columns);
    CharColumnHasNoNewline(chunk);
  }

  lemma LastLine(body: string)
    requires '\n' !in body
    ensures var s := body + "\n";
            |s| > 0 && s[|s| - 1] == '\n' && '\n' !in s[..|s| - 1]
  {
    assert (body + "\n")[..|body|] == body;
  }

  lemma {:induction false} HexGridHasNoNewline(chunk: seq<Byte>, i: nat, columns: nat)
    ensures '\n' !in HexGridFrom(chunk, i, columns)
    decreases columns - i
  {
    if i < columns {
      HexGridHasNoNewline(chunk, i + 1, columns);
      HexCellHasNoNewline(chunk, i);
    }
  }

  lemma HexCellHasNoNewline(chunk: seq<Byte>, i: nat)
    ensures '\n' !in HexCell(chunk, i)
  {
    if i < |chunk| {
      HexHasNoEscape(chunk[i]);
      EscapeHasNoNewline(HexColor(chunk[i]));
    }
  }

  lemma EscapeHasNoNewline(c: Color)
    ensures '\n' !in Escape(c)
  {
  }

  lemma {:induction false} CharColumnHasNoNewline(chunk: seq<Byte>)
    ensures '\n' !in CharColumn(chunk)
  {
    if chunk != [] {
      CharColumnHasNoNewline(chunk[1..]);
      CharColorClasses(chunk[0]);
      assert chunk[0] as char != '\n' || CharColor(chunk[0]) != Green;
    }
  }

  /** The visible hex grid from position `i` on has a width fixed by `i` and
      `columns` alone, not by how many bytes the row holds. */
  lemma {:induction false} PlainGridWidth(chunk: seq<Byte>, i: nat, columns: nat)
    requires i <= columns
    ensures |PlainGridFrom(chunk, i, columns)| + 2 * i + GroupSpaces(i) == GridWidth(columns)
    decreases columns - i
  {
    if i < columns {
      PlainGridWidth(chunk, i + 1, columns);
      assert GroupSpaces(i + 1) == GroupSpaces(i) + (if i > 0 && i % 2 == 0 then 1 else 0);
    }
  }

  /** The hex grid's visible width, escapes aside, depends only on the number of
      columns: a short last row is padded to the width of a full one. */
  lemma HexGridWidth(chunk: seq<Byte>, columns: nat)
    ensures |Strip(HexGrid(chunk, columns))| == GridWidth(columns)
  {
    StripHexGrid(chunk, 0, columns, "");
    assert HexGrid(chunk, columns) + "" == HexGrid(chunk, columns);
    PlainGridWidth(chunk, 0, columns);
  }

  lemma {:induction false} RemoveSpacesAppend(a: string, b: string)
    ensures RemoveSpaces(a + b) == RemoveSpaces(a) + RemoveSpaces(b)
  {
    if a == [] {
      assert a + b == b;
    } else {
      assert (a + b)[0] == a[0] && (a + b)[1..] == a[1..] + b;
      RemoveSpacesAppend(a[1..], b);
      var head := if a[0] == ' ' then "" else [a[0]];
      assert RemoveSpaces(a + b) == head + RemoveSpaces(a[1..] + b);
      assert RemoveSpaces(a) == head + RemoveSpaces(a[1..]);
      assert head + (RemoveSpaces(a[1..]) + RemoveSpaces(b)) == (head + RemoveSpaces(a[1..])) + RemoveSpaces(b);
    }
  }

  lemma RemoveSpacesOfHex(b: Byte)
    ensures RemoveSpaces(Hex2(b)) == Hex2(b)
  {
    HexHasNoEscape(b);
    var h := Hex2(b);
    assert h == [h[0]] + [h[1]];
    RemoveSpacesAppend([h[0]], [h[1]]);
  }

  /** Dropping the spaces from the visible grid leaves the hex digits of the bytes
      from position `i` on: padding and grouping contribute nothing. */
  lemma {:induction false} PlainGridDigits(chunk: seq<Byte>, i: nat, columns: nat)
    requires |chunk| <= columns
    ensures RemoveSpaces(PlainGridFrom(chunk, i, columns)) == HexBytes(if i < |chunk| then chunk[i..] else [])
    decreases columns - i
  {
    if i < columns {
      var sep := if i > 0 && i % 2 == 0 then " " else "";
      PlainGridDigits(chunk, i + 1, columns);
      RemoveSpacesAppend(PlainCell(chunk, i), PlainGridFrom(chunk, i + 1, columns));
      RemoveSpacesAppend(sep, if i < |chunk| then Hex2(chunk[i]) else "  ");
      assert RemoveSpaces(sep) == "";
      if i < |chunk| {
        RemoveSpacesOfHex(chunk[i]);
        assert chunk[i..][1..] == (if i + 1 < |chunk| then chunk[i + 1..] else []);
      } else {
        assert RemoveSpaces("  ") == "";
      }
    }
  }

  lemma {:induction false} DecodeHexBytes(chunk: seq<Byte>)
    ensures DecodeHex(HexBytes(chunk)) == chunk
  {
    if chunk != [] {
      DecodeHexBytes(chunk[1..]);
      DecodeHex2(chunk[0], HexBytes(chunk[1..]));
    }
  }

  /** Reading the hex grid back: with escapes and spaces removed, it is the bytes'
      digits, and a hex decoder returns exactly the bytes of the row. */
  lemma HexGridRoundTrip(chunk: seq<Byte>, columns: nat)
    requires |chunk| <= columns
    ensures RemoveSpaces(Strip(HexGrid(chunk, columns))) == HexBytes(chunk)
    ensures DecodeHex(RemoveSpaces(Strip(HexGrid(chunk, columns)))) == chunk
  {
    VisibleHexGrid(chunk, columns);
    PlainGridDigits(chunk, 0, columns);
    assert 0 < |chunk| ==> chunk[0..] == chunk;
    DecodeHexBytes(chunk);
  }

  lemma VisibleHexGrid(chunk: seq<Byte>, columns: nat)
    ensures Strip(HexGrid(chunk, columns)) == PlainGridFrom(chunk, 0, columns)
  {
    StripHexGrid(chunk, 0, columns, "");
    assert HexGrid(chunk, columns) + "" == HexGrid(chunk, columns);
  }

  /** The character column has one glyph per byte read: the byte itself when it is
      printable, a dot otherwise. */
  lemma CharColumnGlyphs(chunk: seq<Byte>)
    ensures |Strip(CharColumn(chunk))| == |chunk|
    ensures forall k :: 0 <= k < |chunk| ==>
              Strip(CharColumn(chunk))[k] == if IsPrint(chunk[k]) then chunk[k] as char else '.'
  {
    StripCharColumn(chunk, "");
    assert CharColumn(chunk) + "" == CharColumn(chunk);
  }
}
