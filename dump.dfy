/** The read loop of xdd's `main`: the input is read `columns` bytes at a time
    into a buffer of `MAX_COLS` bytes, and every read that returns at least one
    byte prints one row. */
module Dump {
  import opened CType
  import opened HexFormat
  import opened Classify
  import opened Render
  import opened ArgParse

  function Min(a: nat, b: nat): nat {
    if a <= b then a else b
  }

  /** The successive results of `fread(buf, 1, columns, fp)` on a stream holding
      `input`: each takes as many bytes as remain, up to `columns`; the loop stops at
      the first read that returns nothing. */
  function Chunks(input: seq<Byte>, columns: nat): seq<seq<Byte>>
    requires columns > 0
    decreases |input|
  {
    if input == [] then []
    else
      var n := Min(columns, |input|);
      [input[..n]] + Chunks(input[n..], columns)
  }

  /** The rows laid end to end. */
  function Flatten(rows: seq<seq<Byte>>): seq<Byte> {
    if rows == [] then [] else rows[0] + Flatten(rows[1..])
  }

  /** The text the loop prints for `rows`, the first of them being row `first`. */
  function RowsText(rows: seq<seq<Byte>>, columns: nat, first: nat): string {
    if rows == [] then "" else RowText(first, rows[0], columns) + RowsText(rows[1..], columns, first + 1)
  }

  /** Everything xdd writes to standard output for a stream holding `input`. */
  function DumpText(input: seq<Byte>, columns: nat): (out: string)
    requires columns > 0
    ensures out == [] <==> input == []
  {
    var rows := Chunks(input, columns);
    if rows == [] then ""
    else
      RowLine(0, rows[0], columns);
      RowsText(rows, columns, 0)
  }

  /** The visible text of `rows`: each row's offset, grid, glyphs and newline. */
  function VisibleRows(rows: seq<seq<Byte>>, columns: nat, first: nat): string {
    if rows == [] then "" else VisibleRow(first, rows[0], columns) + VisibleRows(rows[1..], columns, first + 1)
  }

  /** The bytes a reader recovers from the hex grid of a row: the digits left once
      escapes and spaces are removed, decoded in pairs. */
  function ReadGrid(grid: string): seq<Byte> {
    var digits := RemoveSpaces(Strip(grid));
    if AllHex(digits) && |digits| % 2 == 0 then DecodeHex(digits) else []
  }

  /** The bytes recovered from the hex grids of all rows, in order. */
  function ReadGrids(rows: seq<seq<Byte>>, columns: nat): seq<Byte> {
    if rows == [] then [] else ReadGrid(HexGrid(rows[0], columns)) + ReadGrids(rows[1..], columns)
  }

  function NewlineCount(s: string): nat {
    if s == [] then 0 else (if s[0] == '\n' then 1 else 0) + NewlineCount(s[1..])
  }

  /** The rows together hold the whole input, in order, and nothing else. */
  lemma {:induction false} ChunksFlatten(input: seq<Byte>, columns: nat)
    requires columns > 0
    ensures Flatten(Chunks(input, columns)) == input
    decreases |input|
  {
    if input != [] {
      var n := Min(columns, |input|);
      ChunksFlatten(input[n..], columns);
      assert Chunks(input, columns)[1..] == Chunks(input[n..], columns);
      assert input[..n] + input[n..] == input;
    }
  }

  /** Every row holds between one and `columns` bytes, and every row but the last
      is full. */
  lemma {:induction false} ChunksSizes(input: seq<Byte>, columns: nat)
    requires columns > 0
    ensures forall k :: 0 <= k < |Chunks(input, columns)| ==>
              1 <= |Chunks(input, columns)[k]| <= columns
              && (k < |Chunks(input, columns)| - 1 ==> |Chunks(input, columns)[k]| == columns)
    decreases |input|
  {
    if input != [] {
      var n := Min(columns, |input|);
      ChunksSizes(input[n..], columns);
      var rows := Chunks(input, columns);
      assert rows[1..] == Chunks(input[n..], columns);
      forall k | 0 <= k < |rows|
        ensures 1 <= |rows[k]| <= columns && (k < |rows| - 1 ==> |rows[k]| == columns)
      {
        if k > 0 {
          assert rows[k] == rows[1..][k - 1];
        } else if k < |rows| - 1 {
          assert input[n..] != [];
        }
      }
    }
  }

  /** The quotient of a division is fixed by any decomposition of the dividend. */
  lemma DivOfDecomposition(n: int, m: int, a: int, x: int)
    requires m > 0 && 0 <= x < m && n == m * a + x
    ensures n / m == a
  {
    ModOfDecomposition(n, m, a, x);
    assert m * (n / m - a) == 0 by {
      assert n == m * (n / m) + n % m;
    }
  }

  lemma DivStep(x: nat, c: nat)
    requires c > 0
    ensures (x + c) / c == x / c + 1
  {
    assert x + c == c * (x / c + 1) + x % c by {
      assert x == c * (x / c) + x % c;
    }
    DivOfDecomposition(x + c, c, x / c + 1, x % c);
  }

  /** The loop prints `ceil(|input| / columns)` rows. */
  lemma {:induction false} ChunksCount(input: seq<Byte>, columns: nat)
    requires columns > 0
    ensures |Chunks(input, columns)| == (|input| + columns - 1) / columns
    decreases |input|
  {
    var len := |input|;
    if input == [] {
      assert (columns - 1) / columns == 0;
    } else {
      var n := Min(columns, len);
      ChunksCount(input[n..], columns);
      if len <= columns {
        assert input[n..] == [];
        assert (len - 1) / columns == 0;
        DivStep(len - 1, columns);
      } else {
        DivStep(len - 1, columns);
        assert |input[n..]| + columns - 1 == len - 1;
      }
    }
  }

  /** Past the first row, the rows are those of the input after its first
      `columns` bytes. */
  lemma ChunksTail(input: seq<Byte>, columns: nat, k: nat)
    requires columns > 0 && 0 < k < |Chunks(input, columns)|
    ensures |input| > columns
    ensures Chunks(input, columns)[k] == Chunks(input[columns..], columns)[k - 1]
  {
  }

  /** Row `k` holds the input bytes from `k * columns` on, which is the position
      its offset names. */
  lemma {:induction false} ChunksAt(input: seq<Byte>, columns: nat, k: nat)
    requires columns > 0 && k < |Chunks(input, columns)|
    ensures k * columns < |input|
    ensures Chunks(input, columns)[k] == input[k * columns .. Min((k + 1) * columns, |input|)]
    decreases k
  {
    if k > 0 {
      var rest := input[columns..];
      ChunksTail(input, columns, k);
      ChunksAt(rest, columns, k - 1);
      var lo, hi := (k - 1) * columns, Min(k * columns, |rest|);
      RowBounds(k, columns, |input|);
      SliceOfSuffix(input, columns, lo, hi);
    }
  }

  /** The arithmetic of moving from row `k - 1` of the rest to row `k`. */
  lemma RowBounds(k: nat, columns: nat, len: nat)
    requires 0 < k && columns < len
    ensures k * columns == (k - 1) * columns + columns
    ensures Min((k + 1) * columns, len) == Min(k * columns, len - columns) + columns
  {
    assert (k + 1) * columns == k * columns + columns;
  }

  lemma SliceOfSuffix(s: seq<Byte>, d: nat, lo: nat, hi: nat)
    requires d <= |s| && lo <= hi <= |s| - d
    ensures s[d..][lo..hi] == s[d + lo .. d + hi]
  {
  }

  /** Under `Strip`, the output is the rows' visible text. */
  lemma {:induction false} StripRows(rows: seq<seq<Byte>>, columns: nat, first: nat)
    ensures Strip(RowsText(rows, columns, first)) == VisibleRows(rows, columns, first)
  {
    if rows != [] {
      StripRows(rows[1..], columns, first + 1);
      StripRow(first, rows[0], columns, RowsText(rows[1..], columns, first + 1));
    }
  }

  /** With its escape sequences removed, the output is one visible row per read. */
  lemma VisibleDump(input: seq<Byte>, columns: nat)
    requires columns > 0
    ensures Strip(DumpText(input, columns)) == VisibleRows(Chunks(input, columns), columns, 0)
  {
    StripRows(Chunks(input, columns), columns, 0);
  }

  lemma {:induction false} NewlineCountAppend(a: string, b: string)
    ensures NewlineCount(a + b) == NewlineCount(a) + NewlineCount(b)
  {
    if a == [] {
      assert a + b == b;
    } else {
      assert (a + b)[0] == a[0] && (a + b)[1..] == a[1..] + b;
      NewlineCountAppend(a[1..], b);
    }
  }

  lemma {:induction false} NewlineCountAbsent(s: string)
    requires '\n' !in s
    ensures NewlineCount(s) == 0
  {
    if s != [] {
      assert forall c :: c in s[1..] ==> c in s;
      NewlineCountAbsent(s[1..]);
    }
  }

  lemma {:induction false} RowsNewlines(rows: seq<seq<Byte>>, columns: nat, first: nat)
    ensures NewlineCount(RowsText(rows, columns, first)) == |rows|
  {
    if rows != [] {
      var s := RowText(first, rows[0], columns);
      RowLine(first, rows[0], columns);
      assert s == s[..|s| - 1] + "\n";
      NewlineCountAbsent(s[..|s| - 1]);
      NewlineCountAppend(s[..|s| - 1], "\n");
      NewlineCountAppend(s, RowsText(rows[1..], columns, first + 1));
      RowsNewlines(rows[1..], columns, first + 1);
    }
  }

  /** The output has one line per row: `ceil(|input| / columns)` newlines. */
  lemma DumpLines(input: seq<Byte>, columns: nat)
    requires columns > 0
    ensures NewlineCount(DumpText(input, columns)) == (|input| + columns - 1) / columns
  {
    RowsNewlines(Chunks(input, columns), columns, 0);
    ChunksCount(input, columns);
  }

  lemma {:induction false} ReadGridsOfRows(rows: seq<seq<Byte>>, columns: nat)
    requires forall k :: 0 <= k < |rows| ==> |rows[k]| <= columns
    ensures ReadGrids(rows, columns) == Flatten(rows)
  {
    if rows != [] {
      ReadGridOfRow(rows[0], columns);
      assert forall k :: 0 <= k < |rows[1..]| ==> rows[1..][k] == rows[k + 1];
      ReadGridsOfRows(rows[1..], columns);
    }
  }

  /** A row's hex grid reads back as the row's bytes. */
  lemma ReadGridOfRow(chunk: seq<Byte>, columns: nat)
    requires |chunk| <= columns
    ensures ReadGrid(HexGrid(chunk, columns)) == chunk
  {
    HexGridRoundTrip(chunk, columns);
  }

  /** The hex grids of the output spell the input: decoding them row after row
      gives back every byte, in order. */
  lemma DumpReadsBack(input: seq<Byte>, columns: nat)
    requires columns > 0
    ensures ReadGrids(Chunks(input, columns), columns) == input
  {
    var rows := Chunks(input, columns);
    ChunksSizes(input, columns);
    assert forall k :: 0 <= k < |rows| ==> |rows[k]| <= columns;
    ReadGridsOfRows(rows, columns);
    ChunksFlatten(input, columns);
  }

  /** `fread(buf, 1, count, fp)` on a stream holding `input` and positioned at `pos`:
      copies the next bytes, at most `count`, to the front of `buf` and returns how
      many it copied. */
  method Fread(buf: array<Byte>, count: nat, input: seq<Byte>, pos: nat) returns (n: nat)
    requires count <= buf.Length && pos <= |input|
    modifies buf
    ensures n == Min(count, |input| - pos)
    ensures buf[..n] == input[pos..pos + n]
    ensures buf[n..] == old(buf[n..])
  {
    n := Min(count, |input| - pos);
    for j := 0 to n
      invariant buf[..j] == input[pos..pos + j]
      invariant buf[j..] == old(buf[j..])
    {
      buf[j] := input[pos + j];
      assert buf[..j + 1] == buf[..j] + [buf[j]];
    }
  }

  /** One iteration of the read loop is one row: the first read takes the first
      row, and the rest of the loop sees the rest of the stream. */
  lemma DumpStep(input: seq<Byte>, pos: nat, n: nat, columns: nat, row: nat, out: string, line: string, total: string)
    requires columns > 0 && pos < |input| && n == Min(columns, |input| - pos)
    requires line == RowText(row, input[pos..pos + n], columns)
    requires out + RowsText(Chunks(input[pos..], columns), columns, row) == total
    ensures (out + line) + RowsText(Chunks(input[pos + n..], columns), columns, row + 1) == total
  {
    RowsAhead(input, pos, columns, row);
    Rebase(out, line, RowsText(Chunks(input[pos + n..], columns), columns, row + 1),
           RowsText(Chunks(input[pos..], columns), columns, row), total);
  }

  lemma Rebase(out: string, line: string, rest: string, ahead: string, total: string)
    requires out + ahead == total && ahead == line + rest
    ensures (out + line) + rest == total
  {
    Associate(out, line, rest);
  }

  lemma RowsAhead(input: seq<Byte>, pos: nat, columns: nat, row: nat)
    requires columns > 0 && pos < |input|
    ensures var n := Min(columns, |input| - pos);
            RowsText(Chunks(input[pos..], columns), columns, row)
            == RowText(row, input[pos..pos + n], columns)
               + RowsText(Chunks(input[pos + n..], columns), columns, row + 1)
  {
    var n := Min(columns, |input| - pos);
    var stream := input[pos..];
    var chunk, later := input[pos..pos + n], input[pos + n..];
    assert stream[..n] == chunk;
    assert stream[n..] == later;
    ChunksFirst(stream, columns);
    RowsTextFirst(chunk, Chunks(later, columns), columns, row);
  }

  lemma ChunksFirst(stream: seq<Byte>, columns: nat)
    requires columns > 0 && stream != []
    ensures var n := Min(columns, |stream|);
            Chunks(stream, columns) == [stream[..n]] + Chunks(stream[n..], columns)
  {
  }

  lemma RowsTextFirst(chunk: seq<Byte>, rows: seq<seq<Byte>>, columns: nat, row: nat)
    ensures RowsText([chunk] + rows, columns, row) == RowText(row, chunk, columns) + RowsText(rows, columns, row + 1)
  {
    assert ([chunk] + rows)[1..] == rows;
  }

  /** Before the first read, nothing is printed and the whole stream lies ahead. */
  lemma DumpStart(input: seq<Byte>, columns: nat)
    requires columns > 0
    ensures "" + RowsText(Chunks(input[0..], columns), columns, 0) == DumpText(input, columns)
  {
    assert input[0..] == input;
  }

  /** After the last read, the text printed is all there is. */
  lemma DumpEnd(input: seq<Byte>, pos: nat, columns: nat, row: nat, out: string)
    requires columns > 0 && pos == |input|
    requires out + RowsText(Chunks(input[pos..], columns), columns, row) == DumpText(input, columns)
    ensures out == DumpText(input, columns)
  {
    assert input[pos..] == [];
    assert out + "" == out;
  }

  /** The body of the read loop: the `printf` calls that write row `row` from the
      first `bytesRead` bytes of the buffer. */
  method PrintRow(buf: array<Byte>, bytesRead: nat, columns: nat, row: nat) returns (line: string)
    requires bytesRead <= columns <= buf.Length
    ensures line == RowText(row, buf[..bytesRead], columns)
  {
    line := Offset(row, columns) + ": ";
    line := line + Bold;
    var grid := HexView(buf, bytesRead, columns);
    line := line + grid + "  ";
    var chars := CharView(buf, bytesRead);
    line := line + chars + Reset + "\n";
    RowPieces(row, buf[..bytesRead], columns);
  }

  /** The read loop of `main`, on a stream holding `input`: what it writes to
      standard output is `DumpText(input, columns)`. */
  method DumpStream(input: seq<Byte>, columns: nat) returns (out: string)
    requires 1 <= columns <= MaxCols
    ensures out == DumpText(input, columns)
  {
    var buf := new Byte[MaxCols];
    var pos := 0;
    var row := 0;
    out := "";
    DumpStart(input, columns);
    while true
      invariant pos <= |input|
      invariant out + RowsText(Chunks(input[pos..], columns), columns, row) == DumpText(input, columns)
      decreases |input| - pos
    {
      var bytesRead := Fread(buf, columns, input, pos);
      if bytesRead == 0 {
        DumpEnd(input, pos, columns, row, out);
        break;
      }
      var line := PrintRow(buf, bytesRead, columns, row);
      DumpStep(input, pos, bytesRead, columns, row, out, line, DumpText(input, columns));
      out := out + line;
      pos := pos + bytesRead;
      row := row + 1;
    }
  }
}
