/** The output of xdd row by row: the text of the `k`-th row found inside the whole
    output, with the rows before it and after it. */
module DumpRows {
  import opened CType
  import opened Render
  import opened Dump

  /** `f` applied to each row and its number, from `first` on, laid end to end. */
  function Joined(rows: seq<seq<Byte>>, first: nat, f: (nat, seq<Byte>) -> string): string {
    if rows == [] then "" else f(first, rows[0]) + Joined(rows[1..], first + 1, f)
  }

  /** The joined text around its `k`-th piece: the pieces before it, the piece for
      row `first + k`, and the pieces after it. */
  lemma {:induction false} JoinedSplit(rows: seq<seq<Byte>>, first: nat, f: (nat, seq<Byte>) -> string, k: nat)
    requires k < |rows|
    ensures Joined(rows, first, f)
         == Joined(rows[..k], first, f) + (f(first + k, rows[k]) + Joined(rows[k + 1..], first + k + 1, f))
    decreases k
  {
    var tail := rows[1..];
    if k == 0 {
      assert rows[..0] == [] && tail == rows[k + 1..];
      Unit(f(first, rows[0]) + Joined(tail, first + 1, f));
    } else {
      JoinedSplit(tail, first + 1, f, k - 1);
      var init := rows[..k];
      assert init[0] == rows[0] && init[1..] == tail[..k - 1];
      assert tail[k - 1] == rows[k] && tail[k..] == rows[k + 1..];
      Associate(f(first, rows[0]), Joined(tail[..k - 1], first + 1, f),
                f(first + k, rows[k]) + Joined(rows[k + 1..], first + k + 1, f));
    }
  }

  /** The row printer for `columns` columns, as a function of the row number and
      the bytes read. */
  function RowOf(columns: nat): (nat, seq<Byte>) -> string {
    (r: nat, c: seq<Byte>) => RowText(r, c, columns)
  }

  lemma RowOfApply(columns: nat, r: nat, c: seq<Byte>)
    ensures RowOf(columns)(r, c) == RowText(r, c, columns)
  {
  }

  /** The output of the read loop is the row printer applied to every row. */
  lemma {:induction false} RowsTextJoined(rows: seq<seq<Byte>>, columns: nat, first: nat)
    ensures RowsText(rows, columns, first) == Joined(rows, first, RowOf(columns))
  {
    if rows != [] {
      RowsTextJoined(rows[1..], columns, first + 1);
      RowOfApply(columns, first, rows[0]);
    }
  }

  lemma Unit(s: string)
    ensures "" + s == s
  {
  }

  /** Row `k` of the output is its `k + 1`-th line: the rows before it hold exactly
      `k` newlines, and then comes the text of row `k`, which by `RowFraming`
      starts with the offset of row `k` and by `ChunksAt` shows the input bytes from
      `k * columns` on. */
  lemma DumpRowAt(input: seq<Byte>, columns: nat, k: nat)
    requires columns > 0 && k < |Chunks(input, columns)|
    ensures var rows := Chunks(input, columns);
            var before := Joined(rows[..k], 0, RowOf(columns));
            NewlineCount(before) == k
            && DumpText(input, columns)
               == before + (RowText(k, rows[k], columns) + Joined(rows[k + 1..], k + 1, RowOf(columns)))
  {
    var rows := Chunks(input, columns);
    RowsTextJoined(rows, columns, 0);
    JoinedAt(rows, columns, k);
    JoinedNewlines(rows[..k], columns, 0);
  }

  lemma JoinedAt(rows: seq<seq<Byte>>, columns: nat, k: nat)
    requires k < |rows|
    ensures Joined(rows, 0, RowOf(columns))
         == Joined(rows[..k], 0, RowOf(columns))
            + (RowText(k, rows[k], columns) + Joined(rows[k + 1..], k + 1, RowOf(columns)))
  {
    JoinedSplit(rows, 0, RowOf(columns), k);
    RowOfApply(columns, k, rows[k]);
  }

  /** Every row printed holds exactly one newline. */
  lemma JoinedNewlines(rows: seq<seq<Byte>>, columns: nat, first: nat)
    ensures NewlineCount(Joined(rows, first, RowOf(columns))) == |rows|
  {
    RowsTextJoined(rows, columns, first);
    RowsNewlines(rows, columns, first);
  }
}
