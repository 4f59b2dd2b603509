# xdd, modelled in Dafny

xdd is a small hex dump tool written in C (`xdd.c`). It reads a file, or
standard input, `columns` bytes at a time. For each read it prints one row:

- the offset `%08x` of the row;
- a bold hex grid, one coloured `%02x` cell per byte, a space before every even
  position after the first, and two spaces for each missing byte of a short last
  row;
- two spaces, then a character column that shows each printable byte as itself
  and any other byte as a dot, coloured by a second, slightly different scheme;
- a reset escape and a newline.

`-c N` sets the number of columns (1 to 256, default 16). `-h` prints a usage
line. The only other argument allowed is the file name.

The model has one module per concern:

| file | module | what it holds |
|---|---|---|
| `ctype.dfy` | `CType` | bytes, C strings, the C-locale `isspace`/`isprint`, decimal digits |
| `strconv.dfy` | `StrConv` | `strtol(s, &end, 10)` as ISO C11 section 7.22.1.4 defines it |
| `argparse.dfy` | `ArgParse` | `parse_args`: the fold `Scan`/`Parse` and the imperative `ParseArgs` |
| `hexfmt.dfy` | `HexFormat` | `%0Nx` as `HexFixed` and its decoder |
| `classify.dfy` | `Classify` | the colour chains of the two views and the glyph of a byte |
| `render.dfy` | `Render` | the text of one row; the loops `HexView`/`CharView`; what a row shows once escapes are stripped |
| `dump.dfy` | `Dump` | the `fread` loop of `main`: `Chunks`, `DumpText`, `Fread` and `DumpStream` on a 256-byte buffer |
| `dumprows.dfy` | `DumpRows` | the output cut at its `k`-th row |
| `xdd.dfy` | `Xdd` | `main`: parse, usage, stream selection, dump, exit status |

Functions are the specification. The source's loops are methods proved equal to
them: `ParseArgs`, `HexView`, `CharView`, `Fread` and `DumpStream`. Lemmas state
what the source promises about those functions.

`Strip` removes every escape sequence (`ESC` up to and including the next `m`).
It gives the text a reader sees, and the layout lemmas are stated about that text.

## Model

| member | source | states |
|---|---|---|
| `CType.DigitValue` | xdd.c:46 | a decimal digit's value is below ten |
| `CType.DigitChar` | xdd.c:46 | the digit for a value below ten is a digit with that value |
| `StrConv.SkipSpaces` | xdd.c:46 | the white space `strtol` skips is the longest run of `isspace` characters at that point |
| `StrConv.SkipDigits` | xdd.c:46 | the digits `strtol` consumes are the longest run of decimal digits at that point |
| `StrConv.SignAt` | xdd.c:46 | the optional sign is exactly the text at that position, and a `+` or `-` there is always taken as the sign |
| `StrConv.StrToL` | xdd.c:46 | `endptr` never passes the end; no conversion gives value 0 with `endptr` at the start; otherwise `endptr` stops right after the last digit of a maximal digit run |
| `StrConv.StrToLOfNumeral` | xdd.c:46 | white space, an optional sign, digits, then a non-digit: converts to the signed value of the digits and stops after them |
| `StrConv.StrToLConverted` | xdd.c:46-47 | conversely, a conversion happens only when the token begins with white space, an optional sign and a digit, and its value is that of those digits; so `-c a1` or `-c +-1` is not converted and is rejected |
| `StrConv.StrToLWithoutDigits` | xdd.c:46 | a token with no digit is not converted (value 0, end 0) |
| `StrConv.Decimal` | xdd.c:46 | a natural number's decimal text is non-empty, all digits, unsigned, and denotes the number |
| `StrConv.StrToLOfDecimal` | xdd.c:46-47 | `strtol` reads a rendered number back whole, so `endptr` reaches the terminating NUL |
| `ArgParse.Step` | xdd.c:26-67 | one iteration of the loop on one token; each of its outcomes is stated by `HelpAbortsParse`, `BareDashFails`, `UnknownOptionFails`, `BadColumnsFails`, `SecondFilenameFails`, `RepeatedColumnsFlag` and `ParseColumnsToken` |
| `ArgParse.Scan` | xdd.c:24-69 | the loop over a prefix of the arguments; `ScanInvariant` states what holds after every prefix, `StoppedPrefix` that a return ends it |
| `ArgParse.ReturnCode` | xdd.c:32-75 | `parse_args` returns 0 exactly on success, a negative value exactly for help, a positive one exactly on error |
| `ArgParse.Parse` | xdd.c:18-76 | a successful parse has a column count in [1, 256] |
| `ArgParse.ParseArgs` | xdd.c:18-76 | the loop over `argv[1..argc]` returns what the fold `Parse` returns, including every early return, and the column count it accepts fits the 256-byte buffer |
| `ArgParse.StoppedPrefix` | xdd.c:32-73 | once a token has made `parse_args` return, no later argument changes the result |
| `ArgParse.ScanInvariant` | xdd.c:22-67 | while running, the column count is in [1, 256]; a pending `-c` was the last token; a non-default count came from the token right after a `-c`, converted completely; a file name is a non-flag token |
| `ArgParse.ParseWithoutArguments` | xdd.c:19-22 | with no arguments the result is standard input and 16 columns |
| `ArgParse.OnlyArgumentsStop` | xdd.c:24-25 | help or an error needs at least one argument after the program name |
| `ArgParse.ParseOk` | xdd.c:44-64 | a successful parse has a column count in [1, 256]; a count other than 16 is the complete conversion of the argument after a `-c`; the file name is a non-flag argument |
| `ArgParse.StopDecides` | xdd.c:29-66 | a token that stops the loop decides the result, whatever follows it |
| `ArgParse.HelpAbortsParse` | xdd.c:36-37 | `-h` returns help at once, and later arguments are not examined |
| `ArgParse.BareDashFails` | xdd.c:31-32 | a lone `-` is an error |
| `ArgParse.UnknownOptionFails` | xdd.c:38-40 | a flag letter other than `c` and `h` is an error naming that letter |
| `ArgParse.SecondFilenameFails` | xdd.c:60-62 | a second file name is an error |
| `ArgParse.BadColumnsFails` | xdd.c:46-54 | the value of `-c` is an error if not wholly converted, or if outside [1, 256] |
| `ArgParse.DanglingColumnsFails` | xdd.c:71-73 | a `-c` that ends the arguments is an error naming that token |
| `ArgParse.RepeatedColumnsFlag` | xdd.c:34-35 | `-c -c` only sets the pending option again |
| `ArgParse.ParseFilename` | xdd.c:59-64 | a lone non-flag argument becomes the file name, and the width stays 16 |
| `ArgParse.ParseColumnsToken` | xdd.c:44-57 | `-c T` succeeds exactly when `T` converts completely to a number in [1, 256], which then is the column count |
| `ArgParse.ParseColumnsDecimal` | xdd.c:44-57 | every count from 1 to 256, written in decimal after `-c`, is accepted |
| `HexFormat.HexDigit` | xdd.c:132 | the hex digit for a value below sixteen decodes to that value |
| `HexFormat.HexValue` | xdd.c:132 | a string of `n` hex digits denotes a number below 16 to the `n` |
| `HexFormat.HexFixed` | xdd.c:107 | `%0Nx` of a value below 16 to the N prints exactly N characters; xdd formats no larger value |
| `HexFormat.HexFixedValue` | xdd.c:107 | the N printed digits denote the number modulo 16 to the N, which is the number itself for every value xdd formats |
| `HexFormat.HexFixedBelow` | xdd.c:107 | a number below 16 to the N prints in full |
| `HexFormat.Hex2Value` | xdd.c:132 | `%02x` of a byte is two hex digits whose value is the byte |
| `HexFormat.Hex2` | xdd.c:132 | `%02x` of a byte; `Hex2Value` states that it is two hex digits whose value is the byte and `DecodeHex2` that it decodes back |
| `HexFormat.DecodeHex2` | xdd.c:132 | reading hex pairs back undoes `%02x`, one byte at a time |
| `Classify.HexColor` | xdd.c:120-131 | the first test of the hex view's chain that holds decides the colour; `HexColorClasses` gives the resulting table |
| `Classify.ColorCode` | xdd.c:122-149 | the SGR colour parameter: 37 white, 34 blue, 33 yellow, 31 red, 32 green, as at xdd.c:122-149; `EscapeCodes` states the resulting sequences |
| `Classify.Escape` | xdd.c:122-150 | the sequence that selects a colour, ESC `[` parameter `m`; `EscapeCodes` gives it for each colour |
| `Classify.EscapeCodes` | xdd.c:110-156 | the literal escape sequences: `\x1b[37m`, `\x1b[34m`, `\x1b[33m`, `\x1b[31m`, `\x1b[32m` for the five colours, `\x1b[1m` (bold, before the hex grid) and `\x1b[0m` (reset, at the end of the row) |
| `Classify.HexColorClasses` | xdd.c:120-131 | hex view colours: NUL white, 0xFF blue, tab to carriage return yellow, other non-printables red, printables green |
| `Classify.CharColor` | xdd.c:138-149 | the first test of the character view's chain that holds decides the colour; `CharColorClasses` gives the resulting table |
| `Classify.CharColorClasses` | xdd.c:140-152 | character view colours: NUL white, 0xFF blue, only the newline yellow, other non-printables (tab included) red, printables green |
| `Classify.ViewsDisagreeOnControlSpaces` | xdd.c:124-145 | the two views colour a byte differently exactly for tab, vertical tab, form feed and carriage return |
| `CType.IsSpace` | xdd.c:125 | C-locale `isspace`: space and 0x09 to 0x0D; the yellow class of `HexColorClasses` rests on it |
| `CType.IsSpaceChar` | xdd.c:46 | the `isspace` that `strtol` applies to the characters of an argument; `SpaceCharIsSpaceByte` states that it is the byte table of `IsSpace` |
| `CType.IsPrint` | xdd.c:127 | C-locale `isprint`: 0x20 to 0x7E; the green classes of `HexColorClasses` and `CharColorClasses` and `Glyph` rest on it |
| `CType.SpaceCharIsSpaceByte` | xdd.c:46 | the white space `strtol` skips in an argument is the same C-locale `isspace` table the hex view uses on bytes |
| `Classify.Glyph` | xdd.c:150-154 | a printable byte shows as itself, any other byte as a dot; never a newline or an escape |
| `Render.Offset` | xdd.c:107 | the `%08x` offset of a row; `OffsetValue` gives its digits and value |
| `Render.OffsetValue` | xdd.c:107 | the offset is eight lowercase hex digits whose value is `row * columns` modulo 2 to the 32 (unsigned arithmetic) |
| `Render.HexCell` | xdd.c:112-132 | one position of the hex grid: grouping space, then the coloured byte or two spaces of padding; `StripHexGrid` and `PlainGridDigits` state what is visible of it |
| `Render.HexGrid` | xdd.c:111-133 | the hex grid of a row; `HexView` is proved to print it, `HexGridWidth` and `HexGridRoundTrip` state its width and that it decodes to the bytes |
| `Render.CharCell` | xdd.c:138-154 | one byte of the character column, with the green escape twice for a printable byte; `StripCharColumn` states what is visible of it |
| `Render.CharColumn` | xdd.c:137-155 | the character column of a row; `CharView` is proved to print it, `CharColumnGlyphs` states its visible glyphs |
| `Render.RowText` | xdd.c:107-157 | everything one iteration prints; `PrintRow` is proved to print it, `RowLine`, `RowFraming` and `StripRow` state its shape |
| `Render.HexView` | xdd.c:110-134 | the loop over the column positions prints exactly the hex grid of the bytes read, padding included |
| `Render.CharView` | xdd.c:137-155 | the loop over the bytes read prints exactly the character column |
| `Render.Glyphs` | xdd.c:137-155 | the visible character column has one glyph per byte read, in order |
| `Render.StripHexGrid` | xdd.c:110-134 | with escapes removed, the hex grid is the plain digits, grouping spaces and padding |
| `Render.StripCharColumn` | xdd.c:137-155 | with escapes removed, the character column is exactly the glyphs of the bytes |
| `Render.StripRow` | xdd.c:107-157 | with escapes removed, a row is offset, `": "`, plain grid, two spaces, glyphs and newline |
| `Render.RowFraming` | xdd.c:107-157 | every row starts with its eight-digit offset and `": "`, and ends with a newline |
| `Render.RowLine` | xdd.c:107-157 | a row holds exactly one newline, its last character |
| `Render.PlainGridWidth` | xdd.c:110-118 | the visible width of the grid from position `i` on depends on `i` and `columns` only |
| `Render.HexGridWidth` | xdd.c:110-118 | a row's visible hex grid is `2 * columns + (columns - 1) / 2` wide, however few bytes it holds |
| `Render.PlainGridDigits` | xdd.c:110-134 | without its spaces, the visible grid is the bytes' hex digits; padding contributes nothing |
| `Render.DecodeHexBytes` | xdd.c:132 | decoding the bytes' hex digits gives the bytes back |
| `Render.HexGridRoundTrip` | xdd.c:110-134 | with escapes and spaces removed, a row's hex grid decodes to exactly the bytes read |
| `Render.CharColumnGlyphs` | xdd.c:137-155 | the visible character column has as many characters as bytes read; a printable byte shows as itself, any other as a dot |
| `Dump.DumpText` | xdd.c:105-160 | the output is empty exactly when the input is |
| `Dump.RowsText` | xdd.c:105-160 | the text the read loop prints from row `first` on; `DumpText`, `DumpStep`, `RowsAhead` and `DumpRows.DumpRowAt` state its properties, and `DumpStream` keeps it as its loop invariant |
| `Dump.Chunks` | xdd.c:105 | the successive results of `fread`; `ChunksFlatten`, `ChunksSizes`, `ChunksCount` and `ChunksAt` state what they are |
| `Dump.ChunksFlatten` | xdd.c:105 | the successive reads, laid end to end, are the whole input |
| `Dump.ChunksSizes` | xdd.c:105 | every read returns 1 to `columns` bytes, and every read but the last is full |
| `Dump.ChunksCount` | xdd.c:105-160 | the loop prints `ceil(length / columns)` rows |
| `Dump.ChunksAt` | xdd.c:105-107 | row `k` holds the input from byte `k * columns` on, the position its offset names |
| `DumpRows.DumpRowAt` | xdd.c:105-159 | the `k`-th row printed is the `k + 1`-th line of the output: the rows before it hold exactly `k` newlines, and it is the row text of the `k`-th read, so it starts with the offset of row `k` |
| `Dump.VisibleDump` | xdd.c:105-160 | with escapes removed, the output is one visible row per read |
| `Dump.DumpLines` | xdd.c:105-160 | the output has `ceil(length / columns)` newlines, one per row |
| `Dump.DumpReadsBack` | xdd.c:105-134 | decoding the hex grids of all rows gives back the input, in order |
| `Dump.Fread` | xdd.c:105 | a read copies the next `min(count, remaining)` bytes to the front of the buffer and leaves the rest of it alone |
| `Dump.RowsAhead` | xdd.c:105-160 | one iteration prints the row of the next read; the rest of the loop sees the rest of the stream |
| `Dump.PrintRow` | xdd.c:106-157 | the body of the read loop prints exactly the row text of the bytes read |
| `Dump.DumpStream` | xdd.c:101-160 | the read loop, on a 256-byte buffer, prints exactly `DumpText(input, columns)` |
| `Xdd.Run` | xdd.c:78-160 | an error exits with status 1 and prints nothing; `-h` prints the usage line and exits 0; otherwise the selected stream is dumped with status 0; a file that cannot be opened exits with `ENOENT` |
| `Xdd.Usage` | xdd.c:86 | the line `-h` prints, `Usage: <prog> [FILENAME] ...` and a newline; `Run` states that `-h` prints exactly it and exits 0 |

## Left out

- `fopen`, `errno` and `perror` are not modelled. `Run` takes a map from the files that can be opened to their contents. A name missing from it exits with `ENOENT` (2). Other `errno` values and a stale `errno` after a successful `fopen` are not modelled.
- Read errors and short reads are not modelled. A read returns `min(columns, remaining)` bytes, as `fread` does on a regular file at the end of input. A read cut short by an interactive end of file in the middle of the input, and what the stream yields after it, is not modelled.
- Standard error is not modelled. Each diagnostic becomes a `ParseError` tag; the text of the messages is not modelled.
- `StrConv.StrToL`: values beyond the range of `long` are not modelled; `strtol` would clamp them to `LONG_MIN` or `LONG_MAX` and set `ERANGE`.
- `ArgParse.Step`: the source stores the `long` that `strtol` returns in an `int` (xdd.c:46); the model keeps the full value, so `-c 4294967312`, which truncates to 16 on a 64-bit target and is accepted there, is rejected here as out of range.
- `Dump.DumpStream`: the `int` row counter is unbounded here. The source would overflow after 2 to the 31 rows. The offset itself is modelled modulo 2 to the 32.
- Plain `char` is taken to be signed, as on x86. The tests `ch == '\xff'` at xdd.c:123 and xdd.c:142 then match the byte 0xFF, which the model colours blue in both views. Where plain `char` is unsigned (ARM, AArch64 and PowerPC Linux), `'\xff'` is 255 while `ch` is -1, the test never matches, and 0xFF falls through to red in both views.
- Locales: `isspace` and `isprint` follow the C locale. Bytes 0x80 to 0xFE are neither, so they are red and shown as dots. The source passes a negative `signed char` to these functions, which C leaves undefined.
- Output goes into a string; `printf` buffering is not modelled. `stdin` is a byte sequence.
