# csv-java in Dafny

A verified model of the core of the `qub` CSV library. It covers four parts:

- **The parser**, `CSV.parse`. It reads characters one at a time, left to right. Its state is the document built so far, the current row, the current cell, a "quoted" flag and a "pending carriage return" flag.
- **The serializer**. `CSVRow.toString` writes a row's cells joined by the separator. It wraps a cell in quotes only when the cell holds the separator or a line feed. Inside a wrapped cell it puts a backslash before each quote character. `CSVDocument.toString` writes each row followed by a line feed.
- **The containers**. `CSVRow` holds an append-only list of cells. `CSVDocument` holds an append-only list of row objects. Both have structural equality.
- **The format descriptor**, `CSVFormat`. It is a mutable (separator, quote) pair with fluent setters and two presets.

Layout, one module per file:

- `wrappers.dfy`: `Option` and `Result`. These stand for Java's `null` and for thrown exceptions.
- `text.dfy`: `Split` at a delimiter. This is the reference definition that the parser is compared against on plain text.
- `format.dfy`: the `CsvFormat` class and its presets.
- `row.dfy`: the `CsvRow` class. Also the serializer's specification functions `NeedsQuotes`, `Escaped`, `CellText` and `RowText`, and the cell-writing loop `WriteCell`.
- `document.dfy`: the `CsvDocument` class and `DocumentText`. The document keeps its rows as `CsvRow` objects, so a row changed after it is added changes the document, as in Java.
- `csv.dfy`: the parser.
  - Its specification is a state machine: `State`, `Step`, `Run` and `Finish`, with `ParseText = Finish(Run(Start, input))`.
  - It is implemented by the method `Parse`, whose loop keeps `Run(Start, input[..i])` equal to the abstract value of the live objects and flags.
  - Each loop turn is the method `ReadCharacter`. The block after the loop is the method `EndOfInput`.
- `roundtrip.dfy`: the round trip. With the comma-separated format, parsing the serializer's output gives the document back, under three conditions:
  - no cell holds `"`;
  - no cell holds a carriage return;
  - no row is a single empty cell.

  Three concrete lemmas show that each condition is needed.

Behaviours of the code that the model keeps:

- Parsing `"\n"` gives one row with **zero** cells, not one empty cell. The code flushes the cell only if it is non-empty or the row already has a cell (`sources/qub/CSV.java:90`). The test `tests/qub/CSVTests.java:92-95` agrees.
- The parser hard-codes `,` and `"` and never reads a format. So `ParseText` takes no format.
- The format's setters change the object in place and return it.

## Model

| member | source | states |
|---|---|---|
| Format.CsvFormat.constructor | sources/qub/CSVFormat.java:13-22 | a new format has separator `,` and quote `"` |
| Format.CsvFormat.GetCellSeparator | sources/qub/CSVFormat.java:24-27 | returns the separator most recently stored |
| Format.CsvFormat.SetCellSeparator | sources/qub/CSVFormat.java:29-33 | stores the new separator, leaves the quote unchanged, returns the same object; the getter then returns the new separator |
| Format.CsvFormat.GetQuote | sources/qub/CSVFormat.java:35-38 | returns the quote most recently stored |
| Format.CsvFormat.SetQuote | sources/qub/CSVFormat.java:40-44 | stores the new quote, leaves the separator unchanged, returns the same object; the getter then returns the new quote |
| Format.CsvFormat.Equals | sources/qub/CSVFormat.java:84-89 | true if and only if both separator and quote are equal |
| Format.EqualsSymmetric | sources/qub/CSVFormat.java:84-89 | comparing two formats gives the same answer whichever side the comparison is asked from |
| Format.CommaSeparated | sources/qub/CSVFormat.java:5 | the comma preset equals a default format (`,`, `"`) |
| Format.TabSeparated | sources/qub/CSVFormat.java:7-8 | the tab preset is a default format with its separator set to tab: (`\t`, `"`) |
| Row.CsvRow.constructor | sources/qub/CSVRow.java:15-27 | the new row's cells are the given cells, in order |
| Row.CsvRow.GetCellCount | sources/qub/CSVRow.java:33-36 | the number of cells |
| Row.CsvRow.GetCell | sources/qub/CSVRow.java:45-52 | requires a non-negative index; gives the cell at that index when it is below the count, and absent exactly when it is not |
| Row.CsvRow.AddCell | sources/qub/CSVRow.java:54-61 | the new cells are the old cells followed by the given cell; returns the same row |
| Row.CsvRow.AddCells | sources/qub/CSVRow.java:63-83 | the new cells are the old cells followed by all given cells, in order; returns the same row |
| Row.CsvRow.ToString | sources/qub/CSVRow.java:105-174 | the text written is `RowText` of the cells under the format's separator and quote; the count returned is the text's length |
| Row.WriteCell | sources/qub/CSVRow.java:129-169 | the scan with its early break decides "needs quotes" as "holds the separator or a line feed"; the text written is the cell verbatim, or the escaped cell between quotes |
| Row.CsvRow.Equals | sources/qub/CSVRow.java:176-186 | true if and only if both rows have the same number of cells and equal cells at every index |
| Row.EscapedWithoutQuote | sources/qub/CSVRow.java:155-169 | a wrapped cell without the quote character is written unchanged between the quotes |
| Row.EscapedLength | sources/qub/CSVRow.java:155-169 | escaping adds exactly one character per quote character in the cell |
| Row.EscapedQuotesFollowBackslash | sources/qub/CSVRow.java:159-165 | for any quote character other than the backslash, in an escaped cell every quote character comes right after a backslash |
| Row.RowTextSplits | sources/qub/CSVRow.java:117-154 | when the row has at least one cell and no cell needs quotes, splitting the row text at the separator gives back exactly the cells: one separator between cells, none before the first or after the last |
| Row.RowTextHasNoLineFeed | sources/qub/CSVRow.java:129-169 | when neither the separator nor the quote is a line feed, a row whose cells hold no line feed is written without one, quoted cells included |
| Document.CsvDocument.constructor | sources/qub/CSVDocument.java:12-26 | the new document's rows are the given rows, in order |
| Document.CsvDocument.GetRowCount | sources/qub/CSVDocument.java:28-31 | the number of rows |
| Document.CsvDocument.GetRow | sources/qub/CSVDocument.java:38-43 | requires `0 <= rowIndex < GetRowCount()`; returns that row object, whose cells are the document's row at that index |
| Document.CsvDocument.AddRow | sources/qub/CSVDocument.java:45-52 | the new rows are the old rows followed by the given row, and the contents gain exactly that row's cells; returns the same document |
| Document.CsvDocument.AddRows | sources/qub/CSVDocument.java:54-76 | the new rows are the old rows followed by the given rows, in order; the count grows by their number |
| Document.CsvDocument.ToString | sources/qub/CSVDocument.java:93-111 | the text written is `DocumentText` of the contents: each row's text followed by `"\n"`; the count returned is the text's length |
| Document.CsvDocument.Equals | sources/qub/CSVDocument.java:113-123 | true if and only if both documents have the same number of rows and rows with equal cells at every index |
| Document.DocumentTextLines | sources/qub/CSVDocument.java:103-107 | when no cell holds a line feed and neither the separator nor the quote is a line feed, the document text holds exactly one line feed per row |
| Csv.Parse | sources/qub/CSV.java:45-146 | fails exactly when `ParseText` fails, with the same error; otherwise returns a new document whose contents are `ParseText`'s rows, and every row object in it is new as well |
| Csv.ReadCharacter | sources/qub/CSV.java:59-118 | one loop turn over the document, row and cell objects and the two flags is exactly one `Step` of the state machine; the only row it can add to the document is the current row |
| Csv.EndOfInput | sources/qub/CSV.java:120-144 | the end-of-input block is exactly `Finish`: the missing-quote error while quoted; otherwise keep a pending CR, flush the cell, keep a non-empty last row; the only row it can add is the current row |
| Csv.RunAppend | sources/qub/CSV.java:59-61 | the single left-to-right pass: reading `a + b` is reading `a` and then `b` |
| Csv.ParseEmpty | sources/qub/CSV.java:120-140 | empty input parses to a document with zero rows |
| Csv.ParsedCellsHaveNoQuote | sources/qub/CSV.java:62-73 | in every successfully parsed document, no cell holds `"` |
| Csv.UnquotedInputParses | sources/qub/CSV.java:120-123 | input without `"` never fails: the only failure is input ending while quoted |
| Csv.QuotedRun | sources/qub/CSV.java:74-112 | while quoted, every character other than `"` is appended to the cell, including `,`, `\n` and `\r`; the pending-CR flag ends up telling whether the last one was `\r` |
| Csv.UnclosedQuoteFails | sources/qub/CSV.java:120-123 | a `"` that starts a cell and is never followed by another `"` fails with "Missing closing double-quote ('\"')." |
| Csv.EmptyQuotedCellFails | sources/qub/CSV.java:62-73 | `""` opens a quoted cell twice: the second quote still sees an empty cell, so nothing after it without `"` can close the cell and parsing fails with the missing-quote error |
| Csv.QuotedCell | sources/qub/CSV.java:62-112 | `"t"`, where `t` is non-empty and has no `"`, parses to one row with the one cell `t`; the quotes are stripped and separators and line breaks are kept |
| Csv.LoneCarriageReturnDropped | sources/qub/CSV.java:74-81 | outside quotes, a single `\r` before any other character has no effect: the result is as if only that character were read |
| Csv.DoubledCarriageReturnKept | sources/qub/CSV.java:74-81 | outside quotes, of two `\r` in a row the second is kept in the cell |
| Csv.TrailingCarriageReturnKept | sources/qub/CSV.java:125-140 | outside quotes, a `\r` still pending at end of input is appended to the last cell, which is then flushed into a kept row |
| Csv.ParsePlain | sources/qub/CSV.java:82-140 | on input without `"` or `\r`, parsing equals the reference `PlainRows`: lines split at `\n` and cells split at `,`; an empty line gives a zero-cell row; an empty last line adds no row |
| RoundTrip.ParseDocumentText | sources/qub/CSVDocument.java:93-111 | parsing the comma-separated text of a document gives the document back when no cell holds `"` or `\r` and no row is a single empty cell |
| RoundTrip.DocumentTextInjective | sources/qub/CSVDocument.java:93-111 | two such documents with the same text are equal |
| RoundTrip.QuoteInCellDoesNotRoundTrip | sources/qub/CSVRow.java:155-169 | the backslash escape is not decoded by the parser: the cell `b,"c` is written as `"b,\"c"` and reads back as `b,\c` |
| RoundTrip.EmptyCellRowDoesNotRoundTrip | sources/qub/CSV.java:88-97 | the row `[""]` is written as `"\n"`, which reads back as a zero-cell row |
| RoundTrip.CarriageReturnDoesNotRoundTrip | sources/qub/CSV.java:74-97 | the cell `"\r"` is written verbatim as `"\r\n"`, which reads back as a zero-cell row |

## Left out

- `CSV.parse(File)`, `parse(ByteReadStream)`, `parse(String)` and `parse(Iterable)` are left out. They are file, stream and decoding adapters. The model parses a `string` directly.
- The asynchronous `Result.create`/`await` wrappers and the character streams are left out. The `ToString` methods return the text they would write, plus the count. A line is ended with `"\n"`.
- Null checks are left out: the model has no nulls. So `addCell(null)` being rejected is not modelled.
- The index check of `getRow` is a precondition. The wording of its failure message belongs to qub's `PreCondition` library, which this model does not cover.
- `CSVFormat.toString` and `addProperty` are left out. They depend on `Strings.escapeAndQuote` and `Characters.toString`, which are not part of this model.
- Only the typed overloads of the `equals` methods are modelled. The `equals(Object)` overloads with their `instanceof` check are not.
- `getCells()` and `getRows()` are not separate members. The fields `cells` and `rows` stand for the live lists they return.
- The no-argument `toString()` overloads are left out. They equal `ToString` with the comma preset.
- Format.CommaSeparated: returns a new object each time, not one shared static instance. So aliasing of the mutable presets (a setter called on the preset changes it for everyone) is not captured.
- Format.TabSeparated: returns a new object each time, not one shared static instance. So aliasing of the mutable presets is not captured.
- Row.CsvRow.ToString: the character count is an unbounded integer. Java's 32-bit `int` overflow on very long output is not modelled.
- Document.CsvDocument.ToString: the character count is an unbounded integer. Java's 32-bit `int` overflow on very long output is not modelled.
- Characters are Unicode scalar values, not Java's UTF-16 code units. So a lone surrogate, which Java reads and writes like any other `char`, cannot be represented, and a character outside the Basic Multilingual Plane is one character here but two in Java. The character counts returned by `Row.CsvRow.ToString` and `Document.CsvDocument.ToString` then differ from Java's count. The rows and cells are not affected, because every character the parser and the writer treat specially is ASCII.
