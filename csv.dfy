/** The character-level CSV parser: a single left-to-right pass of a five-part state machine.
    The separator ',' and the quote '"' are fixed; the parser does not consult a format. */
module Csv {
  import opened Wrappers
  import opened Row
  import opened Document
  import Text

  datatype ParseError = ParseError(message: string)

  const MissingClosingQuote: ParseError := ParseError("Missing closing double-quote ('\"').")

  /** The parser's state between two characters. */
  datatype State = State(
    rows: seq<seq<string>>,  // the document built so far
    row: seq<string>,        // the row in progress
    cell: string,            // the cell in progress
    quoted: bool,            // the cell in progress is being read as quoted
    pendingCR: bool)         // the previous character was a carriage return

  const Start: State := State([], [], "", false, false)

  /** The row with the cell in progress added, unless that cell is empty and the row has no cells yet. */
  function Flushed(row: seq<string>, cell: string): seq<string>
  {
    if cell != [] || |row| > 0 then row + [cell] else row
  }

  /** The state after reading one more character. */
  function Step(s: State, c: char): State
  {
    if c == '"' then
      s.(quoted := s.cell == [], pendingCR := false)
    else if c == '\r' then
      s.(cell := if s.quoted || s.pendingCR then s.cell + [c] else s.cell, pendingCR := true)
    else if c == '\n' then
      if s.quoted then s.(cell := s.cell + [c], pendingCR := false)
      else State(s.rows + [Flushed(s.row, s.cell)], [], "", false, false)
    else if c == ',' then
      if s.quoted then s.(cell := s.cell + [c], pendingCR := false)
      else s.(row := s.row + [s.cell], cell := "", pendingCR := false)
    else
      s.(cell := s.cell + [c], pendingCR := false)
  }

  /** The state after reading all of `input`, starting from `s`. */
  function Run(s: State, input: string): State
    decreases |input|
  {
    if input == [] then s else Run(Step(s, input[0]), input[1..])
  }

  /** End of input: fail inside a quoted cell; otherwise keep a pending carriage return,
      flush the cell and keep the last row if it has a cell. */
  function Finish(s: State): Result<seq<seq<string>>, ParseError>
  {
    if s.quoted then Failure(MissingClosingQuote)
    else
      var cell := if s.pendingCR then s.cell + ['\r'] else s.cell;
      var row := Flushed(s.row, cell);
      Success(if |row| > 0 then s.rows + [row] else s.rows)
  }

  /** What parsing `input` yields: the rows of cells, or the parse error. */
  function ParseText(input: string): Result<seq<seq<string>>, ParseError>
  {
    Finish(Run(Start, input))
  }

  // ---------------------------------------------------------------------------
  // The parser as the source runs it: one loop over the characters.
  // ---------------------------------------------------------------------------

  /** Parses `input` into a new document, or fails with the missing-quote error. */
  method Parse(input: string) returns (r: Result<CsvDocument, ParseError>)
    ensures r.Failure? ==> ParseText(input) == Failure(r.error)
    ensures r.Success? ==> fresh(r.value) && ParseText(input) == Success(r.value.Contents())
    ensures r.Success? ==> forall x :: x in r.value.rows ==> fresh(x)
  {
    var result := new CsvDocument([]);
    var currentRow := new CsvRow([]);
    var currentCell := "";
    var currentCellIsQuoted := false;
    var previousCharacterWasCarriageReturn := false;
    var i := 0;
    while i < |input|
      invariant 0 <= i <= |input|
      invariant fresh(result) && fresh(currentRow)
      invariant currentRow !in result.rows
      invariant forall x :: x in result.rows ==> fresh(x)
      invariant Run(Start, input[..i]) == State(result.Contents(), currentRow.cells, currentCell,
                                                currentCellIsQuoted, previousCharacterWasCarriageReturn)
    {
      RunSnoc(Start, input[..i], input[i]);
      assert input[..i + 1] == input[..i] + [input[i]];
      currentRow, currentCell, currentCellIsQuoted, previousCharacterWasCarriageReturn :=
        ReadCharacter(input[i], result, currentRow, currentCell,
                      currentCellIsQuoted, previousCharacterWasCarriageReturn);
      i := i + 1;
    }
    assert input[..i] == input;
    r := EndOfInput(result, currentRow, currentCell, currentCellIsQuoted, previousCharacterWasCarriageReturn);
  }

  /** One turn of the parser's loop: reads character `c` into the document, the current row,
      the current cell and the two flags; returns the (possibly new) current row and the new cell and flags. */
  method ReadCharacter(c: char, result: CsvDocument, currentRow: CsvRow, currentCell: string,
                       currentCellIsQuoted: bool, previousCharacterWasCarriageReturn: bool)
    returns (row: CsvRow, cell: string, quoted: bool, pendingCR: bool)
    requires currentRow !in result.rows
    modifies result, currentRow
    ensures row == currentRow || fresh(row)
    ensures row !in result.rows
    ensures forall x :: x in result.rows ==> x in old(result.rows) || x == currentRow
    ensures State(result.Contents(), row.cells, cell, quoted, pendingCR)
         == Step(State(old(result.Contents()), old(currentRow.cells), currentCell,
                       currentCellIsQuoted, previousCharacterWasCarriageReturn), c)
  {
    row, cell, quoted, pendingCR := currentRow, currentCell, currentCellIsQuoted, previousCharacterWasCarriageReturn;
    if c == '"' {
      if cell == [] {
        quoted := true;
      } else {
        quoted := false;
      }
      pendingCR := false;
    } else if c == '\r' {
      if quoted || pendingCR {
        cell := cell + [c];
      }
      pendingCR := true;
    } else if c == '\n' {
      if quoted {
        cell := cell + [c];
      } else {
        if cell != [] || row.GetCellCount() > 0 {
          var _ := row.AddCell(cell);
          cell := "";
          assert result.Contents() == old(result.Contents());
        }
        var _ := result.AddRow(row);
        row := new CsvRow([]);
      }
      pendingCR := false;
    } else if c == ',' {
      if quoted {
        cell := cell + [c];
      } else {
        var _ := row.AddCell(cell);
        cell := "";
        assert result.Contents() == old(result.Contents());
      }
      pendingCR := false;
    } else {
      cell := cell + [c];
      pendingCR := false;
    }
  }

  /** The end of the parser's run: fails inside a quoted cell, otherwise completes the document. */
  method EndOfInput(result: CsvDocument, currentRow: CsvRow, currentCell: string,
                    currentCellIsQuoted: bool, previousCharacterWasCarriageReturn: bool)
    returns (r: Result<CsvDocument, ParseError>)
    requires currentRow !in result.rows
    modifies result, currentRow
    ensures forall x :: x in result.rows ==> x in old(result.rows) || x == currentRow
    ensures r.Failure? ==> Finish(State(old(result.Contents()), old(currentRow.cells), currentCell,
                                        currentCellIsQuoted, previousCharacterWasCarriageReturn))
                           == Failure(r.error)
    ensures r.Success? ==> r.value == result
                           && Finish(State(old(result.Contents()), old(currentRow.cells), currentCell,
                                           currentCellIsQuoted, previousCharacterWasCarriageReturn))
                              == Success(result.Contents())
  {
    if currentCellIsQuoted {
      return Failure(MissingClosingQuote);
    }
    var cell := currentCell;
    if previousCharacterWasCarriageReturn {
      cell := cell + ['\r'];
    }
    if cell != [] || currentRow.GetCellCount() > 0 {
      var _ := currentRow.AddCell(cell);
      cell := "";
      assert result.Contents() == old(result.Contents());
    }
    if currentRow.GetCellCount() > 0 {
      var _ := result.AddRow(currentRow);
    }
    r := Success(result);
  }

  // ---------------------------------------------------------------------------
  // Properties of the parser.
  // ---------------------------------------------------------------------------

  /** Reading two pieces of input one after the other is reading their concatenation. */
  lemma {:induction false} RunAppend(s: State, a: string, b: string)
    ensures Run(s, a + b) == Run(Run(s, a), b)
    decreases |a|
  {
    if a != [] {
      assert a + b != [] && (a + b)[0] == a[0] && (a + b)[1..] == a[1..] + b;
      RunAppend(Step(s, a[0]), a[1..], b);
    } else {
      assert a + b == b;
    }
  }

  /** Reading one more character is one more step. */
  lemma RunSnoc(s: State, a: string, c: char)
    ensures Run(s, a + [c]) == Step(Run(s, a), c)
  {
    RunAppend(s, a, [c]);
    assert Run(Run(s, a), [c]) == Run(Step(Run(s, a), c), []);
  }

  /** Empty input parses to a document with no rows. */
  lemma ParseEmpty()
    ensures ParseText("") == Success([])
  {
  }

  /** No cell anywhere in the state holds a quote character. */
  predicate QuoteFree(s: State)
  {
    (forall i, k :: 0 <= i < |s.rows| && 0 <= k < |s.rows[i]| ==> '"' !in s.rows[i][k])
    && (forall k :: 0 <= k < |s.row| ==> '"' !in s.row[k])
    && '"' !in s.cell
  }

  lemma {:induction false} RunKeepsQuoteFree(s: State, input: string)
    requires QuoteFree(s)
    ensures QuoteFree(Run(s, input))
    decreases |input|
  {
    if input != [] {
      var t := Step(s, input[0]);
      if input[0] == '\n' && !s.quoted {
        var f := Flushed(s.row, s.cell);
        assert forall k :: 0 <= k < |f| ==> '"' !in f[k];
        assert t.rows == s.rows + [f];
      }
      assert QuoteFree(t);
      RunKeepsQuoteFree(t, input[1..]);
    }
  }

  /** The quote character is never stored in a cell. */
  lemma ParsedCellsHaveNoQuote(input: string)
    requires ParseText(input).Success?
    ensures var rows := ParseText(input).value;
            forall i, k :: 0 <= i < |rows| && 0 <= k < |rows[i]| ==> '"' !in rows[i][k]
  {
    RunKeepsQuoteFree(Start, input);
    var s := Run(Start, input);
    var cell := if s.pendingCR then s.cell + ['\r'] else s.cell;
    var f := Flushed(s.row, cell);
    assert forall k :: 0 <= k < |f| ==> '"' !in f[k];
  }

  lemma {:induction false} RunStaysUnquoted(s: State, input: string)
    requires !s.quoted && '"' !in input
    ensures !Run(s, input).quoted
    decreases |input|
  {
    if input != [] {
      assert input[0] in input;
      RunStaysUnquoted(Step(s, input[0]), input[1..]);
    }
  }

  /** Input without a quote character always parses. */
  lemma UnquotedInputParses(input: string)
    requires '"' !in input
    ensures ParseText(input).Success?
  {
    RunStaysUnquoted(Start, input);
  }

  /** Inside a quoted cell every character other than the quote is kept, separators, line feeds
      and carriage returns included. */
  lemma {:induction false} QuotedRun(s: State, t: string)
    requires s.quoted && '"' !in t
    ensures Run(s, t) == s.(cell := s.cell + t,
                            pendingCR := if t == [] then s.pendingCR else t[|t| - 1] == '\r')
    decreases |t|
  {
    if t == [] {
      assert s.cell + t == s.cell;
    } else {
      assert t[0] in t;
      var s' := Step(s, t[0]);
      assert s' == s.(cell := s.cell + [t[0]], pendingCR := t[0] == '\r');
      QuotedRun(s', t[1..]);
      assert s.cell + [t[0]] + t[1..] == s.cell + t;
    }
  }

  /** A quote that is never closed makes parsing fail with the missing-quote error. */
  lemma UnclosedQuoteFails(t: string)
    requires '"' !in t
    ensures ParseText(['"'] + t) == Failure(MissingClosingQuote)
  {
    assert (['"'] + t)[1..] == t;
    QuotedRun(Step(Start, '"'), t);
  }

  /** A quoted cell comes back without its quotes, keeping separators and line breaks as data. */
  lemma QuotedCell(t: string)
    requires t != [] && '"' !in t
    ensures ParseText(['"'] + t + ['"']) == Success([[t]])
  {
    var input := ['"'] + t + ['"'];
    var q := Step(Start, '"');
    assert input[0] == '"' && input[1..] == t + ['"'];
    assert Run(Start, input) == Run(q, t + ['"']);
    QuotedRun(q, t);
    RunSnoc(q, t, '"');
    assert Run(Start, input) == State([], [], t, false, false);
    assert Flushed([], t) == [t];
    assert ParseText(input) == Finish(State([], [], t, false, false));
    assert Finish(State([], [], t, false, false)) == Success([] + [[t]]);
    assert [] + [[t]] == [[t]];
  }

  /** Two quotes in a row leave the cell empty, so the second one opens the quoted cell
      again; nothing after it can close that cell, and parsing fails. */
  lemma EmptyQuotedCellFails(t: string)
    requires '"' !in t
    ensures ParseText(['"', '"'] + t) == Failure(MissingClosingQuote)
  {
    var q := Step(Step(Start, '"'), '"');
    assert q.quoted;
    assert (['"', '"'] + t)[0] == '"' && (['"', '"'] + t)[1..] == ['"'] + t;
    assert (['"'] + t)[0] == '"' && (['"'] + t)[1..] == t;
    assert Run(Start, ['"', '"'] + t) == Run(Step(Start, '"'), ['"'] + t);
    assert Run(Step(Start, '"'), ['"'] + t) == Run(q, t);
    QuotedRun(q, t);
  }

  /** Outside quotes a single carriage return has no effect on the character after it. */
  lemma LoneCarriageReturnDropped(s: State, c: char)
    requires !s.quoted && !s.pendingCR && c != '\r'
    ensures Run(s, ['\r', c]) == Step(s, c)
  {
    var s1 := Step(s, '\r');
    assert s1 == s.(pendingCR := true);
    RunSnoc(s, ['\r'], c);
    assert ['\r'] + [c] == ['\r', c];
    RunSnoc(s, [], '\r');
    assert [] + ['\r'] == ['\r'];
  }

  /** Outside quotes the second of two carriage returns is kept. */
  lemma DoubledCarriageReturnKept(s: State)
    requires !s.quoted && !s.pendingCR
    ensures Run(s, ['\r', '\r']) == s.(cell := s.cell + ['\r'], pendingCR := true)
  {
    RunSnoc(s, ['\r'], '\r');
    assert ['\r'] + ['\r'] == ['\r', '\r'];
    RunSnoc(s, [], '\r');
    assert [] + ['\r'] == ['\r'];
  }

  /** A carriage return still pending at the end of the input is kept in the last cell. */
  lemma TrailingCarriageReturnKept(s: State)
    requires !s.quoted && s.pendingCR
    ensures Finish(s) == Success(s.rows + [s.row + [s.cell + ['\r']]])
  {
  }

  // ---------------------------------------------------------------------------
  // A reference definition for text without quotes and carriage returns.
  // ---------------------------------------------------------------------------

  /** The cells of one line: none for an empty line, else the pieces between commas. */
  function LineCells(line: string): seq<string>
  {
    if line == [] then [] else Text.Split(line, ',')
  }

  function LinesCells(lines: seq<string>): seq<seq<string>>
  {
    if lines == [] then [] else LinesCells(lines[..|lines| - 1]) + [LineCells(lines[|lines| - 1])]
  }

  /** The rows of plain text: one per line, the last line dropped when it is empty. */
  function PlainRows(input: string): seq<seq<string>>
  {
    var lines := Text.Split(input, '\n');
    var last := lines[|lines| - 1];
    LinesCells(lines[..|lines| - 1]) + (if last == [] then [] else [LineCells(last)])
  }

  /** The parser's state on plain text, read off the text's lines and fields. */
  predicate PlainState(s: State, input: string)
  {
    var lines := Text.Split(input, '\n');
    var fields := Text.Split(lines[|lines| - 1], ',');
    s == State(LinesCells(lines[..|lines| - 1]), fields[..|fields| - 1], fields[|fields| - 1], false, false)
  }

  /** Flushing the last field into the others gives the line's cells. */
  lemma FlushedLine(line: string)
    ensures var fields := Text.Split(line, ',');
            Flushed(fields[..|fields| - 1], fields[|fields| - 1]) == LineCells(line)
  {
    Text.SplitIsEmptyPiece(line, ',');
    var fields := Text.Split(line, ',');
    assert fields[..|fields| - 1] + [fields[|fields| - 1]] == fields;
  }

  lemma {:induction false} RunPlain(input: string)
    requires '"' !in input && '\r' !in input
    ensures PlainState(Run(Start, input), input)
    decreases |input|
  {
    if input != [] {
      var p := input[..|input| - 1];
      var c := input[|input| - 1];
      assert input == p + [c];
      assert c in input;
      RunPlain(p);
      RunSnoc(Start, p, c);
      if c == '\n' {
        PlainLineFeed(Run(Start, p), p);
      } else {
        PlainCharacter(Run(Start, p), p, c);
      }
    }
  }

  /** A line feed ends the line: its cells become a row and a new empty line starts. */
  lemma PlainLineFeed(s: State, p: string)
    requires PlainState(s, p)
    ensures PlainState(Step(s, '\n'), p + ['\n'])
  {
    var lines := Text.Split(p, '\n');
    var line := lines[|lines| - 1];
    FlushedLine(line);
    var lines' := Text.Split(p + ['\n'], '\n');
    assert (p + ['\n'])[..|p|] == p;
    assert lines' == lines + [""];
    assert lines'[..|lines'| - 1] == lines;
    assert lines == lines[..|lines| - 1] + [line];
    assert Text.Split("", ',') == [""];
  }

  /** A comma ends a field, any other character extends the last field. */
  lemma PlainCharacter(s: State, p: string, c: char)
    requires PlainState(s, p)
    requires c != '\n' && c != '\r' && c != '"'
    ensures PlainState(Step(s, c), p + [c])
  {
    var lines := Text.Split(p, '\n');
    var line := lines[|lines| - 1];
    var fields := Text.Split(line, ',');
    var lines' := Text.Split(p + [c], '\n');
    assert (p + [c])[..|p|] == p;
    assert lines' == lines[..|lines| - 1] + [line + [c]];
    assert lines'[..|lines'| - 1] == lines[..|lines| - 1];
    assert (line + [c])[..|line|] == line;
    var fields' := Text.Split(line + [c], ',');
    if c == ',' {
      assert fields' == fields + [""];
      assert fields'[..|fields'| - 1] == fields;
      assert fields == fields[..|fields| - 1] + [fields[|fields| - 1]];
    } else {
      assert fields' == fields[..|fields| - 1] + [fields[|fields| - 1] + [c]];
    }
  }

  /** On text without quotes and carriage returns, the parser splits lines at '\n' and cells at ','. */
  lemma ParsePlain(input: string)
    requires '"' !in input && '\r' !in input
    ensures ParseText(input) == Success(PlainRows(input))
  {
    RunPlain(input);
    var lines := Text.Split(input, '\n');
    var last := lines[|lines| - 1];
    FlushedLine(last);
    Text.SplitIsEmptyPiece(last, ',');
    var s := Run(Start, input);
    var fields := Text.Split(last, ',');
    assert s == State(LinesCells(lines[..|lines| - 1]), fields[..|fields| - 1], fields[|fields| - 1], false, false);
    assert Flushed(s.row, s.cell) == LineCells(last);
    assert |LineCells(last)| > 0 <==> last != [];
    assert ParseText(input) == Finish(s);
    assert PlainRows(input) == s.rows + (if last == [] then [] else [LineCells(last)]);
    if last == [] {
      assert Finish(s) == Success(s.rows);
      assert s.rows + [] == s.rows;
    } else {
      assert Finish(s) == Success(s.rows + [LineCells(last)]);
    }
  }
}
