/** Parsing what the serializer writes with the comma-separated format gives the document back,
    provided no cell holds a quote or a carriage return and no row is a single empty cell. */
module RoundTrip {
  import opened Wrappers
  import opened Row
  import opened Document
  import opened Csv

  /** A cell survives a round trip when it holds neither a quote nor a carriage return. */
  predicate CellRoundTrips(cell: string)
  {
    '"' !in cell && '\r' !in cell
  }

  /** A row survives when its cells do and it is not a single empty cell. */
  predicate RowRoundTrips(cells: seq<string>)
  {
    cells != [""] && forall k :: 0 <= k < |cells| ==> CellRoundTrips(cells[k])
  }

  /** The documents that survive a round trip. */
  predicate RoundTrips(rows: seq<seq<string>>)
  {
    forall i :: 0 <= i < |rows| ==> RowRoundTrips(rows[i])
  }

  /** Characters that the parser only appends to the cell in progress. */
  lemma {:induction false} AppendRun(s: State, t: string)
    requires !s.pendingCR && '"' !in t && '\r' !in t
    requires !s.quoted ==> ',' !in t && '\n' !in t
    ensures Run(s, t) == s.(cell := s.cell + t)
    decreases |t|
  {
    if t == [] {
      assert s.cell + t == s.cell;
    } else {
      assert t[0] in t;
      var s' := Step(s, t[0]);
      assert s' == s.(cell := s.cell + [t[0]]);
      AppendRun(s', t[1..]);
      assert s.cell + [t[0]] + t[1..] == s.cell + t;
    }
  }

  /** Reading a written cell leaves exactly that cell in progress. */
  lemma CellRun(rows: seq<seq<string>>, row: seq<string>, cell: string)
    requires '"' !in cell && '\r' !in cell
    ensures Run(State(rows, row, "", false, false), CellText(cell, ',', '"'))
         == State(rows, row, cell, false, false)
  {
    var s := State(rows, row, "", false, false);
    if NeedsQuotes(cell, ',') {
      EscapedWithoutQuote(cell, '"');
      assert CellText(cell, ',', '"') == ['"'] + cell + ['"'];
      assert cell != [];
      var open := Step(s, '"');
      assert open == s.(quoted := true);
      RunAppend(s, ['"'], cell + ['"']);
      RunSnoc(s, [], '"');
      assert [] + ['"'] == ['"'];
      AppendRun(open, cell);
      RunSnoc(open, cell, '"');
      assert ['"'] + (cell + ['"']) == ['"'] + cell + ['"'];
    } else {
      AppendRun(s, cell);
    }
  }

  /** Reading a written row (before its line terminator) leaves all but its last cell in the row
      and the last cell in progress. */
  lemma {:induction false} RowRun(rows: seq<seq<string>>, cells: seq<string>)
    requires |cells| >= 1
    requires forall k :: 0 <= k < |cells| ==> CellRoundTrips(cells[k])
    ensures Run(State(rows, [], "", false, false), RowText(cells, ',', '"'))
         == State(rows, cells[..|cells| - 1], cells[|cells| - 1], false, false)
  {
    var s := State(rows, [], "", false, false);
    if |cells| == 1 {
      CellRun(rows, [], cells[0]);
    } else {
      var init := cells[..|cells| - 1];
      var last := cells[|cells| - 1];
      var prefix := RowText(init, ',', '"');
      RowRun(rows, init);
      RunSnoc(s, prefix, ',');
      var mid := State(rows, init[..|init| - 1] + [init[|init| - 1]], "", false, false);
      assert init[..|init| - 1] + [init[|init| - 1]] == init;
      CellRun(rows, init, last);
      RunAppend(s, prefix + [','], CellText(last, ',', '"'));
      assert RowText(cells, ',', '"') == prefix + [','] + CellText(last, ',', '"');
    }
  }

  /** Reading a written row and its line terminator appends exactly that row. */
  lemma LineRun(rows: seq<seq<string>>, cells: seq<string>)
    requires RowRoundTrips(cells)
    ensures Run(State(rows, [], "", false, false), RowText(cells, ',', '"') + LineTerminator)
         == State(rows + [cells], [], "", false, false)
  {
    var s := State(rows, [], "", false, false);
    var text := RowText(cells, ',', '"');
    assert text + LineTerminator == text + ['\n'];
    RunSnoc(s, text, '\n');
    if cells != [] {
      RowRun(rows, cells);
      var t := Run(s, text);
      assert Step(t, '\n') == State(rows + [Flushed(t.row, t.cell)], [], "", false, false);
      FlushedRow(cells);
    }
  }

  /** Flushing the last cell of a row that is not a single empty cell gives the whole row. */
  lemma FlushedRow(cells: seq<string>)
    requires cells != [] && cells != [""]
    ensures Flushed(cells[..|cells| - 1], cells[|cells| - 1]) == cells
  {
    assert cells[..|cells| - 1] + [cells[|cells| - 1]] == cells;
  }

  /** Reading a written document leaves exactly its rows, with nothing in progress. */
  lemma {:induction false} DocumentRun(rows: seq<seq<string>>)
    requires RoundTrips(rows)
    ensures Run(Start, DocumentText(rows, ',', '"')) == State(rows, [], "", false, false)
  {
    if rows != [] {
      var init := rows[..|rows| - 1];
      var last := rows[|rows| - 1];
      assert RoundTrips(init) by {
        forall i | 0 <= i < |init| ensures RowRoundTrips(init[i]) {
          assert init[i] == rows[i];
        }
      }
      assert RowRoundTrips(last);
      DocumentRun(init);
      var prefix := DocumentText(init, ',', '"');
      var line := RowText(last, ',', '"') + LineTerminator;
      assert DocumentText(rows, ',', '"') == prefix + line;
      RunAppend(Start, prefix, line);
      LineRun(init, last);
      assert init + [last] == rows;
    }
  }

  /** The round trip: parsing the comma-separated text of a document gives the document back. */
  lemma ParseDocumentText(rows: seq<seq<string>>)
    requires RoundTrips(rows)
    ensures ParseText(DocumentText(rows, ',', '"')) == Success(rows)
  {
    DocumentRun(rows);
  }

  /** So the serializer tells such documents apart: different documents give different text. */
  lemma DocumentTextInjective(a: seq<seq<string>>, b: seq<seq<string>>)
    requires RoundTrips(a) && RoundTrips(b)
    requires DocumentText(a, ',', '"') == DocumentText(b, ',', '"')
    ensures a == b
  {
    ParseDocumentText(a);
    ParseDocumentText(b);
  }

  /** Without the quote condition: the backslash the serializer puts before a quote is not
      decoded, and the quote itself ends the quoted cell. */
  lemma QuoteInCellDoesNotRoundTrip()
    ensures DocumentText([["b,\"c"]], ',', '"') == "\"b,\\\"c\"\n"
    ensures ParseText("\"b,\\\"c\"\n") == Success([["b,\\c"]])
  {
    QuoteInCellWritten();
    QuoteInCellReparsed();
  }

  lemma QuoteInCellWritten()
    ensures DocumentText([["b,\"c"]], ',', '"') == "\"b,\\\"c\"\n"
  {
    var cell := "b,\"c";
    assert Escaped(cell, '"') == "b,\\\"c" by {
      assert "b"[..0] == [];
      assert Escaped("b", '"') == "b";
      assert "b,"[..1] == "b";
      assert Escaped("b,", '"') == "b,";
      assert "b,\""[..2] == "b,";
      assert Escaped("b,\"", '"') == "b,\\\"";
      assert cell[..3] == "b,\"";
    }
    assert cell[1] == ',';
    assert CellText(cell, ',', '"') == "\"b,\\\"c\"";
    assert [[cell]][..0] == [];
  }

  lemma QuoteInCellReparsed()
    ensures ParseText("\"b,\\\"c\"\n") == Success([["b,\\c"]])
  {
    var p1: string := ['"'];
    var p2 := p1 + "b,\\";
    var p3 := p2 + ['"'];
    var p4 := p3 + ['c'];
    var p5 := p4 + ['"'];
    var p6 := p5 + ['\n'];
    assert p6 == "\"b,\\\"c\"\n";
    RunSnoc(Start, [], '"');
    assert [] + ['"'] == p1;
    RunAppend(Start, p1, "b,\\");
    QuotedRun(Step(Start, '"'), "b,\\");
    assert Run(Start, p2) == State([], [], "b,\\", true, false);
    RunSnoc(Start, p2, '"');
    assert Run(Start, p3) == State([], [], "b,\\", false, false);
    RunSnoc(Start, p3, 'c');
    assert Run(Start, p4) == State([], [], "b,\\c", false, false);
    RunSnoc(Start, p4, '"');
    assert Run(Start, p5) == State([], [], "b,\\c", false, false);
    RunSnoc(Start, p5, '\n');
    assert Flushed([], "b,\\c") == ["b,\\c"];
    assert Run(Start, p6) == State([["b,\\c"]], [], "", false, false);
  }

  /** Without the row condition: a row of one empty cell is written as an empty line,
      which parses to a row with no cells. */
  lemma EmptyCellRowDoesNotRoundTrip()
    ensures DocumentText([[""]], ',', '"') == "\n"
    ensures ParseText("\n") == Success([[]])
  {
    RunSnoc(Start, [], '\n');
    assert [] + ['\n'] == "\n";
    assert Run(Start, "\n") == State([[]], [], "", false, false);
  }

  /** Without the carriage-return condition: a cell holding only a carriage return is written
      verbatim, and the parser drops a carriage return before a line feed. */
  lemma CarriageReturnDoesNotRoundTrip()
    ensures DocumentText([["\r"]], ',', '"') == "\r\n"
    ensures ParseText("\r\n") == Success([[]])
  {
    LoneCarriageReturnDropped(Start, '\n');
    RunSnoc(Start, [], '\n');
    assert [] + ['\n'] == "\n";
    assert ['\r', '\n'] == "\r\n";
    assert Run(Start, "\r\n") == State([[]], [], "", false, false);
  }
}
