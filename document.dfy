/** A CSV document: an append-only list of row objects, and how it is written out as text. */
module Document {
  import opened Format
  import opened Row

  /** The line terminator written after every row. */
  const LineTerminator: string := "\n"

  /** The document text: every row's text followed by a line terminator. */
  function DocumentText(rows: seq<seq<string>>, separator: char, quote: char): string
  {
    if rows == [] then ""
    else DocumentText(rows[..|rows| - 1], separator, quote)
         + RowText(rows[|rows| - 1], separator, quote) + LineTerminator
  }

  /** The number of line terminators written equals the number of rows, when no cell holds a line feed
      and neither the separator nor the quote is one. */
  lemma {:induction false} DocumentTextLines(rows: seq<seq<string>>, separator: char, quote: char)
    requires separator != '\n' && quote != '\n'
    requires forall i, k :: 0 <= i < |rows| && 0 <= k < |rows[i]| ==> '\n' !in rows[i][k]
    ensures multiset(DocumentText(rows, separator, quote))['\n'] == |rows|
  {
    if rows != [] {
      var init := rows[..|rows| - 1];
      var last := rows[|rows| - 1];
      DocumentTextLines(init, separator, quote);
      RowTextHasNoLineFeed(last, separator, quote);
      assert DocumentText(rows, separator, quote)
          == DocumentText(init, separator, quote) + RowText(last, separator, quote) + LineTerminator;
    }
  }

  /** The cells of each row object, in order. */
  function CellsOf(rs: seq<CsvRow>): (t: seq<seq<string>>)
    reads set r | r in rs
    ensures |t| == |rs|
    ensures forall i :: 0 <= i < |rs| ==> t[i] == rs[i].cells
  {
    if rs == [] then [] else CellsOf(rs[..|rs| - 1]) + [rs[|rs| - 1].cells]
  }

  /** An append-only list of rows. Rows are held by reference, as in the source. */
  class CsvDocument {
    var rows: seq<CsvRow>

    /** The document's contents: the cells of each of its rows. */
    function Contents(): (t: seq<seq<string>>)
      reads this, set r | r in rows
      ensures |t| == |rows|
      ensures forall i :: 0 <= i < |rows| ==> t[i] == rows[i].cells
    {
      CellsOf(rows)
    }

    /** A document holding the given rows, in order. */
    constructor (initial: seq<CsvRow>)
      ensures rows == initial
    {
      rows := [];
      new;
      var _ := AddRows(initial);
    }

    function GetRowCount(): (n: nat)
      reads this
      ensures n == |rows|
    {
      |rows|
    }

    /** The row at `rowIndex`, which must be a valid index. */
    function GetRow(rowIndex: int): (r: CsvRow)
      requires 0 <= rowIndex < GetRowCount()
      reads this, set r | r in rows
      ensures r == rows[rowIndex]
      ensures r.cells == Contents()[rowIndex]
    {
      rows[rowIndex]
    }

    /** Appends one row at the end and returns the same document. */
    method AddRow(row: CsvRow) returns (self: CsvDocument)
      modifies this
      ensures self == this
      ensures rows == old(rows) + [row]
      ensures Contents() == old(Contents()) + [row.cells]
    {
      rows := rows + [row];
      self := this;
    }

    /** Appends every given row, in order, and returns the same document. */
    method AddRows(more: seq<CsvRow>) returns (self: CsvDocument)
      modifies this
      ensures self == this
      ensures rows == old(rows) + more
      ensures GetRowCount() == old(GetRowCount()) + |more|
    {
      for k := 0 to |more|
        invariant rows == old(rows) + more[..k]
      {
        var _ := AddRow(more[k]);
        assert more[..k + 1] == more[..k] + [more[k]];
      }
      assert more[..|more|] == more;
      self := this;
    }

    /** Writes the document in the given format: returns the text written and the number of characters. */
    method ToString(format: CsvFormat) returns (text: string, count: int)
      ensures text == DocumentText(Contents(), format.cellSeparator, format.quote)
      ensures count == |text|
    {
      count := 0;
      text := "";
      for k := 0 to |rows|
        invariant text == DocumentText(Contents()[..k], format.cellSeparator, format.quote)
        invariant count == |text|
      {
        var rowText, rowCount := rows[k].ToString(format);
        text := text + rowText;
        count := count + rowCount;
        text := text + LineTerminator;
        count := count + |LineTerminator|;
        assert Contents()[..k + 1][..k] == Contents()[..k];
      }
      assert Contents()[..|rows|] == Contents();
    }

    /** Structural equality: rows with the same cells in the same order. */
    function Equals(other: CsvDocument): (r: bool)
      reads this, other, (set r | r in rows), (set r | r in other.rows)
      ensures r <==> |rows| == |other.rows|
                     && forall i :: 0 <= i < |rows| ==> rows[i].cells == other.rows[i].cells
    {
      Contents() == other.Contents()
    }
  }
}
