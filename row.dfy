/** A row of a CSV document, and how a row is written out as text. */
module Row {
  import opened Wrappers
  import opened Format
  import Text

  // ---------------------------------------------------------------------------
  // The serialized form of a row, as a function of its cells and the format.
  // ---------------------------------------------------------------------------

  /** A cell is wrapped in quotes when it holds the separator or a line feed. */
  predicate NeedsQuotes(cell: string, separator: char)
  {
    separator in cell || '\n' in cell
  }

  /** The cell with a backslash put before every quote character. */
  function Escaped(cell: string, quote: char): string
  {
    if cell == [] then []
    else
      var c := cell[|cell| - 1];
      Escaped(cell[..|cell| - 1], quote) + (if c == quote then ['\\', c] else [c])
  }

  /** How one cell is written: verbatim, or quoted with its quotes backslash-escaped. */
  function CellText(cell: string, separator: char, quote: char): string
  {
    if NeedsQuotes(cell, separator) then [quote] + Escaped(cell, quote) + [quote] else cell
  }

  /** The cells written one after another with the separator between them. */
  function RowText(cells: seq<string>, separator: char, quote: char): string
  {
    if cells == [] then ""
    else if |cells| == 1 then CellText(cells[0], separator, quote)
    else RowText(cells[..|cells| - 1], separator, quote) + [separator]
         + CellText(cells[|cells| - 1], separator, quote)
  }

  /** Escaping leaves a cell without the quote character as it is. */
  lemma {:induction false} EscapedWithoutQuote(cell: string, quote: char)
    requires quote !in cell
    ensures Escaped(cell, quote) == cell
  {
    if cell != [] {
      EscapedWithoutQuote(cell[..|cell| - 1], quote);
      assert cell[..|cell| - 1] + [cell[|cell| - 1]] == cell;
    }
  }

  /** Escaping adds exactly one character per quote in the cell. */
  lemma {:induction false} EscapedLength(cell: string, quote: char)
    ensures |Escaped(cell, quote)| == |cell| + multiset(cell)[quote]
  {
    if cell != [] {
      var init := cell[..|cell| - 1];
      EscapedLength(init, quote);
      assert cell == init + [cell[|cell| - 1]];
    }
  }

  /** Escaping adds no line feed. */
  lemma {:induction false} EscapedLineFeeds(cell: string, quote: char)
    requires '\n' !in cell
    ensures '\n' !in Escaped(cell, quote)
  {
    if cell != [] {
      EscapedLineFeeds(cell[..|cell| - 1], quote);
      assert cell[|cell| - 1] in cell;
    }
  }

  /** Every quote character in `e` comes right after a backslash. */
  predicate QuotesFollowBackslash(e: string, quote: char)
  {
    forall i :: 0 <= i < |e| && e[i] == quote ==> 0 < i && e[i - 1] == '\\'
  }

  /** In escaped text every quote character comes right after a backslash. */
  lemma {:induction false} EscapedQuotesFollowBackslash(cell: string, quote: char)
    requires quote != '\\'
    ensures QuotesFollowBackslash(Escaped(cell, quote), quote)
  {
    if cell != [] {
      var init := cell[..|cell| - 1];
      var c := cell[|cell| - 1];
      EscapedQuotesFollowBackslash(init, quote);
      var p := Escaped(init, quote);
      var tail := if c == quote then ['\\', c] else [c];
      var e := Escaped(cell, quote);
      assert e == p + tail;
      forall i | 0 <= i < |e| && e[i] == quote
        ensures 0 < i && e[i - 1] == '\\'
      {
        if i < |p| {
          assert p[i] == quote;
        } else {
          assert tail[i - |p|] == quote;
          assert c == quote && i - |p| == 1;
          assert e[i - 1] == tail[0];
        }
      }
    }
  }

  /** Writing and then splitting at the separator gives the cells back when no cell is quoted. */
  lemma {:induction false} RowTextSplits(cells: seq<string>, separator: char, quote: char)
    requires |cells| >= 1
    requires forall k :: 0 <= k < |cells| ==> !NeedsQuotes(cells[k], separator)
    ensures Text.Split(RowText(cells, separator, quote), separator) == cells
  {
    if |cells| == 1 {
      Text.SplitWithoutDelimiter(cells[0], separator);
    } else {
      var init := cells[..|cells| - 1];
      var last := cells[|cells| - 1];
      assert !NeedsQuotes(last, separator);
      var prefix := RowText(init, separator, quote);
      assert RowText(cells, separator, quote) == prefix + [separator] + last;
      RowTextSplits(init, separator, quote);
      Text.SplitAppend(prefix, last, separator);
      assert init + [last] == cells;
    }
  }

  /** A row whose cells hold no line feed is written without one (a quoted cell gains only quotes and backslashes). */
  lemma {:induction false} RowTextHasNoLineFeed(cells: seq<string>, separator: char, quote: char)
    requires separator != '\n' && quote != '\n'
    requires forall k :: 0 <= k < |cells| ==> '\n' !in cells[k]
    ensures '\n' !in RowText(cells, separator, quote)
  {
    if |cells| > 1 {
      RowTextHasNoLineFeed(cells[..|cells| - 1], separator, quote);
      var last := cells[|cells| - 1];
      if NeedsQuotes(last, separator) {
        EscapedLineFeeds(last, quote);
      }
    } else if |cells| == 1 && NeedsQuotes(cells[0], separator) {
      EscapedLineFeeds(cells[0], quote);
    }
  }

  // ---------------------------------------------------------------------------
  // The row object.
  // ---------------------------------------------------------------------------

  /** An append-only list of cells. */
  class CsvRow {
    var cells: seq<string>

    /** A row holding the given cells, in order. */
    constructor (initial: seq<string>)
      ensures cells == initial
    {
      cells := initial;
    }

    function GetCellCount(): (n: nat)
      reads this
      ensures n == |cells|
    {
      |cells|
    }

    /** The cell at `columnIndex`, or nothing past the end of the row. */
    function GetCell(columnIndex: int): (r: Option<string>)
      requires columnIndex >= 0
      reads this
      ensures r.Some? <==> columnIndex < |cells|
      ensures r.Some? ==> r.value == cells[columnIndex]
    {
      if columnIndex < GetCellCount() then Some(cells[columnIndex]) else None
    }

    /** Appends one cell at the end and returns the same row. */
    method AddCell(cell: string) returns (self: CsvRow)
      modifies this
      ensures self == this
      ensures cells == old(cells) + [cell]
    {
      cells := cells + [cell];
      self := this;
    }

    /** Appends every given cell, in order, and returns the same row. */
    method AddCells(more: seq<string>) returns (self: CsvRow)
      modifies this
      ensures self == this
      ensures cells == old(cells) + more
    {
      for k := 0 to |more|
        invariant cells == old(cells) + more[..k]
      {
        var _ := AddCell(more[k]);
        assert more[..k + 1] == more[..k] + [more[k]];
      }
      assert more[..|more|] == more;
      self := this;
    }

    /** Writes the row in the given format: returns the text written and the number of characters. */
    method ToString(format: CsvFormat) returns (text: string, count: int)
      ensures text == RowText(cells, format.cellSeparator, format.quote)
      ensures count == |text|
    {
      count := 0;
      text := "";
      var separator := format.GetCellSeparator();
      var quote := format.GetQuote();
      var isFirstCell := true;
      for k := 0 to |cells|
        invariant isFirstCell <==> k == 0
        invariant text == RowText(cells[..k], separator, quote)
        invariant count == |text|
      {
        if isFirstCell {
          isFirstCell := false;
        } else {
          text := text + [separator];
          count := count + 1;
        }
        var written := WriteCell(cells[k], separator, quote);
        text := text + written;
        count := count + |written|;
        assert cells[..k + 1][..k] == cells[..k];
      }
      assert cells[..|cells|] == cells;
    }

    /** Structural equality: the same cells in the same order. */
    function Equals(other: CsvRow): (r: bool)
      reads this, other
      ensures r <==> |cells| == |other.cells| && forall k :: 0 <= k < |cells| ==> cells[k] == other.cells[k]
    {
      cells == other.cells
    }
  }

  /** Writes one cell: decides whether it needs quotes, then writes it verbatim or escaped. */
  method WriteCell(cell: string, separator: char, quote: char) returns (text: string)
    ensures text == CellText(cell, separator, quote)
  {
    var needsQuotes := false;
    var containsQuote := false;
    var k := 0;
    while k < |cell|
      invariant 0 <= k <= |cell|
      invariant needsQuotes <==> separator in cell[..k] || '\n' in cell[..k]
      invariant containsQuote <==> quote in cell[..k]
    {
      var c := cell[k];
      if c == separator || c == '\n' {
        needsQuotes := true;
      }
      if c == quote {
        containsQuote := true;
      }
      assert cell[..k + 1] == cell[..k] + [c];
      k := k + 1;
      if needsQuotes && containsQuote {
        break;
      }
    }
    assert needsQuotes ==> NeedsQuotes(cell, separator) by {
      assert cell[..k] <= cell;
    }
    assert k == |cell| ==> cell[..k] == cell;
    if !needsQuotes {
      text := cell;
    } else {
      text := [quote];
      var escaped := "";
      for j := 0 to |cell|
        invariant escaped == Escaped(cell[..j], quote)
      {
        if cell[j] == quote {
          escaped := escaped + ['\\'];
        }
        escaped := escaped + [cell[j]];
        assert cell[..j + 1][..j] == cell[..j];
      }
      assert cell[..|cell|] == cell;
      text := text + escaped + [quote];
    }
  }
}
