/** The format descriptor shared by the serializer: a cell separator and a quote character. */
module Format {

  const CommaSeparator: char := ','
  const TabSeparator: char := '\t'
  const DoubleQuote: char := '"'

  /** A mutable (separator, quote) pair with fluent setters. */
  class CsvFormat {
    var cellSeparator: char
    var quote: char

    /** A new format holds the comma-separated defaults. */
    constructor ()
      ensures cellSeparator == CommaSeparator && quote == DoubleQuote
    {
      cellSeparator := CommaSeparator;
      quote := DoubleQuote;
    }

    function GetCellSeparator(): (c: char)
      reads this
      ensures c == cellSeparator
    {
      cellSeparator
    }

    /** Replaces the separator only, and returns the same object. */
    method SetCellSeparator(c: char) returns (self: CsvFormat)
      modifies this
      ensures self == this
      ensures cellSeparator == c && quote == old(quote)
      ensures GetCellSeparator() == c
    {
      cellSeparator := c;
      self := this;
    }

    function GetQuote(): (q: char)
      reads this
      ensures q == quote
    {
      quote
    }

    /** Replaces the quote only, and returns the same object. */
    method SetQuote(q: char) returns (self: CsvFormat)
      modifies this
      ensures self == this
      ensures quote == q && cellSeparator == old(cellSeparator)
      ensures GetQuote() == q
    {
      quote := q;
      self := this;
    }

    /** Field-wise equality: an equivalence on formats. */
    function Equals(other: CsvFormat): (r: bool)
      reads this, other
      ensures r <==> cellSeparator == other.cellSeparator && quote == other.quote
    {
      cellSeparator == other.cellSeparator && quote == other.quote
    }
  }

  /** Equality of formats does not depend on which side it is asked from. */
  lemma EqualsSymmetric(a: CsvFormat, b: CsvFormat)
    ensures a.Equals(b) == b.Equals(a)
  {
  }

  /** The comma-separated preset, equal to a default format. */
  method CommaSeparated() returns (f: CsvFormat)
    ensures fresh(f)
    ensures f.cellSeparator == CommaSeparator && f.quote == DoubleQuote
  {
    f := new CsvFormat();
  }

  /** The tab-separated preset: a default format whose separator is set to a tab. */
  method TabSeparated() returns (f: CsvFormat)
    ensures fresh(f)
    ensures f.cellSeparator == TabSeparator && f.quote == DoubleQuote
  {
    var d := new CsvFormat();
    f := d.SetCellSeparator(TabSeparator);
  }
}
