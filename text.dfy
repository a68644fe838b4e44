/** Splitting text at a delimiter: the reference definition that the parser's behaviour on
    plain (quote-free, carriage-return-free) text is compared against. */
module Text {

  /** The pieces of `s` between occurrences of `d`; there is always at least one piece. */
  function Split(s: string, d: char): (parts: seq<string>)
    ensures |parts| >= 1
    ensures forall k :: 0 <= k < |parts| ==> d !in parts[k]
  {
    if s == [] then [""]
    else
      var p := Split(s[..|s| - 1], d);
      var c := s[|s| - 1];
      if c == d then p + [""] else p[..|p| - 1] + [p[|p| - 1] + [c]]
  }

  /** Puts the delimiter back between the pieces. */
  function Join(parts: seq<string>, d: char): string
  {
    if |parts| <= 1 then (if parts == [] then "" else parts[0])
    else Join(parts[..|parts| - 1], d) + [d] + parts[|parts| - 1]
  }

  /** Splitting loses nothing: joining the pieces again gives back the text. */
  lemma {:induction false} JoinSplit(s: string, d: char)
    ensures Join(Split(s, d), d) == s
  {
    if s != [] {
      var init := s[..|s| - 1];
      var p := Split(init, d);
      JoinSplit(init, d);
      if s[|s| - 1] != d {
        var q := Split(s, d);
        assert q[..|q| - 1] == p[..|p| - 1];
        if |p| > 1 {
          assert Join(p, d) == Join(p[..|p| - 1], d) + [d] + p[|p| - 1];
        }
      }
    }
  }

  /** A text splits into the single empty piece exactly when it is empty. */
  lemma SplitIsEmptyPiece(s: string, d: char)
    ensures Split(s, d) == [""] <==> s == []
  {
    if s != [] {
      var p := Split(s[..|s| - 1], d);
      var q := Split(s, d);
      if s[|s| - 1] == d {
        assert |q| == |p| + 1 >= 2;
      } else {
        assert q[|q| - 1] == p[|p| - 1] + [s[|s| - 1]] != [];
      }
    }
  }

  /** Appending the delimiter and then delimiter-free text adds exactly that text as one piece. */
  lemma {:induction false} SplitAppend(x: string, y: string, d: char)
    requires d !in y
    ensures Split(x + [d] + y, d) == Split(x, d) + [y]
  {
    if y == [] {
      assert x + [d] + y == x + [d];
      assert (x + [d])[..|x|] == x;
    } else {
      var y' := y[..|y| - 1];
      SplitAppend(x, y', d);
      assert (x + [d] + y)[..|x + [d] + y| - 1] == x + [d] + y';
      assert y' + [y[|y| - 1]] == y;
    }
  }

  /** Text without the delimiter is a single piece. */
  lemma {:induction false} SplitWithoutDelimiter(s: string, d: char)
    requires d !in s
    ensures Split(s, d) == [s]
  {
    if s != [] {
      SplitWithoutDelimiter(s[..|s| - 1], d);
      assert s[..|s| - 1] + [s[|s| - 1]] == s;
    }
  }
}
