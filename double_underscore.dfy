/** The `__` unit consumed by Md.cs (Markdown/DoubleUnderscore.cs): strong
  * emphasis, opening pattern (?<![_\d\\])__(?![_\s\d]) and closing pattern
  * (?<![_\s\d\\])__(?![_\d]). */
module DoubleUnderscore {
  import opened FormattingRule

  const OpeningPattern := Lookaround(CharClass({'_', '\\'}, true, false), CharClass({'_'}, true, true))
  const ClosingPattern := Lookaround(CharClass({'_', '\\'}, true, true), CharClass({'_'}, true, false))

  function DoubleUnderscore(): (r: FormattingRule)
    ensures r.markdownTag == "__" && r.htmlTagName == "strong"
    ensures r.htmlOpeningTag == "<strong>" && r.htmlClosingTag == "</strong>"
  {
    Create("strong", OpeningPattern, ClosingPattern, "__")
  }

  /** An opening `__` at i: the character before, if any, is not `_`, a
    * digit or a backslash; the character at i + 2, if any, is not `_`,
    * white space or a digit. */
  lemma OpensAtExactly(s: string, i: int)
    ensures OpensAt(DoubleUnderscore(), s, i) <==>
      && 0 <= i && i + 1 < |s| && s[i] == '_' && s[i + 1] == '_'
      && (i > 0 ==> s[i - 1] != '_' && s[i - 1] != '\\' && !IsDigit(s[i - 1]))
      && (i + 2 < |s| ==> s[i + 2] != '_' && !IsWhitespace(s[i + 2]) && !IsDigit(s[i + 2]))
  {
    if 0 <= i && i + 1 < |s| {
      assert s[i..i + 2] == [s[i], s[i + 1]];
    }
  }

  /** A closing `__` at i: the character before, if any, is not `_`, white
    * space, a digit or a backslash; the character at i + 2, if any, is not
    * `_` or a digit. */
  lemma ClosesAtExactly(s: string, i: int)
    ensures ClosesAt(DoubleUnderscore(), s, i) <==>
      && 0 <= i && i + 1 < |s| && s[i] == '_' && s[i + 1] == '_'
      && (i > 0 ==> s[i - 1] != '_' && s[i - 1] != '\\' && !IsWhitespace(s[i - 1]) && !IsDigit(s[i - 1]))
      && (i + 2 < |s| ==> s[i + 2] != '_' && !IsDigit(s[i + 2]))
  {
    if 0 <= i && i + 1 < |s| {
      assert s[i..i + 2] == [s[i], s[i + 1]];
    }
  }

  /** No match starts inside a run of three or more underscores. */
  lemma NoMatchInLongRun(s: string, i: int)
    requires 0 <= i && i + 1 < |s| && s[i] == '_' && s[i + 1] == '_'
    requires (i > 0 && s[i - 1] == '_') || (i + 2 < |s| && s[i + 2] == '_')
    ensures !OpensAt(DoubleUnderscore(), s, i) && !ClosesAt(DoubleUnderscore(), s, i)
  {
    OpensAtExactly(s, i);
    ClosesAtExactly(s, i);
  }

  /** Two matches, opening or closing, never overlap. */
  lemma MatchesNeverOverlap(s: string, i: int, k: int)
    requires OpensAt(DoubleUnderscore(), s, i) || ClosesAt(DoubleUnderscore(), s, i)
    requires k == i + 1
    ensures !OpensAt(DoubleUnderscore(), s, k) && !ClosesAt(DoubleUnderscore(), s, k)
  {
    OpensAtExactly(s, i);
    ClosesAtExactly(s, i);
    OpensAtExactly(s, k);
    ClosesAtExactly(s, k);
  }

  /** The scan finds exactly the positions where the patterns match,
    * because matches of `__` cannot overlap. */
  lemma MatchesAreExact(s: string)
    ensures forall i :: i in Openings(DoubleUnderscore(), s) <==> OpensAt(DoubleUnderscore(), s, i)
    ensures forall i :: i in Closings(DoubleUnderscore(), s) <==> ClosesAt(DoubleUnderscore(), s, i)
  {
    forall i, k | i < k < i + 2 && (OpensAt(DoubleUnderscore(), s, i) || ClosesAt(DoubleUnderscore(), s, i))
      ensures !OpensAt(DoubleUnderscore(), s, k) && !ClosesAt(DoubleUnderscore(), s, k)
    {
      MatchesNeverOverlap(s, i, k);
    }
    MatchesAreAllMatchPositions(s, "__", OpeningPattern);
    MatchesAreAllMatchPositions(s, "__", ClosingPattern);
  }
}
