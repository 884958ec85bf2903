/** The `_` unit consumed by Md.cs (Markdown/SingleUnderscore.cs): emphasis,
  * opening pattern (?<![_\d\\])_(?![_\s\d]) and closing pattern
  * (?<![_\s\d\\])_(?![_\d]). */
module SingleUnderscore {
  import opened FormattingRule

  const OpeningPattern := Lookaround(CharClass({'_', '\\'}, true, false), CharClass({'_'}, true, true))
  const ClosingPattern := Lookaround(CharClass({'_', '\\'}, true, true), CharClass({'_'}, true, false))

  function SingleUnderscore(): (r: FormattingRule)
    ensures r.markdownTag == "_" && r.htmlTagName == "em"
    ensures r.htmlOpeningTag == "<em>" && r.htmlClosingTag == "</em>"
  {
    Create("em", OpeningPattern, ClosingPattern, "_")
  }

  /** An opening `_`: the previous character, if any, is not `_`, a digit or
    * a backslash; the next one, if any, is not `_`, white space or a digit. */
  lemma OpensAtExactly(s: string, i: int)
    ensures OpensAt(SingleUnderscore(), s, i) <==>
      && 0 <= i < |s| && s[i] == '_'
      && (i > 0 ==> s[i - 1] != '_' && s[i - 1] != '\\' && !IsDigit(s[i - 1]))
      && (i + 1 < |s| ==> s[i + 1] != '_' && !IsWhitespace(s[i + 1]) && !IsDigit(s[i + 1]))
  {
    if 0 <= i < |s| {
      assert s[i..i + 1] == [s[i]];
    }
  }

  /** A closing `_`: the previous character, if any, is not `_`, white
    * space, a digit or a backslash; the next one, if any, is not `_` or a digit. */
  lemma ClosesAtExactly(s: string, i: int)
    ensures ClosesAt(SingleUnderscore(), s, i) <==>
      && 0 <= i < |s| && s[i] == '_'
      && (i > 0 ==> s[i - 1] != '_' && s[i - 1] != '\\' && !IsWhitespace(s[i - 1]) && !IsDigit(s[i - 1]))
      && (i + 1 < |s| ==> s[i + 1] != '_' && !IsDigit(s[i + 1]))
  {
    if 0 <= i < |s| {
      assert s[i..i + 1] == [s[i]];
    }
  }

  /** A missing next character never blocks: a `_` ending the text opens
    * exactly when the character before it, if any, is not `_`, a backslash
    * or a digit. */
  lemma TrailingUnderscoreOpens(s: string)
    requires |s| >= 1 && s[|s| - 1] == '_'
    ensures OpensAt(SingleUnderscore(), s, |s| - 1) <==>
      (|s| >= 2 ==> s[|s| - 2] != '_' && s[|s| - 2] != '\\' && !IsDigit(s[|s| - 2]))
  {
    OpensAtExactly(s, |s| - 1);
  }

  /** A missing previous character never blocks: a `_` starting the text
    * closes exactly when the character after it, if any, is not `_` or a digit. */
  lemma LeadingUnderscoreCloses(s: string)
    requires |s| >= 1 && s[0] == '_'
    ensures ClosesAt(SingleUnderscore(), s, 0) <==> (|s| >= 2 ==> s[1] != '_' && !IsDigit(s[1]))
  {
    ClosesAtExactly(s, 0);
  }

  /** Two adjacent underscores are never an emphasis delimiter. */
  lemma AdjacentUnderscoresNeverMatch(s: string, i: int)
    requires 0 <= i < |s| - 1 && s[i] == '_' && s[i + 1] == '_'
    ensures !OpensAt(SingleUnderscore(), s, i) && !ClosesAt(SingleUnderscore(), s, i)
    ensures !OpensAt(SingleUnderscore(), s, i + 1) && !ClosesAt(SingleUnderscore(), s, i + 1)
  {
    OpensAtExactly(s, i);
    ClosesAtExactly(s, i);
    OpensAtExactly(s, i + 1);
    ClosesAtExactly(s, i + 1);
  }

  /** The scan finds exactly the positions where the patterns match. */
  lemma MatchesAreExact(s: string)
    ensures forall i :: i in Openings(SingleUnderscore(), s) <==> OpensAt(SingleUnderscore(), s, i)
    ensures forall i :: i in Closings(SingleUnderscore(), s) <==> ClosesAt(SingleUnderscore(), s, i)
  {
    OneCharacterDelimiterSelfDisjoint(s, "_", OpeningPattern);
    OneCharacterDelimiterSelfDisjoint(s, "_", ClosingPattern);
    MatchesAreAllMatchPositions(s, "_", OpeningPattern);
    MatchesAreAllMatchPositions(s, "_", ClosingPattern);
  }
}
