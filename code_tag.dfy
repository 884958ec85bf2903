/** The backtick unit consumed by Md.cs (Markdown/CodeTag.cs): inline code,
  * opening pattern (?<![\\])`(?!\s) and closing pattern (?<![\s\\])`. */
module CodeTag {
  import opened FormattingRule

  const OpeningPattern := Lookaround(CharClass({'\\'}, false, false), CharClass({}, false, true))
  const ClosingPattern := Lookaround(CharClass({'\\'}, false, true), CharClass({}, false, false))

  function CodeTag(): (r: FormattingRule)
    ensures r.markdownTag == "`" && r.htmlTagName == "code"
    ensures r.htmlOpeningTag == "<code>" && r.htmlClosingTag == "</code>"
  {
    Create("code", OpeningPattern, ClosingPattern, "`")
  }

  /** An opening backtick is not preceded by a backslash and not followed by white space. */
  lemma OpensAtExactly(s: string, i: int)
    ensures OpensAt(CodeTag(), s, i) <==>
      && 0 <= i < |s| && s[i] == '`'
      && (i > 0 ==> s[i - 1] != '\\')
      && (i + 1 < |s| ==> !IsWhitespace(s[i + 1]))
  {
    if 0 <= i < |s| {
      assert s[i..i + 1] == [s[i]];
    }
  }

  /** A closing backtick is not preceded by white space or a backslash;
    * whatever follows it is allowed. */
  lemma ClosesAtExactly(s: string, i: int)
    ensures ClosesAt(CodeTag(), s, i) <==>
      && 0 <= i < |s| && s[i] == '`'
      && (i > 0 ==> s[i - 1] != '\\' && !IsWhitespace(s[i - 1]))
  {
    if 0 <= i < |s| {
      assert s[i..i + 1] == [s[i]];
    }
  }

  /** Unlike the underscore units, digits and neighbouring backticks do not
    * block a backtick from both opening and closing. */
  lemma DigitsAndBackticksDoNotBlock(s: string, i: int)
    requires 0 < i < |s| - 1 && s[i] == '`'
    requires IsDigit(s[i - 1]) || s[i - 1] == '`'
    requires IsDigit(s[i + 1]) || s[i + 1] == '`'
    ensures OpensAt(CodeTag(), s, i) && ClosesAt(CodeTag(), s, i)
  {
    OpensAtExactly(s, i);
    ClosesAtExactly(s, i);
  }

  lemma MatchesAreExact(s: string)
    ensures forall i :: i in Openings(CodeTag(), s) <==> OpensAt(CodeTag(), s, i)
    ensures forall i :: i in Closings(CodeTag(), s) <==> ClosesAt(CodeTag(), s, i)
  {
    OneCharacterDelimiterSelfDisjoint(s, "`", OpeningPattern);
    OneCharacterDelimiterSelfDisjoint(s, "`", ClosingPattern);
    MatchesAreAllMatchPositions(s, "`", OpeningPattern);
    MatchesAreAllMatchPositions(s, "`", ClosingPattern);
  }
}
