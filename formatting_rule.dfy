/** A formatting unit of Markdown/Md.cs's pipeline (the IFormattingUnit
  * interface of Markdown/IFormattingUnit.cs): a literal markdown delimiter,
  * its HTML tags, and one regular expression for openings and one for
  * closings. Every such expression has the shape (?<![X])delim(?![Y]): a
  * negative lookbehind, the delimiter, a negative lookahead. Here each
  * expression is a Lookaround record and matching is a predicate on the
  * neighbouring characters; a missing neighbour never blocks a match. */
module FormattingRule {
  import opened Wrappers
  import NameToTagConverter

  /** The regular-expression class \d, restricted to ASCII digits. */
  predicate IsDigit(c: char) {
    '0' <= c <= '9'
  }

  /** The regular-expression class \s, restricted to ASCII white space. */
  predicate IsWhitespace(c: char) {
    c == ' ' || c == '\t' || c == '\n' || c == '\r' || c == '\U{000B}' || c == '\U{000C}'
  }

  /** A character class such as [_\d\\]: some literal characters plus,
    * optionally, \d and \s. */
  datatype CharClass = CharClass(chars: set<char>, digits: bool, whitespace: bool) {
    predicate Contains(c: char) {
      c in chars || (digits && IsDigit(c)) || (whitespace && IsWhitespace(c))
    }
  }

  /** The pattern (?<![notPrecededBy])delim(?![notFollowedBy]). */
  datatype Lookaround = Lookaround(notPrecededBy: CharClass, notFollowedBy: CharClass)

  /** Every unit of the source has a non-empty markdown tag. */
  type Delimiter = s: string | |s| > 0 witness "_"

  datatype FormattingRule = FormattingRule(
    htmlTagName: string,
    markdownTag: Delimiter,
    htmlOpeningTag: string,
    htmlClosingTag: string,
    openingPattern: Lookaround,
    closingPattern: Lookaround)

  /** The private constructor shared by SingleUnderscore, DoubleUnderscore
    * and CodeTag: the HTML tags come from the element name. */
  function Create(htmlTag: string, openingPattern: Lookaround, closingPattern: Lookaround,
                  markdownTag: Delimiter): (r: FormattingRule)
    ensures r.htmlTagName == htmlTag && r.markdownTag == markdownTag
    ensures (r.htmlOpeningTag, r.htmlClosingTag) == NameToTagConverter.GetTagFromName(Some(htmlTag)).value
    ensures r.openingPattern == openingPattern && r.closingPattern == closingPattern
  {
    var tags := NameToTagConverter.GetTagFromName(Some(htmlTag)).value;
    FormattingRule(htmlTag, markdownTag, tags.0, tags.1, openingPattern, closingPattern)
  }

  /** The pattern matches `s` at index `i`. */
  predicate MatchesAt(s: string, i: int, delim: Delimiter, pattern: Lookaround) {
    && 0 <= i && i + |delim| <= |s| && s[i..i + |delim|] == delim
    && (i > 0 ==> !pattern.notPrecededBy.Contains(s[i - 1]))
    && (i + |delim| < |s| ==> !pattern.notFollowedBy.Contains(s[i + |delim|]))
  }

  predicate OpensAt(rule: FormattingRule, s: string, i: int) {
    MatchesAt(s, i, rule.markdownTag, rule.openingPattern)
  }

  predicate ClosesAt(rule: FormattingRule, s: string, i: int) {
    MatchesAt(s, i, rule.markdownTag, rule.closingPattern)
  }

  /** The start indices that Regex.Matches reports from index `from` on:
    * the scan records a match and resumes after it, or moves one
    * character on. The matches found never overlap. */
  function ScanFrom(s: string, delim: Delimiter, pattern: Lookaround, from: nat): (r: seq<int>)
    requires from <= |s|
    ensures forall k :: 0 <= k < |r| ==> from <= r[k] && MatchesAt(s, r[k], delim, pattern)
    ensures forall k, l :: 0 <= k < l < |r| ==> r[k] + |delim| <= r[l]
    decreases |s| - from
  {
    if from == |s| then []
    else if MatchesAt(s, from, delim, pattern) then [from] + ScanFrom(s, delim, pattern, from + |delim|)
    else ScanFrom(s, delim, pattern, from + 1)
  }

  /** The match indices of a pattern over the whole text, in ascending order. */
  function Matches(s: string, delim: Delimiter, pattern: Lookaround): seq<int> {
    ScanFrom(s, delim, pattern, 0)
  }

  function Openings(rule: FormattingRule, s: string): seq<int> {
    Matches(s, rule.markdownTag, rule.openingPattern)
  }

  function Closings(rule: FormattingRule, s: string): seq<int> {
    Matches(s, rule.markdownTag, rule.closingPattern)
  }

  /** No two matches of the pattern in `s` overlap. */
  ghost predicate SelfDisjoint(s: string, delim: Delimiter, pattern: Lookaround) {
    forall i, k :: MatchesAt(s, i, delim, pattern) && i < k < i + |delim| ==> !MatchesAt(s, k, delim, pattern)
  }

  /** When matches cannot overlap, the scan reports every index where the
    * pattern matches and nothing else. */
  lemma {:induction false} ScanFindsEveryMatch(s: string, delim: Delimiter, pattern: Lookaround, from: nat)
    requires from <= |s|
    requires SelfDisjoint(s, delim, pattern)
    ensures forall i :: from <= i ==> (i in ScanFrom(s, delim, pattern, from) <==> MatchesAt(s, i, delim, pattern))
    decreases |s| - from
  {
    if from < |s| {
      var next := if MatchesAt(s, from, delim, pattern) then from + |delim| else from + 1;
      ScanFindsEveryMatch(s, delim, pattern, next);
    }
  }

  lemma MatchesAreAllMatchPositions(s: string, delim: Delimiter, pattern: Lookaround)
    requires SelfDisjoint(s, delim, pattern)
    ensures forall i :: i in Matches(s, delim, pattern) <==> MatchesAt(s, i, delim, pattern)
  {
    ScanFindsEveryMatch(s, delim, pattern, 0);
  }

  /** A one-character delimiter can never overlap itself. */
  lemma OneCharacterDelimiterSelfDisjoint(s: string, delim: Delimiter, pattern: Lookaround)
    requires |delim| == 1
    ensures SelfDisjoint(s, delim, pattern)
  {
  }
}
