/** The renderer as Md_Should (in Markdown/Md.cs) sets it up: the units
  * SingleUnderscore, DoubleUnderscore and CodeTag in that priority order,
  * and the paragraph element "p". Their candidates never overlap, so for
  * every text the rewrite is the copy-and-interleave of MdSpec. */
module MdDefaults {
  import opened Wrappers
  import opened FormattingRule
  import opened MdSpec
  import opened MdWellFormed
  import opened MdSpans
  import SingleUnderscore
  import DoubleUnderscore
  import CodeTag
  import Markdown
  import NameToTagConverter

  const DefaultFormatters: seq<FormattingRule> := [SingleUnderscore.SingleUnderscore(), DoubleUnderscore.DoubleUnderscore(), CodeTag.CodeTag()]

  /** Nothing matches right after the first character of a `__`: that
    * character is an underscore, which neither underscore unit accepts
    * before its delimiter and which is not a backtick. */
  lemma NothingInsideDoubleUnderscore(s: string, i: int, l: nat)
    requires Candidate(DoubleUnderscore.DoubleUnderscore(), s, i) && l < 3
    ensures !Candidate(DefaultFormatters[l], s, i + 1)
  {
    assert s[i..i + 2] == "__";
    assert s[i + 1] == s[i..i + 2][1];
    var rule := DefaultFormatters[l];
    if i + 1 + |rule.markdownTag| <= |s| {
      assert s[i + 1] == s[i + 1..i + 1 + |rule.markdownTag|][0];
    }
  }

  /** The candidates of the default units never overlap. */
  lemma DefaultCandidatesDoNotOverlap(s: string)
    ensures CandidatesDoNotOverlap(DefaultFormatters, s)
  {
    var rules := DefaultFormatters;
    forall k, l, i, j | 0 <= k < |rules| && 0 <= l < |rules| && i < j &&
                        Candidate(rules[k], s, i) && Candidate(rules[l], s, j)
      ensures i + |rules[k].markdownTag| <= j
    {
      if k == 1 {
        NothingInsideDoubleUnderscore(s, i, l);
      }
    }
  }

  /** For every text the default renderer's events are ascending, well
    * spaced, and stand on their delimiters. */
  lemma DefaultEventsWellSpaced(s: string)
    ensures var events := Events(Levels(DefaultFormatters, s));
      && Ascending(events)
      && WellSpaced(s, events, DefaultFormatters)
      && DelimitersPresent(s, events, DefaultFormatters)
  {
    DefaultCandidatesDoNotOverlap(s);
    EventsWellSpaced(DefaultFormatters, s);
  }

  /** What the default renderer returns for a text: the rewritten text in
    * a paragraph. */
  function Render(s: string): string {
    DefaultEventsWellSpaced(s);
    NameToTagConverter.OpeningTag("p")
      + Interleave(s, Events(Levels(DefaultFormatters, s)), DefaultFormatters)
      + NameToTagConverter.ClosingTag("p")
  }

  lemma ParagraphTags()
    ensures NameToTagConverter.OpeningTag("p") == "<p>" && NameToTagConverter.ClosingTag("p") == "</p>"
  {
  }

  lemma InParagraph(body: string)
    ensures var r := "<p>" + body + "</p>";
      |r| == |body| + 7 && r[..3] == "<p>" && r[|r| - 4..] == "</p>" && r[3..|r| - 4] == body
  {
  }

  /** The output is the paragraph tags around a text as long as the
    * source plus the growth of the replaced tags. */
  lemma RenderShape(s: string)
    ensures var r, events := Render(s), Events(Levels(DefaultFormatters, s));
      && WellSpaced(s, events, DefaultFormatters)
      && |r| == |s| + 7 + Growth(events, DefaultFormatters)
      && r[..3] == "<p>" && r[|r| - 4..] == "</p>"
  {
    DefaultEventsWellSpaced(s);
    var events := Events(Levels(DefaultFormatters, s));
    InterleaveLength(s, events, DefaultFormatters);
    ParagraphTags();
    InParagraph(Interleave(s, events, DefaultFormatters));
  }

  /** Md_Should's set-up followed by one call of RenderToHtml. */
  method RenderWithDefaults(source: Option<string>) returns (r: Result<string, MdError>)
    ensures source.None? ==> r == Failure(ArgumentNull)
    ensures source.Some? ==> r == Success(Render(source.value))
  {
    var md := new Markdown.Md(DefaultFormatters, "p");
    if source.Some? {
      DefaultEventsWellSpaced(source.value);
    }
    r := md.RenderToHtml(source);
  }

  /** Every default unit's delimiter starts with an underscore or a backtick. */
  lemma DefaultDelimiterStarts(k: nat)
    requires k < |DefaultFormatters|
    ensures DefaultFormatters[k].markdownTag[0] in {'_', '`'}
  {
  }

  lemma NoDelimiterNoCandidate(s: string)
    requires forall i :: 0 <= i < |s| ==> s[i] != '_' && s[i] != '`'
    ensures forall k, i :: 0 <= k < |DefaultFormatters| ==> !Candidate(DefaultFormatters[k], s, i)
  {
    forall k, i | 0 <= k < |DefaultFormatters| ensures !Candidate(DefaultFormatters[k], s, i) {
      DefaultDelimiterStarts(k);
      var rule := DefaultFormatters[k];
      if Candidate(rule, s, i) {
        CandidateStartsWithDelimiter(rule, s, i);
      }
    }
  }

  /** Text with no underscore and no backtick comes back unchanged inside
    * the paragraph tags. */
  lemma PlainTextUnchanged(s: string)
    requires forall i :: 0 <= i < |s| ==> s[i] != '_' && s[i] != '`'
    ensures Render(s) == "<p>" + s + "</p>"
  {
    NoDelimiterNoCandidate(s);
    NoCandidatesNoEvents(DefaultFormatters, s);
    ParagraphTags();
  }

  /** A word none of the default units can split or end: no underscore,
    * backtick or backslash, and neither white space nor a digit at either
    * end. */
  predicate PlainWord(w: string) {
    && |w| > 0
    && (forall i :: 0 <= i < |w| ==> w[i] != '_' && w[i] != '`' && w[i] != '\\')
    && !IsWhitespace(w[0]) && !IsDigit(w[0])
    && !IsWhitespace(w[|w| - 1]) && !IsDigit(w[|w| - 1])
  }

  /** Without an underscore in the text neither underscore unit matches. */
  lemma NoUnderscoreNoMatches(s: string)
    requires forall i :: 0 <= i < |s| ==> s[i] != '_'
    ensures Openings(DefaultFormatters[0], s) == [] && Closings(DefaultFormatters[0], s) == []
    ensures Openings(DefaultFormatters[1], s) == [] && Closings(DefaultFormatters[1], s) == []
  {
    forall i ensures !OpensAt(DefaultFormatters[0], s, i) && !ClosesAt(DefaultFormatters[0], s, i) {
      SingleUnderscore.OpensAtExactly(s, i);
      SingleUnderscore.ClosesAtExactly(s, i);
    }
    forall i ensures !OpensAt(DefaultFormatters[1], s, i) && !ClosesAt(DefaultFormatters[1], s, i) {
      DoubleUnderscore.OpensAtExactly(s, i);
      DoubleUnderscore.ClosesAtExactly(s, i);
    }
    NoMatches(DefaultFormatters[0], s);
    NoMatches(DefaultFormatters[1], s);
  }

  /** Without a backtick in the text the code unit does not match. */
  lemma NoBacktickNoMatches(s: string)
    requires forall i :: 0 <= i < |s| ==> s[i] != '`'
    ensures Openings(DefaultFormatters[2], s) == [] && Closings(DefaultFormatters[2], s) == []
  {
    forall i ensures !OpensAt(DefaultFormatters[2], s, i) && !ClosesAt(DefaultFormatters[2], s, i) {
      CodeTag.OpensAtExactly(s, i);
      CodeTag.ClosesAtExactly(s, i);
    }
    NoMatches(DefaultFormatters[2], s);
  }

  /** The default renderer on a text where unit `j` alone matches, at
    * both ends: the unit's tags around the inside, in a paragraph. */
  lemma RenderOneSpan(s: string, j: nat, m: int)
    requires j < 3 && 0 < m
    requires |DefaultFormatters[j].markdownTag| <= m && m + |DefaultFormatters[j].markdownTag| == |s|
    requires Openings(DefaultFormatters[j], s) == [0, m] && Closings(DefaultFormatters[j], s) == [0, m]
    requires forall k :: 0 <= k < 3 && k != j ==>
      Openings(DefaultFormatters[k], s) == [] && Closings(DefaultFormatters[k], s) == []
    ensures Render(s) == "<p>" + (DefaultFormatters[j].htmlOpeningTag
      + s[|DefaultFormatters[j].markdownTag|..m] + DefaultFormatters[j].htmlClosingTag) + "</p>"
  {
    var rules := DefaultFormatters;
    assert |rules| == 3;
    OneSpan(rules, s, j, m);
    ParagraphTags();
  }

  lemma Regroup(p: string, o: string, w: string, c: string, q: string)
    ensures p + (o + w + c) + q == (p + o) + w + (c + q)
  {
  }

  /** The paragraph tags around the tags of each default unit. */
  lemma TagsInParagraph(w: string)
    ensures "<p>" + ("<em>" + w + "</em>") + "</p>" == "<p><em>" + w + "</em></p>"
    ensures "<p>" + ("<strong>" + w + "</strong>") + "</p>" == "<p><strong>" + w + "</strong></p>"
    ensures "<p>" + ("<code>" + w + "</code>") + "</p>" == "<p><code>" + w + "</code></p>"
  {
    Regroup("<p>", "<em>", w, "</em>", "</p>");
    Regroup("<p>", "<strong>", w, "</strong>", "</p>");
    Regroup("<p>", "<code>", w, "</code>", "</p>");
  }

  /** In `_w_` the `_` unit opens and closes at both ends and nowhere else. */
  lemma SingleUnderscoreAtEnds(w: string)
    requires PlainWord(w)
    ensures var s, rule := "_" + w + "_", SingleUnderscore.SingleUnderscore();
      Openings(rule, s) == [0, |w| + 1] && Closings(rule, s) == [0, |w| + 1]
  {
    var s, m := "_" + w + "_", |w| + 1;
    var rule := SingleUnderscore.SingleUnderscore();
    forall i | 0 <= i <= m
      ensures MatchesAt(s, i, rule.markdownTag, rule.openingPattern) == (i == 0 || i == m)
      ensures MatchesAt(s, i, rule.markdownTag, rule.closingPattern) == (i == 0 || i == m)
    {
      assert 0 < i < m ==> s[i] == w[i - 1];
      SingleUnderscore.OpensAtExactly(s, i);
      SingleUnderscore.ClosesAtExactly(s, i);
    }
    MatchesAtBothEnds(s, rule.markdownTag, rule.openingPattern, m);
    MatchesAtBothEnds(s, rule.markdownTag, rule.closingPattern, m);
  }

  /** A plain word between single underscores becomes emphasis. */
  lemma SingleEmphasis(w: string)
    requires PlainWord(w)
    ensures Render("_" + w + "_") == "<p><em>" + w + "</em></p>"
  {
    var s, m := "_" + w + "_", |w| + 1;
    SingleUnderscoreAtEnds(w);
    forall i | 0 <= i < |s| ensures s[i] != '`' && (s[i] == '_' ==> i == 0 || i == m) {
      assert 0 < i < m ==> s[i] == w[i - 1];
    }
    forall i ensures !OpensAt(DefaultFormatters[1], s, i) && !ClosesAt(DefaultFormatters[1], s, i) {
      DoubleUnderscore.OpensAtExactly(s, i);
      DoubleUnderscore.ClosesAtExactly(s, i);
    }
    NoMatches(DefaultFormatters[1], s);
    NoBacktickNoMatches(s);
    RenderOneSpan(s, 0, m);
    assert s[1..m] == w;
    assert DefaultFormatters[0].htmlOpeningTag == "<em>" && DefaultFormatters[0].htmlClosingTag == "</em>";
    TagsInParagraph(w);
  }

  /** In `__w__` the `__` unit opens and closes at both ends and nowhere else. */
  lemma DoubleUnderscoreAtEnds(w: string)
    requires PlainWord(w)
    ensures var s, rule := "__" + w + "__", DoubleUnderscore.DoubleUnderscore();
      Openings(rule, s) == [0, |w| + 2] && Closings(rule, s) == [0, |w| + 2]
  {
    var s, m := "__" + w + "__", |w| + 2;
    var rule := DoubleUnderscore.DoubleUnderscore();
    forall i | 0 <= i <= m
      ensures MatchesAt(s, i, rule.markdownTag, rule.openingPattern) == (i == 0 || i == m)
      ensures MatchesAt(s, i, rule.markdownTag, rule.closingPattern) == (i == 0 || i == m)
    {
      assert 2 <= i < m ==> s[i] == w[i - 2];
      DoubleUnderscore.OpensAtExactly(s, i);
      DoubleUnderscore.ClosesAtExactly(s, i);
    }
    MatchesAtBothEnds(s, rule.markdownTag, rule.openingPattern, m);
    MatchesAtBothEnds(s, rule.markdownTag, rule.closingPattern, m);
  }

  /** A plain word between double underscores becomes strong emphasis;
    * the single-underscore unit finds nothing, since every underscore
    * stands next to another. */
  lemma StrongEmphasis(w: string)
    requires PlainWord(w)
    ensures Render("__" + w + "__") == "<p><strong>" + w + "</strong></p>"
  {
    var s, m := "__" + w + "__", |w| + 2;
    DoubleUnderscoreAtEnds(w);
    forall i | 0 <= i < |s| ensures s[i] != '`' && (s[i] == '_' ==> i < 2 || m <= i) {
      assert 2 <= i < m ==> s[i] == w[i - 2];
    }
    forall i ensures !OpensAt(DefaultFormatters[0], s, i) && !ClosesAt(DefaultFormatters[0], s, i) {
      SingleUnderscore.OpensAtExactly(s, i);
      SingleUnderscore.ClosesAtExactly(s, i);
    }
    NoMatches(DefaultFormatters[0], s);
    NoBacktickNoMatches(s);
    RenderOneSpan(s, 1, m);
    assert s[2..m] == w;
    assert DefaultFormatters[1].htmlOpeningTag == "<strong>" && DefaultFormatters[1].htmlClosingTag == "</strong>";
    TagsInParagraph(w);
  }

  /** In `` `w` `` the code unit opens and closes at both ends and nowhere else. */
  lemma BacktickAtEnds(w: string)
    requires PlainWord(w)
    ensures var s, rule := "`" + w + "`", CodeTag.CodeTag();
      Openings(rule, s) == [0, |w| + 1] && Closings(rule, s) == [0, |w| + 1]
  {
    var s, m := "`" + w + "`", |w| + 1;
    var rule := CodeTag.CodeTag();
    forall i | 0 <= i <= m
      ensures MatchesAt(s, i, rule.markdownTag, rule.openingPattern) == (i == 0 || i == m)
      ensures MatchesAt(s, i, rule.markdownTag, rule.closingPattern) == (i == 0 || i == m)
    {
      assert 0 < i < m ==> s[i] == w[i - 1];
      CodeTag.OpensAtExactly(s, i);
      CodeTag.ClosesAtExactly(s, i);
    }
    MatchesAtBothEnds(s, rule.markdownTag, rule.openingPattern, m);
    MatchesAtBothEnds(s, rule.markdownTag, rule.closingPattern, m);
  }

  /** A plain word between backticks becomes code. */
  lemma CodeSpan(w: string)
    requires PlainWord(w)
    ensures Render("`" + w + "`") == "<p><code>" + w + "</code></p>"
  {
    var s, m := "`" + w + "`", |w| + 1;
    BacktickAtEnds(w);
    forall i | 0 <= i < |s| ensures s[i] != '_' {
      assert 0 < i < m ==> s[i] == w[i - 1];
    }
    NoUnderscoreNoMatches(s);
    RenderOneSpan(s, 2, m);
    assert s[1..m] == w;
    assert DefaultFormatters[2].htmlOpeningTag == "<code>" && DefaultFormatters[2].htmlClosingTag == "</code>";
    TagsInParagraph(w);
  }

  /** The plain, emphasis, strong and code examples of Md_Should, each
    * stated for a text equal to the test's string. */
  lemma PlainExample(s: string)
    requires s == "abcd"
    ensures Render(s) == "<p>" + s + "</p>"
  {
    PlainTextUnchanged(s);
  }

  lemma EmphasisExample(s: string, w: string)
    requires s == "_abcd_" && w == "abcd"
    ensures Render(s) == "<p><em>" + w + "</em></p>"
  {
    assert s == "_" + w + "_";
    SingleEmphasis(w);
  }

  lemma StrongExample(s: string, w: string)
    requires s == "__ad__" && w == "ad"
    ensures Render(s) == "<p><strong>" + w + "</strong></p>"
  {
    assert s == "__" + w + "__";
    StrongEmphasis(w);
  }

  lemma CodeExample(s: string, w: string)
    requires s == "`ab`" && w == "ab"
    ensures Render(s) == "<p><code>" + w + "</code></p>"
  {
    assert s == "`" + w + "`";
    CodeSpan(w);
  }
}
