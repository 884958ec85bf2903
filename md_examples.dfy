/** The remaining Md_Should cases of Markdown/Md.cs, rendered with the
  * default units: texts whose delimiters find no partner, two spans side
  * by side, a span that masks another unit, and spans of two units nested. */
module MdExamples {
  import opened FormattingRule
  import opened PairFinder
  import opened MdSpec
  import opened MdSpans
  import opened MdDefaults
  import SingleUnderscore
  import DoubleUnderscore
  import CodeTag

  /** A non-empty list holds its first element. */
  lemma FirstIsMember(a: seq<int>)
    ensures |a| > 0 ==> a[0] in a
  {
  }

  /** A strictly increasing list is determined by its elements. */
  lemma {:induction false} IncreasingDetermined(a: seq<int>, b: seq<int>)
    requires StrictlyIncreasing(a) && StrictlyIncreasing(b)
    requires forall x :: x in a <==> x in b
    ensures a == b
    decreases |a|
  {
    FirstIsMember(a);
    FirstIsMember(b);
    if a != [] && b != [] {
      assert a[0] == b[0];
      forall x ensures x in a[1..] <==> x in b[1..] {
        assert x in a[1..] <==> x in a && x != a[0];
        assert x in b[1..] <==> x in b && x != b[0];
      }
      IncreasingDetermined(a[1..], b[1..]);
      assert a == [a[0]] + a[1..] && b == [b[0]] + b[1..];
    }
  }

  /** The scan of a default unit reports the listed positions when they
    * are exactly where the unit opens or closes. */
  lemma DefaultMatches(k: nat, s: string, o: seq<int>, c: seq<int>)
    requires k < 3 && StrictlyIncreasing(o) && StrictlyIncreasing(c)
    requires forall i :: OpensAt(DefaultFormatters[k], s, i) <==> i in o
    requires forall i :: ClosesAt(DefaultFormatters[k], s, i) <==> i in c
    ensures Openings(DefaultFormatters[k], s) == o && Closings(DefaultFormatters[k], s) == c
  {
    var rule := DefaultFormatters[k];
    if k == 0 {
      SingleUnderscore.MatchesAreExact(s);
    } else if k == 1 {
      DoubleUnderscore.MatchesAreExact(s);
    } else {
      CodeTag.MatchesAreExact(s);
    }
    MdWellFormed.MatchesIncreasing(s, rule.markdownTag, rule.openingPattern);
    MdWellFormed.MatchesIncreasing(s, rule.markdownTag, rule.closingPattern);
    IncreasingDetermined(Openings(rule, s), o);
    IncreasingDetermined(Closings(rule, s), c);
  }

  /** Masking keeps every candidate that lies outside all segments. */
  lemma UnscopedAllOutside(candidates: seq<int>, scopes: seq<seq<Pair>>)
    requires StrictlyIncreasing(candidates)
    requires forall x :: x in candidates ==> !InAnyScope(scopes, x)
    ensures Unscoped(candidates, scopes) == candidates
  {
    UnscopedIncreasing(candidates, scopes);
    IncreasingDetermined(Unscoped(candidates, scopes), candidates);
  }

  /** Masking drops every candidate that lies inside a segment. */
  lemma UnscopedAllInside(candidates: seq<int>, scopes: seq<seq<Pair>>)
    requires forall x :: x in candidates ==> InAnyScope(scopes, x)
    ensures Unscoped(candidates, scopes) == []
  {
    FirstIsMember(Unscoped(candidates, scopes));
  }

  /** Four positions that each open and close pair up two by two. */
  lemma AlternatingPairs(a: int, b: int, c: int, d: int)
    requires a < b < c < d
    ensures FindPairs([a, b, c, d], [a, b, c, d]) == [Pair(a, b), Pair(c, d)]
  {
    var o := [a, b, c, d];
    assert PairsFrom(o, o, 2, 2) == PairsFrom(o, o, 2, 3) == [Pair(c, d)] + PairsFrom(o, o, 4, 4);
    assert PairsFrom(o, o, 0, 0) == PairsFrom(o, o, 0, 1) == [Pair(a, b)] + PairsFrom(o, o, 2, 2);
  }

  /** The default table, row by row: the `_` row unmasked, the `__` row
    * masked by the `_` row, the code row masked by both. */
  lemma DefaultTable(s: string, r0: seq<Pair>, r1: seq<Pair>, r2: seq<Pair>)
    requires r0 == LevelPairs(DefaultFormatters[0], [], s)
    requires r1 == LevelPairs(DefaultFormatters[1], [r0], s)
    requires r2 == LevelPairs(DefaultFormatters[2], [r0, r1], s)
    ensures Levels(DefaultFormatters, s) == [r0, r1, r2]
  {
    ThreeLevels(DefaultFormatters, s, r0, r1, r2);
  }

  /** The table of three units, row by row. */
  lemma ThreeLevels(rules: seq<FormattingRule>, s: string, r0: seq<Pair>, r1: seq<Pair>, r2: seq<Pair>)
    requires |rules| == 3
    requires r0 == LevelPairs(rules[0], [], s)
    requires r1 == LevelPairs(rules[1], [r0], s)
    requires r2 == LevelPairs(rules[2], [r0, r1], s)
    ensures Levels(rules, s) == [r0, r1, r2]
  {
    var levels := Levels(rules, s);
    LevelsAt(rules, s, 0);
    assert levels[..0] == [];
    LevelsAt(rules, s, 1);
    assert levels[..1] == [levels[0]];
    LevelsAt(rules, s, 2);
    assert levels[..2] == [levels[0], levels[1]];
  }

  /** The stable sort leaves events already in position order as they are. */
  lemma {:induction false} SortKeepsSorted(events: seq<Replacement>)
    requires NonDecreasing(events)
    ensures SortByPosition(events) == events
    decreases |events|
  {
    if events != [] {
      var init, last := events[..|events| - 1], events[|events| - 1];
      SortKeepsSorted(init);
      assert events == init + [last];
      if init != [] {
        assert init[|init| - 1].position <= last.position;
      }
    }
  }

  lemma SortedFour(a: Replacement, b: Replacement, c: Replacement, d: Replacement)
    requires a.position <= b.position <= c.position <= d.position
    ensures SortByPosition([a, b, c, d]) == [a, b, c, d]
  {
    assert NonDecreasing([a, b, c, d]);
    SortKeepsSorted([a, b, c, d]);
  }

  /** The rewrite along no events is the text itself. */
  lemma InterleaveNothing(s: string, rules: seq<FormattingRule>)
    ensures WellSpaced(s, [], rules) && Interleave(s, [], rules) == s
  {
  }

  /** Without events the default renderer only adds the paragraph tags. */
  lemma NoEventsRendersPlain(s: string)
    requires Events(Levels(DefaultFormatters, s)) == []
    ensures Render(s) == "<p>" + s + "</p>"
  {
    InterleaveNothing(s, DefaultFormatters);
    ParagraphTags();
  }

  /** Without pairs the default renderer only adds the paragraph tags. */
  lemma EmptyTableRendersPlain(s: string)
    requires Levels(DefaultFormatters, s) == [[], [], []]
    ensures Render(s) == "<p>" + s + "</p>"
  {
    EmptyRowsNoEvents(Levels(DefaultFormatters, s));
    NoEventsRendersPlain(s);
  }

  lemma EmptyRowsNoEvents(table: seq<seq<Pair>>)
    requires table == [[], [], []]
    ensures Events(table) == []
  {
    FlattenEmptyRows(table);
  }

  /** The copy along one event. */
  lemma CopiedOne(s: string, e: Replacement, rules: seq<FormattingRule>)
    requires WellSpaced(s, [e], rules)
    ensures var ev := [e];
      && Cursor(s, ev, rules) == EndOf(rules, ev[0])
      && Copied(s, ev, rules) == s[..ev[0].position] + HtmlOf(rules, ev[0])
  {
    CopiedLast(s, [e], rules);
    assert [e][..0] == [];
  }

  /** The copy along one more event. */
  lemma CopiedSnoc(s: string, events: seq<Replacement>, e: Replacement, rules: seq<FormattingRule>)
    requires WellSpaced(s, events + [e], rules)
    ensures var ev := events + [e];
      && WellSpaced(s, events, rules)
      && Cursor(s, events, rules) <= ev[|events|].position
      && Cursor(s, ev, rules) == EndOf(rules, ev[|events|])
      && Copied(s, ev, rules) ==
           Copied(s, events, rules) + s[Cursor(s, events, rules)..ev[|events|].position] + HtmlOf(rules, ev[|events|])
  {
    CopiedLast(s, events + [e], rules);
    assert (events + [e])[..|events|] == events;
  }

  /** The rewrite along four well-spaced events. */
  lemma InterleaveFour(s: string, e0: Replacement, e1: Replacement, e2: Replacement, e3: Replacement,
                       rules: seq<FormattingRule>)
    requires WellSpaced(s, [e0, e1, e2, e3], rules)
    ensures var ev := [e0, e1, e2, e3];
      Interleave(s, ev, rules) ==
        s[..ev[0].position] + HtmlOf(rules, ev[0]) + s[EndOf(rules, ev[0])..ev[1].position] + HtmlOf(rules, ev[1])
        + s[EndOf(rules, ev[1])..ev[2].position] + HtmlOf(rules, ev[2])
        + s[EndOf(rules, ev[2])..ev[3].position] + HtmlOf(rules, ev[3]) + s[EndOf(rules, ev[3])..]
  {
    assert [e0, e1, e2, e3] == [e0, e1, e2] + [e3];
    assert [e0, e1, e2] == [e0, e1] + [e2];
    assert [e0, e1] == [e0] + [e1];
    CopiedSnoc(s, [e0, e1, e2], e3, rules);
    CopiedSnoc(s, [e0, e1], e2, rules);
    CopiedSnoc(s, [e0], e1, rules);
    CopiedOne(s, e0, rules);
  }

  /** The default renderer is the paragraph around the rewrite along the
    * events of the table. */
  lemma RenderAlong(s: string, events: seq<Replacement>)
    requires Events(Levels(DefaultFormatters, s)) == events
    ensures WellSpaced(s, events, DefaultFormatters)
    ensures Render(s) == "<p>" + Interleave(s, events, DefaultFormatters) + "</p>"
  {
    DefaultEventsWellSpaced(s);
    ParagraphTags();
  }

  /** The default renderer along four events: the paragraph around the
    * text with the four delimiters replaced by their tags. */
  lemma RenderFour(s: string, e0: Replacement, e1: Replacement, e2: Replacement, e3: Replacement, inner: string)
    requires Events(Levels(DefaultFormatters, s)) == [e0, e1, e2, e3]
    requires var ev, rules := [e0, e1, e2, e3], DefaultFormatters;
      WellSpaced(s, ev, rules) ==>
      inner == s[..ev[0].position] + HtmlOf(rules, ev[0]) + s[EndOf(rules, ev[0])..ev[1].position] + HtmlOf(rules, ev[1])
        + s[EndOf(rules, ev[1])..ev[2].position] + HtmlOf(rules, ev[2])
        + s[EndOf(rules, ev[2])..ev[3].position] + HtmlOf(rules, ev[3]) + s[EndOf(rules, ev[3])..]
    ensures Render(s) == "<p>" + inner + "</p>"
  {
    RenderAlong(s, [e0, e1, e2, e3]);
    InterleaveFour(s, e0, e1, e2, e3, DefaultFormatters);
  }

  /** The events of a three-row table, row by row. */
  lemma FlattenThree(r0: seq<Pair>, r1: seq<Pair>, r2: seq<Pair>)
    ensures Flatten([r0, r1, r2]) == SegmentEvents(r0, 0) + SegmentEvents(r1, 1) + SegmentEvents(r2, 2)
  {
    assert [r0][..0] == [];
    assert Flatten([r0]) == SegmentEvents(r0, 0);
    assert [r0, r1][..1] == [r0];
    assert Flatten([r0, r1]) == SegmentEvents(r0, 0) + SegmentEvents(r1, 1);
    assert [r0, r1, r2][..2] == [r0, r1];
  }

  lemma SegmentEventsOne(p: Pair, level: nat)
    ensures SegmentEvents([p], level) == [Replacement(p.a, true, level), Replacement(p.b, false, level)]
  {
    assert [p][..0] == [];
  }

  lemma SegmentEventsTwo(p: Pair, q: Pair, level: nat)
    ensures SegmentEvents([p, q], level) ==
      [Replacement(p.a, true, level), Replacement(p.b, false, level), Replacement(q.a, true, level), Replacement(q.b, false, level)]
  {
    assert [p, q][..1] == [p];
    SegmentEventsOne(p, level);
  }

  /** A table where neither underscore unit pairs anything and the code
    * unit finds nothing is empty. */
  lemma UnpairedTable(s: string, o0: seq<int>, c0: seq<int>, o1: seq<int>, c1: seq<int>)
    requires StrictlyIncreasing(o0) && StrictlyIncreasing(c0) && StrictlyIncreasing(o1) && StrictlyIncreasing(c1)
    requires Openings(DefaultFormatters[0], s) == o0 && Closings(DefaultFormatters[0], s) == c0
    requires Openings(DefaultFormatters[1], s) == o1 && Closings(DefaultFormatters[1], s) == c1
    requires Openings(DefaultFormatters[2], s) == [] && Closings(DefaultFormatters[2], s) == []
    requires FindPairs(o0, c0) == [] && FindPairs(o1, c1) == []
    ensures Levels(DefaultFormatters, s) == [[], [], []]
  {
    UnscopedAllOutside(o0, []);
    UnscopedAllOutside(c0, []);
    UnscopedAllOutside(o1, [[]]);
    UnscopedAllOutside(c1, [[]]);
    DefaultTable(s, [], [], []);
  }

  /** The default renderer along the two events of one span around the
    * whole text. */
  lemma RenderWholeSpan(s: string, j: nat, m: int)
    requires j < 3 && |DefaultFormatters[j].markdownTag| <= m && m + |DefaultFormatters[j].markdownTag| == |s|
    requires Events(Levels(DefaultFormatters, s)) == [Replacement(0, true, j), Replacement(m, false, j)]
    ensures Render(s) == "<p>" + (DefaultFormatters[j].htmlOpeningTag
      + s[|DefaultFormatters[j].markdownTag|..m] + DefaultFormatters[j].htmlClosingTag) + "</p>"
  {
    RenderAlong(s, [Replacement(0, true, j), Replacement(m, false, j)]);
    InterleaveOneSpan(s, DefaultFormatters, j, m);
  }

  lemma ParagraphRegroupOne(o: string, w: string, c: string)
    ensures "<p>" + (o + w + c) + "</p>" == "<p>" + o + w + c + "</p>"
  {
  }

  /** The rewrite along four events that start and end the text: each
    * event's tag with the text between them. */
  lemma InterleaveAssembled(s: string, e0: Replacement, e1: Replacement, e2: Replacement, e3: Replacement,
                            t0: string, x1: string, t1: string, x2: string, t2: string, x3: string, t3: string)
    requires WellSpaced(s, [e0, e1, e2, e3], DefaultFormatters)
    requires e0.level < 3 && e1.level < 3 && e2.level < 3 && e3.level < 3
    requires var rules := DefaultFormatters;
      && e0.position == 0 && EndOf(rules, e0) <= e1.position && EndOf(rules, e1) <= e2.position
      && EndOf(rules, e2) <= e3.position && EndOf(rules, e3) == |s|
      && HtmlOf(rules, e0) == t0 && HtmlOf(rules, e1) == t1 && HtmlOf(rules, e2) == t2 && HtmlOf(rules, e3) == t3
      && s[EndOf(rules, e0)..e1.position] == x1 && s[EndOf(rules, e1)..e2.position] == x2
      && s[EndOf(rules, e2)..e3.position] == x3
    ensures Interleave(s, [e0, e1, e2, e3], DefaultFormatters) == t0 + x1 + t1 + x2 + t2 + x3 + t3
  {
    InterleaveFour(s, e0, e1, e2, e3, DefaultFormatters);
    assert s[..0] == [] && s[|s|..] == [];
    DropEmptyEnds(t0, x1, t1, x2, t2, x3, t3);
  }

  lemma DropEmptyEnds(t0: string, x1: string, t1: string, x2: string, t2: string, x3: string, t3: string)
    ensures [] + t0 + x1 + t1 + x2 + t2 + x3 + t3 + [] == t0 + x1 + t1 + x2 + t2 + x3 + t3
  {
  }

  lemma ParagraphRegroup(t0: string, x1: string, t1: string, x2: string, t2: string, x3: string, t3: string)
    ensures "<p>" + (t0 + x1 + t1 + x2 + t2 + x3 + t3) + "</p>" == "<p>" + t0 + x1 + t1 + x2 + t2 + x3 + t3 + "</p>"
  {
  }

  /** Four events of the default units whose delimiters start the text,
    * follow each other without overlap and end the text, with the given
    * text between them. */
  predicate FourGaps(s: string, e0: Replacement, e1: Replacement, e2: Replacement, e3: Replacement,
                     x1: string, x2: string, x3: string)
  {
    var rules := DefaultFormatters;
    && e0.level < 3 && e1.level < 3 && e2.level < 3 && e3.level < 3
    && e0.position == 0 && EndOf(rules, e0) <= e1.position && EndOf(rules, e1) <= e2.position
    && EndOf(rules, e2) <= e3.position && EndOf(rules, e3) == |s|
    && s[EndOf(rules, e0)..e1.position] == x1 && s[EndOf(rules, e1)..e2.position] == x2
    && s[EndOf(rules, e2)..e3.position] == x3
  }

  /** The HTML tags of four events of the default units. */
  predicate FourTags(e0: Replacement, e1: Replacement, e2: Replacement, e3: Replacement,
                     t0: string, t1: string, t2: string, t3: string)
  {
    var rules := DefaultFormatters;
    && e0.level < 3 && e1.level < 3 && e2.level < 3 && e3.level < 3
    && HtmlOf(rules, e0) == t0 && HtmlOf(rules, e1) == t1 && HtmlOf(rules, e2) == t2 && HtmlOf(rules, e3) == t3
  }

  /** The default renderer along four events that start and end the text:
    * the paragraph tag, then each event's tag with the text between. */
  lemma AssembleFour(s: string, e0: Replacement, e1: Replacement, e2: Replacement, e3: Replacement,
                     t0: string, x1: string, t1: string, x2: string, t2: string, x3: string, t3: string)
    requires Events(Levels(DefaultFormatters, s)) == [e0, e1, e2, e3]
    requires FourGaps(s, e0, e1, e2, e3, x1, x2, x3)
    requires FourTags(e0, e1, e2, e3, t0, t1, t2, t3)
    ensures Render(s) == "<p>" + t0 + x1 + t1 + x2 + t2 + x3 + t3 + "</p>"
  {
    RenderAlong(s, [e0, e1, e2, e3]);
    InterleaveAssembled(s, e0, e1, e2, e3, t0, x1, t1, x2, t2, x3, t3);
    ParagraphRegroup(t0, x1, t1, x2, t2, x3, t3);
  }

  // ---------------------------------------------------------------------
  // `_a_b_d_`: two emphasis spans side by side
  // ---------------------------------------------------------------------

  lemma TwoEmphasesUnderscores(s: string)
    requires s == "_a_b_d_"
    ensures Openings(DefaultFormatters[0], s) == [0, 2, 4, 6] && Closings(DefaultFormatters[0], s) == [0, 2, 4, 6]
  {
    var o := [0, 2, 4, 6];
    forall i
      ensures OpensAt(DefaultFormatters[0], s, i) <==> i in o
      ensures ClosesAt(DefaultFormatters[0], s, i) <==> i in o
    {
      SingleUnderscore.OpensAtExactly(s, i);
      SingleUnderscore.ClosesAtExactly(s, i);
    }
    DefaultMatches(0, s, o, o);
  }

  lemma TwoEmphasesNoStrong(s: string)
    requires s == "_a_b_d_"
    ensures Openings(DefaultFormatters[1], s) == [] && Closings(DefaultFormatters[1], s) == []
  {
    forall i ensures !OpensAt(DefaultFormatters[1], s, i) && !ClosesAt(DefaultFormatters[1], s, i) {
      DoubleUnderscore.OpensAtExactly(s, i);
      DoubleUnderscore.ClosesAtExactly(s, i);
    }
    NoMatches(DefaultFormatters[1], s);
  }

  lemma TwoEmphasesTable(s: string)
    requires Openings(DefaultFormatters[0], s) == [0, 2, 4, 6] && Closings(DefaultFormatters[0], s) == [0, 2, 4, 6]
    requires Openings(DefaultFormatters[1], s) == [] && Closings(DefaultFormatters[1], s) == []
    requires Openings(DefaultFormatters[2], s) == [] && Closings(DefaultFormatters[2], s) == []
    ensures Levels(DefaultFormatters, s) == [[Pair(0, 2), Pair(4, 6)], [], []]
  {
    var r0 := [Pair(0, 2), Pair(4, 6)];
    assert LevelPairs(DefaultFormatters[0], [], s) == r0 by {
      UnscopedAllOutside([0, 2, 4, 6], []);
      AlternatingPairs(0, 2, 4, 6);
    }
    assert LevelPairs(DefaultFormatters[1], [r0], s) == [];
    assert LevelPairs(DefaultFormatters[2], [r0, []], s) == [];
    DefaultTable(s, r0, [], []);
  }

  lemma TwoEmphasesEvents()
    ensures Events([[Pair(0, 2), Pair(4, 6)], [], []]) ==
      [Replacement(0, true, 0), Replacement(2, false, 0), Replacement(4, true, 0), Replacement(6, false, 0)]
  {
    var table := [[Pair(0, 2), Pair(4, 6)], [], []];
    var events := [Replacement(0, true, 0), Replacement(2, false, 0), Replacement(4, true, 0), Replacement(6, false, 0)];
    FlattenThree([Pair(0, 2), Pair(4, 6)], [], []);
    SegmentEventsTwo(Pair(0, 2), Pair(4, 6), 0);
    assert SegmentEvents([], 1) == [] && SegmentEvents([], 2) == [];
    assert Flatten(table) == events;
    SortedFour(Replacement(0, true, 0), Replacement(2, false, 0), Replacement(4, true, 0), Replacement(6, false, 0));
    assert Events(table) == SortByPosition(Flatten(table));
  }

  lemma TwoEmphasesGaps(s: string)
    requires s == "_a_b_d_"
    ensures FourGaps(s, Replacement(0, true, 0), Replacement(2, false, 0), Replacement(4, true, 0), Replacement(6, false, 0), "a", "b", "d")
  {
    assert s[1..2] == "a" && s[3..4] == "b" && s[5..6] == "d";
  }

  lemma TwoEmphasesTags()
    ensures FourTags(Replacement(0, true, 0), Replacement(2, false, 0), Replacement(4, true, 0), Replacement(6, false, 0), "<em>", "</em>", "<em>", "</em>")
  {
  }

  lemma TwoEmphasesTextEvents(s: string)
    requires s == "_a_b_d_"
    ensures Events(Levels(DefaultFormatters, s)) == [Replacement(0, true, 0), Replacement(2, false, 0), Replacement(4, true, 0), Replacement(6, false, 0)]
  {
    TwoEmphasesUnderscores(s);
    TwoEmphasesNoStrong(s);
    NoBacktickNoMatches(s);
    TwoEmphasesTable(s);
    TwoEmphasesEvents();
  }

  /** `_a_b_d_` renders as two emphasis spans around `a` and `d`, with the
    * `b` between them left as it is. */
  lemma TwoEmphases(s: string)
    requires s == "_a_b_d_"
    ensures Render(s) == "<p>" + "<em>" + "a" + "</em>" + "b" + "<em>" + "d" + "</em>" + "</p>"
  {
    var e0, e1, e2, e3 := Replacement(0, true, 0), Replacement(2, false, 0), Replacement(4, true, 0), Replacement(6, false, 0);
    TwoEmphasesGaps(s);
    TwoEmphasesTags();
    TwoEmphasesTextEvents(s);
    AssembleFour(s, e0, e1, e2, e3, "<em>", "a", "</em>", "b", "<em>", "d", "</em>");
  }

  // ---------------------------------------------------------------------
  // Texts whose delimiters find no partner
  // ---------------------------------------------------------------------

  lemma SpaceAfterOpeningMatches(s: string)
    requires s == "_ abcd_"
    ensures Openings(DefaultFormatters[0], s) == [6] && Closings(DefaultFormatters[0], s) == [0, 6]
    ensures Openings(DefaultFormatters[1], s) == [] && Closings(DefaultFormatters[1], s) == []
  {
    forall i
      ensures OpensAt(DefaultFormatters[0], s, i) <==> i in [6]
      ensures ClosesAt(DefaultFormatters[0], s, i) <==> i in [0, 6]
    {
      SingleUnderscore.OpensAtExactly(s, i);
      SingleUnderscore.ClosesAtExactly(s, i);
    }
    DefaultMatches(0, s, [6], [0, 6]);
    forall i ensures !OpensAt(DefaultFormatters[1], s, i) && !ClosesAt(DefaultFormatters[1], s, i) {
      DoubleUnderscore.OpensAtExactly(s, i);
      DoubleUnderscore.ClosesAtExactly(s, i);
    }
    NoMatches(DefaultFormatters[1], s);
  }

  /** `_ abcd_` stays as it is: the first `_` is followed by a space, so it
    * can only close, and the last one has nothing after it to close. */
  lemma SpaceAfterOpening(s: string)
    requires s == "_ abcd_"
    ensures Render(s) == "<p>" + s + "</p>"
  {
    SpaceAfterOpeningMatches(s);
    NoBacktickNoMatches(s);
    assert FindPairs([6], [0, 6]) == [];
    UnpairedTable(s, [6], [0, 6], [], []);
    EmptyTableRendersPlain(s);
  }

  lemma DigitsAroundMatches(s: string)
    requires s == "a_1_2"
    ensures Openings(DefaultFormatters[0], s) == [] && Closings(DefaultFormatters[0], s) == []
    ensures Openings(DefaultFormatters[1], s) == [] && Closings(DefaultFormatters[1], s) == []
  {
    forall i ensures !OpensAt(DefaultFormatters[0], s, i) && !ClosesAt(DefaultFormatters[0], s, i) {
      SingleUnderscore.OpensAtExactly(s, i);
      SingleUnderscore.ClosesAtExactly(s, i);
    }
    NoMatches(DefaultFormatters[0], s);
    forall i ensures !OpensAt(DefaultFormatters[1], s, i) && !ClosesAt(DefaultFormatters[1], s, i) {
      DoubleUnderscore.OpensAtExactly(s, i);
      DoubleUnderscore.ClosesAtExactly(s, i);
    }
    NoMatches(DefaultFormatters[1], s);
  }

  /** `a_1_2` stays as it is: an `_` next to a digit neither opens nor closes. */
  lemma DigitsAround(s: string)
    requires s == "a_1_2"
    ensures Render(s) == "<p>" + s + "</p>"
  {
    DigitsAroundMatches(s);
    NoBacktickNoMatches(s);
    UnpairedTable(s, [], [], [], []);
    EmptyTableRendersPlain(s);
  }

  lemma SpaceAfterStrongOpeningMatches(s: string)
    requires s == "__ abcd__"
    ensures Openings(DefaultFormatters[0], s) == [] && Closings(DefaultFormatters[0], s) == []
    ensures Openings(DefaultFormatters[1], s) == [7] && Closings(DefaultFormatters[1], s) == [0, 7]
  {
    forall i ensures !OpensAt(DefaultFormatters[0], s, i) && !ClosesAt(DefaultFormatters[0], s, i) {
      SingleUnderscore.OpensAtExactly(s, i);
      SingleUnderscore.ClosesAtExactly(s, i);
    }
    NoMatches(DefaultFormatters[0], s);
    forall i
      ensures OpensAt(DefaultFormatters[1], s, i) <==> i in [7]
      ensures ClosesAt(DefaultFormatters[1], s, i) <==> i in [0, 7]
    {
      DoubleUnderscore.OpensAtExactly(s, i);
      DoubleUnderscore.ClosesAtExactly(s, i);
    }
    DefaultMatches(1, s, [7], [0, 7]);
  }

  /** `__ abcd__` stays as it is: the first `__` is followed by a space, so
    * it can only close, and the last one has nothing after it to close. */
  lemma SpaceAfterStrongOpening(s: string)
    requires s == "__ abcd__"
    ensures Render(s) == "<p>" + s + "</p>"
  {
    SpaceAfterStrongOpeningMatches(s);
    NoBacktickNoMatches(s);
    assert FindPairs([7], [0, 7]) == [];
    UnpairedTable(s, [], [], [7], [0, 7]);
    EmptyTableRendersPlain(s);
  }

  lemma MixedUnderscoresMatches(s: string)
    requires s == "__ab_"
    ensures Openings(DefaultFormatters[0], s) == [4] && Closings(DefaultFormatters[0], s) == [4]
    ensures Openings(DefaultFormatters[1], s) == [0] && Closings(DefaultFormatters[1], s) == [0]
  {
    forall i
      ensures OpensAt(DefaultFormatters[0], s, i) <==> i in [4]
      ensures ClosesAt(DefaultFormatters[0], s, i) <==> i in [4]
    {
      SingleUnderscore.OpensAtExactly(s, i);
      SingleUnderscore.ClosesAtExactly(s, i);
    }
    DefaultMatches(0, s, [4], [4]);
    forall i
      ensures OpensAt(DefaultFormatters[1], s, i) <==> i in [0]
      ensures ClosesAt(DefaultFormatters[1], s, i) <==> i in [0]
    {
      DoubleUnderscore.OpensAtExactly(s, i);
      DoubleUnderscore.ClosesAtExactly(s, i);
    }
    DefaultMatches(1, s, [0], [0]);
  }

  /** `__ab_` stays as it is: a `__` and an `_` never pair with each other,
    * and each is alone in its unit. */
  lemma MixedUnderscores(s: string)
    requires s == "__ab_"
    ensures Render(s) == "<p>" + s + "</p>"
  {
    MixedUnderscoresMatches(s);
    NoBacktickNoMatches(s);
    assert FindPairs([4], [4]) == [] && FindPairs([0], [0]) == [];
    UnpairedTable(s, [4], [4], [0], [0]);
    EmptyTableRendersPlain(s);
  }


  // ---------------------------------------------------------------------
  // `__a__b__d__`: two strong spans side by side
  // ---------------------------------------------------------------------

  lemma TwoStrongsNoEmphasis(s: string)
    requires s == "__a__b__d__"
    ensures Openings(DefaultFormatters[0], s) == [] && Closings(DefaultFormatters[0], s) == []
  {
    forall i ensures !OpensAt(DefaultFormatters[0], s, i) && !ClosesAt(DefaultFormatters[0], s, i) {
      SingleUnderscore.OpensAtExactly(s, i);
      SingleUnderscore.ClosesAtExactly(s, i);
    }
    NoMatches(DefaultFormatters[0], s);
  }

  lemma TwoStrongsUnderscores(s: string)
    requires s == "__a__b__d__"
    ensures Openings(DefaultFormatters[1], s) == [0, 3, 6, 9] && Closings(DefaultFormatters[1], s) == [0, 3, 6, 9]
  {
    var o := [0, 3, 6, 9];
    forall i
      ensures OpensAt(DefaultFormatters[1], s, i) <==> i in o
      ensures ClosesAt(DefaultFormatters[1], s, i) <==> i in o
    {
      DoubleUnderscore.OpensAtExactly(s, i);
      DoubleUnderscore.ClosesAtExactly(s, i);
    }
    DefaultMatches(1, s, o, o);
  }

  lemma TwoStrongsTable(s: string)
    requires Openings(DefaultFormatters[0], s) == [] && Closings(DefaultFormatters[0], s) == []
    requires Openings(DefaultFormatters[1], s) == [0, 3, 6, 9] && Closings(DefaultFormatters[1], s) == [0, 3, 6, 9]
    requires Openings(DefaultFormatters[2], s) == [] && Closings(DefaultFormatters[2], s) == []
    ensures Levels(DefaultFormatters, s) == [[], [Pair(0, 3), Pair(6, 9)], []]
  {
    var r1 := [Pair(0, 3), Pair(6, 9)];
    assert LevelPairs(DefaultFormatters[0], [], s) == [];
    assert LevelPairs(DefaultFormatters[1], [[]], s) == r1 by {
      UnscopedAllOutside([0, 3, 6, 9], [[]]);
      AlternatingPairs(0, 3, 6, 9);
    }
    assert LevelPairs(DefaultFormatters[2], [[], r1], s) == [];
    DefaultTable(s, [], r1, []);
  }

  lemma TwoStrongsEvents()
    ensures Events([[], [Pair(0, 3), Pair(6, 9)], []]) ==
      [Replacement(0, true, 1), Replacement(3, false, 1), Replacement(6, true, 1), Replacement(9, false, 1)]
  {
    var table := [[], [Pair(0, 3), Pair(6, 9)], []];
    var events := [Replacement(0, true, 1), Replacement(3, false, 1), Replacement(6, true, 1), Replacement(9, false, 1)];
    FlattenThree([], [Pair(0, 3), Pair(6, 9)], []);
    SegmentEventsTwo(Pair(0, 3), Pair(6, 9), 1);
    assert SegmentEvents([], 0) == [] && SegmentEvents([], 2) == [];
    assert Flatten(table) == events;
    SortedFour(Replacement(0, true, 1), Replacement(3, false, 1), Replacement(6, true, 1), Replacement(9, false, 1));
    assert Events(table) == SortByPosition(Flatten(table));
  }

  lemma TwoStrongsGaps(s: string)
    requires s == "__a__b__d__"
    ensures FourGaps(s, Replacement(0, true, 1), Replacement(3, false, 1), Replacement(6, true, 1), Replacement(9, false, 1), "a", "b", "d")
  {
    assert s[2..3] == "a" && s[5..6] == "b" && s[8..9] == "d";
  }

  lemma TwoStrongsTags()
    ensures FourTags(Replacement(0, true, 1), Replacement(3, false, 1), Replacement(6, true, 1), Replacement(9, false, 1), "<strong>", "</strong>", "<strong>", "</strong>")
  {
  }

  lemma TwoStrongsTextEvents(s: string)
    requires s == "__a__b__d__"
    ensures Events(Levels(DefaultFormatters, s)) == [Replacement(0, true, 1), Replacement(3, false, 1), Replacement(6, true, 1), Replacement(9, false, 1)]
  {
    TwoStrongsNoEmphasis(s);
    TwoStrongsUnderscores(s);
    NoBacktickNoMatches(s);
    TwoStrongsTable(s);
    TwoStrongsEvents();
  }

  /** `__a__b__d__` renders as two strong spans around `a` and `d`: each
    * inner `__` closes one span or opens the next. */
  lemma TwoStrongs(s: string)
    requires s == "__a__b__d__"
    ensures Render(s) == "<p>" + "<strong>" + "a" + "</strong>" + "b" + "<strong>" + "d" + "</strong>" + "</p>"
  {
    var e0, e1, e2, e3 := Replacement(0, true, 1), Replacement(3, false, 1), Replacement(6, true, 1), Replacement(9, false, 1);
    TwoStrongsGaps(s);
    TwoStrongsTags();
    TwoStrongsTextEvents(s);
    AssembleFour(s, e0, e1, e2, e3, "<strong>", "a", "</strong>", "b", "<strong>", "d", "</strong>");
  }

  // ---------------------------------------------------------------------
  // `_ab __cd__ ef_`: the emphasis span masks the strong delimiters
  // ---------------------------------------------------------------------

  lemma StrongInsideEmphasisUnderscores(s: string)
    requires s == "_ab __cd__ ef_"
    ensures Openings(DefaultFormatters[0], s) == [0, 13] && Closings(DefaultFormatters[0], s) == [0, 13]
  {
    forall i
      ensures OpensAt(DefaultFormatters[0], s, i) <==> i in [0, 13]
      ensures ClosesAt(DefaultFormatters[0], s, i) <==> i in [0, 13]
    {
      SingleUnderscore.OpensAtExactly(s, i);
      SingleUnderscore.ClosesAtExactly(s, i);
    }
    DefaultMatches(0, s, [0, 13], [0, 13]);
  }

  lemma StrongInsideEmphasisDoubles(s: string)
    requires s == "_ab __cd__ ef_"
    ensures Openings(DefaultFormatters[1], s) == [4] && Closings(DefaultFormatters[1], s) == [8]
  {
    forall i
      ensures OpensAt(DefaultFormatters[1], s, i) <==> i in [4]
      ensures ClosesAt(DefaultFormatters[1], s, i) <==> i in [8]
    {
      DoubleUnderscore.OpensAtExactly(s, i);
      DoubleUnderscore.ClosesAtExactly(s, i);
    }
    DefaultMatches(1, s, [4], [8]);
  }

  lemma StrongInsideEmphasisTable(s: string)
    requires Openings(DefaultFormatters[0], s) == [0, 13] && Closings(DefaultFormatters[0], s) == [0, 13]
    requires Openings(DefaultFormatters[1], s) == [4] && Closings(DefaultFormatters[1], s) == [8]
    requires Openings(DefaultFormatters[2], s) == [] && Closings(DefaultFormatters[2], s) == []
    ensures Levels(DefaultFormatters, s) == [[Pair(0, 13)], [], []]
  {
    var r0 := [Pair(0, 13)];
    assert LevelPairs(DefaultFormatters[0], [], s) == r0 by {
      UnscopedAllOutside([0, 13], []);
      PairOfEnds(13);
    }
    assert LevelPairs(DefaultFormatters[1], [r0], s) == [] by {
      assert r0[0] in r0;
      assert InLevel(r0, 4) && InLevel(r0, 8);
      assert [r0][0] == r0;
      assert InAnyScope([r0], 4) && InAnyScope([r0], 8);
      UnscopedAllInside([4], [r0]);
      UnscopedAllInside([8], [r0]);
    }
    assert LevelPairs(DefaultFormatters[2], [r0, []], s) == [];
    DefaultTable(s, r0, [], []);
  }

  lemma StrongInsideEmphasisEvents()
    ensures Events([[Pair(0, 13)], [], []]) == [Replacement(0, true, 0), Replacement(13, false, 0)]
  {
    var table := [[Pair(0, 13)], [], []];
    var events := [Replacement(0, true, 0), Replacement(13, false, 0)];
    FlattenThree([Pair(0, 13)], [], []);
    SegmentEventsOne(Pair(0, 13), 0);
    assert SegmentEvents([], 1) == [] && SegmentEvents([], 2) == [];
    assert Flatten(table) == events;
    SortPairInOrder(Replacement(0, true, 0), Replacement(13, false, 0));
    assert Events(table) == SortByPosition(Flatten(table));
  }

  lemma StrongInsideEmphasisText(s: string)
    requires s == "_ab __cd__ ef_"
    ensures s[1..13] == "ab __cd__ ef"
  {
  }

  lemma StrongInsideEmphasisTextEvents(s: string)
    requires s == "_ab __cd__ ef_"
    ensures Events(Levels(DefaultFormatters, s)) == [Replacement(0, true, 0), Replacement(13, false, 0)]
  {
    StrongInsideEmphasisUnderscores(s);
    StrongInsideEmphasisDoubles(s);
    NoBacktickNoMatches(s);
    StrongInsideEmphasisTable(s);
    StrongInsideEmphasisEvents();
  }

  /** `_ab __cd__ ef_` renders as one emphasis span: the `__` delimiters
    * lie inside it, are masked, and are left as they are. */
  lemma StrongInsideEmphasis(s: string)
    requires s == "_ab __cd__ ef_"
    ensures Render(s) == "<p>" + "<em>" + "ab __cd__ ef" + "</em>" + "</p>"
  {
    StrongInsideEmphasisTextEvents(s);
    StrongInsideEmphasisText(s);
    RenderWholeSpan(s, 0, 13);
    ParagraphRegroupOne("<em>", s[1..13], "</em>");
  }

  // ---------------------------------------------------------------------
  // `__ab _cd_ ef__`: an emphasis span nested in a strong span
  // ---------------------------------------------------------------------

  lemma EmphasisInsideStrongUnderscores(s: string)
    requires s == "__ab _cd_ ef__"
    ensures Openings(DefaultFormatters[0], s) == [5] && Closings(DefaultFormatters[0], s) == [8]
  {
    forall i
      ensures OpensAt(DefaultFormatters[0], s, i) <==> i in [5]
      ensures ClosesAt(DefaultFormatters[0], s, i) <==> i in [8]
    {
      SingleUnderscore.OpensAtExactly(s, i);
      SingleUnderscore.ClosesAtExactly(s, i);
    }
    DefaultMatches(0, s, [5], [8]);
  }

  lemma EmphasisInsideStrongDoubles(s: string)
    requires s == "__ab _cd_ ef__"
    ensures Openings(DefaultFormatters[1], s) == [0, 12] && Closings(DefaultFormatters[1], s) == [0, 12]
  {
    forall i
      ensures OpensAt(DefaultFormatters[1], s, i) <==> i in [0, 12]
      ensures ClosesAt(DefaultFormatters[1], s, i) <==> i in [0, 12]
    {
      DoubleUnderscore.OpensAtExactly(s, i);
      DoubleUnderscore.ClosesAtExactly(s, i);
    }
    DefaultMatches(1, s, [0, 12], [0, 12]);
  }

  lemma EmphasisInsideStrongTable(s: string)
    requires Openings(DefaultFormatters[0], s) == [5] && Closings(DefaultFormatters[0], s) == [8]
    requires Openings(DefaultFormatters[1], s) == [0, 12] && Closings(DefaultFormatters[1], s) == [0, 12]
    requires Openings(DefaultFormatters[2], s) == [] && Closings(DefaultFormatters[2], s) == []
    ensures Levels(DefaultFormatters, s) == [[Pair(5, 8)], [Pair(0, 12)], []]
  {
    var r0, r1 := [Pair(5, 8)], [Pair(0, 12)];
    EmphasisInsideStrongRow0(s);
    EmphasisInsideStrongRow1(s);
    assert LevelPairs(DefaultFormatters[2], [r0, r1], s) == [];
    DefaultTable(s, r0, r1, []);
  }

  lemma EmphasisInsideStrongRow0(s: string)
    requires Openings(DefaultFormatters[0], s) == [5] && Closings(DefaultFormatters[0], s) == [8]
    ensures LevelPairs(DefaultFormatters[0], [], s) == [Pair(5, 8)]
  {
    UnscopedAllOutside([5], []);
    UnscopedAllOutside([8], []);
    SingleOpening(5, [8]);
  }

  lemma EmphasisInsideStrongRow1(s: string)
    requires Openings(DefaultFormatters[1], s) == [0, 12] && Closings(DefaultFormatters[1], s) == [0, 12]
    ensures LevelPairs(DefaultFormatters[1], [[Pair(5, 8)]], s) == [Pair(0, 12)]
  {
    UnscopedAllOutside([0, 12], [[Pair(5, 8)]]);
    PairOfEnds(12);
  }

  /** Inserting an event before both elements of a sorted pair. */
  lemma InsertInFront(c: Replacement, a: Replacement, b: Replacement)
    requires c.position < a.position <= b.position
    ensures InsertByPosition(c, [a, b]) == [c, a, b]
  {
    InsertBelowAll(c, [a, b]);
  }

  /** An event before every event of a list goes at its front. */
  lemma {:induction false} InsertBelowAll(e: Replacement, sorted: seq<Replacement>)
    requires forall k :: 0 <= k < |sorted| ==> e.position < sorted[k].position
    ensures InsertByPosition(e, sorted) == [e] + sorted
    decreases |sorted|
  {
    if sorted != [] {
      var init, last := sorted[..|sorted| - 1], sorted[|sorted| - 1];
      InsertBelowAll(e, init);
      assert [e] + init + [last] == [e] + sorted;
    }
  }

  /** A later event with an earlier position moves in front of a sorted pair. */
  lemma SortMovesToFront(a: Replacement, b: Replacement, c: Replacement)
    requires c.position < a.position <= b.position
    ensures SortByPosition([a, b, c]) == [c, a, b]
  {
    var two, three := [a, b], [a, b, c];
    assert three[..2] == two && three[2] == c;
    SortPairInOrder(a, b);
    InsertInFront(c, a, b);
  }

  /** The sort of four events inserts the last into the sort of the first three. */
  lemma SortOfFour(a: Replacement, b: Replacement, c: Replacement, d: Replacement)
    ensures SortByPosition([a, b, c, d]) == InsertByPosition(d, SortByPosition([a, b, c]))
  {
    var three, four := [a, b, c], [a, b, c, d];
    assert four[..3] == three && four[3] == d;
  }

  /** An event at or after the last position goes at the end. */
  lemma InsertAtEnd(e: Replacement, sorted: seq<Replacement>)
    requires sorted != [] && sorted[|sorted| - 1].position <= e.position
    ensures InsertByPosition(e, sorted) == sorted + [e]
  {
  }

  /** An event at or after the last of three sorted events goes at the end. */
  lemma InsertAfterThree(d: Replacement, x: Replacement, y: Replacement, z: Replacement)
    requires z.position <= d.position
    ensures InsertByPosition(d, [x, y, z]) == [x, y, z, d]
  {
    var sorted := [x, y, z];
    assert sorted[|sorted| - 1] == z;
    InsertAtEnd(d, sorted);
    assert sorted + [d] == [x, y, z, d];
  }

  /** The stable sort of the nested events: the strong opening moves to the front. */
  lemma NestedSort(a: Replacement, b: Replacement, c: Replacement, d: Replacement)
    requires c.position < a.position <= b.position <= d.position
    ensures SortByPosition([a, b, c, d]) == [c, a, b, d]
  {
    SortOfFour(a, b, c, d);
    SortMovesToFront(a, b, c);
    InsertAfterThree(d, c, a, b);
  }

  lemma EmphasisInsideStrongEvents()
    ensures Events([[Pair(5, 8)], [Pair(0, 12)], []]) ==
      [Replacement(0, true, 1), Replacement(5, true, 0), Replacement(8, false, 0), Replacement(12, false, 1)]
  {
    var table := [[Pair(5, 8)], [Pair(0, 12)], []];
    var a, b, c, d := Replacement(5, true, 0), Replacement(8, false, 0), Replacement(0, true, 1), Replacement(12, false, 1);
    FlattenThree([Pair(5, 8)], [Pair(0, 12)], []);
    SegmentEventsOne(Pair(5, 8), 0);
    SegmentEventsOne(Pair(0, 12), 1);
    assert SegmentEvents([], 2) == [];
    assert Flatten(table) == [a, b, c, d];
    NestedSort(a, b, c, d);
    assert Events(table) == SortByPosition(Flatten(table));
  }

  lemma EmphasisInsideStrongGaps(s: string)
    requires s == "__ab _cd_ ef__"
    ensures FourGaps(s, Replacement(0, true, 1), Replacement(5, true, 0), Replacement(8, false, 0), Replacement(12, false, 1), "ab ", "cd", " ef")
  {
    assert s[2..5] == "ab " && s[6..8] == "cd" && s[9..12] == " ef";
  }

  lemma EmphasisInsideStrongTags()
    ensures FourTags(Replacement(0, true, 1), Replacement(5, true, 0), Replacement(8, false, 0), Replacement(12, false, 1), "<strong>", "<em>", "</em>", "</strong>")
  {
  }

  lemma EmphasisInsideStrongTextEvents(s: string)
    requires s == "__ab _cd_ ef__"
    ensures Events(Levels(DefaultFormatters, s)) == [Replacement(0, true, 1), Replacement(5, true, 0), Replacement(8, false, 0), Replacement(12, false, 1)]
  {
    EmphasisInsideStrongUnderscores(s);
    EmphasisInsideStrongDoubles(s);
    NoBacktickNoMatches(s);
    EmphasisInsideStrongTable(s);
    EmphasisInsideStrongEvents();
  }

  /** `__ab _cd_ ef__` renders as an emphasis span inside a strong span:
    * the `_` pair lies inside the `__` pair, which the `_` row does not mask. */
  lemma EmphasisInsideStrong(s: string)
    requires s == "__ab _cd_ ef__"
    ensures Render(s) == "<p>" + "<strong>" + "ab " + "<em>" + "cd" + "</em>" + " ef" + "</strong>" + "</p>"
  {
    var e0, e1, e2, e3 := Replacement(0, true, 1), Replacement(5, true, 0), Replacement(8, false, 0), Replacement(12, false, 1);
    EmphasisInsideStrongGaps(s);
    EmphasisInsideStrongTags();
    EmphasisInsideStrongTextEvents(s);
    AssembleFour(s, e0, e1, e2, e3, "<strong>", "ab ", "<em>", "cd", "</em>", " ef", "</strong>");
  }
}
