/** The pipeline of MdSpec on a text in which exactly one unit finds a
  * candidate pair: an opening and a closing at the two ends of the text.
  * The table then holds that one pair, the events are its opening and its
  * closing, and the rewrite puts the unit's tags around the inside. */
module MdSpans {
  import opened FormattingRule
  import opened PairFinder
  import opened MdSpec

  /** The scan passes over a stretch of the text where the pattern never matches. */
  lemma {:induction false} ScanSkips(s: string, delim: Delimiter, pattern: Lookaround, from: nat, to: nat)
    requires from <= to <= |s|
    requires forall i :: from <= i < to ==> !MatchesAt(s, i, delim, pattern)
    ensures ScanFrom(s, delim, pattern, from) == ScanFrom(s, delim, pattern, to)
    decreases |s| - from
  {
    if from < to {
      ScanSkips(s, delim, pattern, from + 1, to);
    }
  }

  /** A pattern that matches at the start of the text and where the text
    * ends with the delimiter, and nowhere in between, matches at those two
    * positions only. */
  lemma MatchesAtBothEnds(s: string, delim: Delimiter, pattern: Lookaround, m: int)
    requires |delim| <= m && m + |delim| == |s|
    requires MatchesAt(s, 0, delim, pattern) && MatchesAt(s, m, delim, pattern)
    requires forall i :: |delim| <= i < m ==> !MatchesAt(s, i, delim, pattern)
    ensures Matches(s, delim, pattern) == [0, m]
  {
    ScanSkips(s, delim, pattern, |delim|, m);
    assert ScanFrom(s, delim, pattern, m) == [m] + ScanFrom(s, delim, pattern, |s|);
  }

  /** A unit with no candidate anywhere in the text has no matches. */
  lemma NoMatches(rule: FormattingRule, s: string)
    requires forall i :: !OpensAt(rule, s, i) && !ClosesAt(rule, s, i)
    ensures Openings(rule, s) == [] && Closings(rule, s) == []
  {
    var o, c := Openings(rule, s), Closings(rule, s);
    assert |o| > 0 ==> OpensAt(rule, s, o[0]);
    assert |c| > 0 ==> ClosesAt(rule, s, c[0]);
  }

  /** The greedy pairing of one opening-and-closing position pair. */
  lemma PairOfEnds(m: int)
    requires 0 < m
    ensures FindPairs([0, m], [0, m]) == [Pair(0, m)]
  {
    var o := [0, m];
    assert PairsFrom(o, o, 0, 0) == PairsFrom(o, o, 0, 1);
    assert PairsFrom(o, o, 0, 1) == [Pair(0, m)] + PairsFrom(o, o, 2, 2);
  }

  /** With nothing in scope, masking keeps every candidate. */
  lemma {:induction false} UnscopedWithoutScopes(candidates: seq<int>, scopes: seq<seq<Pair>>)
    requires forall x :: !InAnyScope(scopes, x)
    ensures Unscoped(candidates, scopes) == candidates
    decreases |candidates|
  {
    if candidates != [] {
      var init, last := candidates[..|candidates| - 1], candidates[|candidates| - 1];
      UnscopedWithoutScopes(init, scopes);
      assert !InAnyScope(scopes, last);
      assert Unscoped(candidates, scopes) == Unscoped(init, scopes) + [last];
      assert init + [last] == candidates;
    }
  }

  /** Row `j` of the table holds the one pair and every other row is empty. */
  lemma LevelsOneSpan(rules: seq<FormattingRule>, source: string, j: nat, m: int)
    requires j < |rules| && 0 < m
    requires Openings(rules[j], source) == [0, m] && Closings(rules[j], source) == [0, m]
    requires forall k :: 0 <= k < |rules| && k != j ==> Openings(rules[k], source) == [] && Closings(rules[k], source) == []
    ensures forall k :: 0 <= k < |rules| ==> Levels(rules, source)[k] == if k == j then [Pair(0, m)] else []
  {
    var levels := Levels(rules, source);
    forall k | 0 <= k < |rules| && k != j ensures levels[k] == [] {
      LevelsAt(rules, source, k);
    }
    LevelsAt(rules, source, j);
    var scopes := levels[..j];
    forall x ensures !InAnyScope(scopes, x) {
      forall l | 0 <= l < |scopes| ensures !InLevel(scopes[l], x) {
        assert scopes[l] == levels[l];
      }
    }
    UnscopedWithoutScopes([0, m], scopes);
    PairOfEnds(m);
  }

  lemma {:induction false} FlattenEmptyRows(levels: seq<seq<Pair>>)
    requires forall k :: 0 <= k < |levels| ==> levels[k] == []
    ensures Flatten(levels) == []
  {
    if levels != [] {
      FlattenEmptyRows(levels[..|levels| - 1]);
    }
  }

  /** A table with one pair has that pair's opening and closing as its only events. */
  lemma {:induction false} FlattenOneRow(levels: seq<seq<Pair>>, j: nat, p: Pair)
    requires j < |levels|
    requires forall k :: 0 <= k < |levels| ==> levels[k] == if k == j then [p] else []
    ensures Flatten(levels) == [Replacement(p.a, true, j), Replacement(p.b, false, j)]
  {
    var init := levels[..|levels| - 1];
    if j == |levels| - 1 {
      FlattenEmptyRows(init);
      assert SegmentEvents([p], j) == SegmentEvents([], j) + [Replacement(p.a, true, j), Replacement(p.b, false, j)];
    } else {
      FlattenOneRow(init, j, p);
    }
  }

  lemma EventsOneRow(levels: seq<seq<Pair>>, j: nat, p: Pair)
    requires j < |levels| && p.a <= p.b
    requires forall k :: 0 <= k < |levels| ==> levels[k] == if k == j then [p] else []
    ensures Events(levels) == [Replacement(p.a, true, j), Replacement(p.b, false, j)]
  {
    FlattenOneRow(levels, j, p);
    var x, y := Replacement(p.a, true, j), Replacement(p.b, false, j);
    assert Events(levels) == SortByPosition([x, y]);
    SortPairInOrder(x, y);
  }

  /** The stable sort keeps two events that are already in position order. */
  lemma SortPairInOrder(x: Replacement, y: Replacement)
    requires x.position <= y.position
    ensures SortByPosition([x, y]) == [x, y]
  {
    var one, two := [x], [x, y];
    assert two[..1] == one && two[1] == y;
    assert one[..0] == [] && one[0] == x;
    assert SortByPosition(one) == InsertByPosition(x, SortByPosition([])) == [x];
    assert SortByPosition(two) == InsertByPosition(y, one);
  }

  /** The rewrite of a text whose two ends are the opening and the closing
    * delimiter of unit `j`. */
  lemma InterleaveOneSpan(source: string, rules: seq<FormattingRule>, j: nat, m: int)
    requires j < |rules| && |rules[j].markdownTag| <= m && m + |rules[j].markdownTag| == |source|
    ensures var events := [Replacement(0, true, j), Replacement(m, false, j)];
      && WellSpaced(source, events, rules)
      && Interleave(source, events, rules) ==
         rules[j].htmlOpeningTag + source[|rules[j].markdownTag|..m] + rules[j].htmlClosingTag
  {
    var d := |rules[j].markdownTag|;
    var x, y := Replacement(0, true, j), Replacement(m, false, j);
    var events := [x, y];
    assert WellSpaced(source, events, rules);
    assert events[..1] == [x] && [x][..0] == [];
    assert Copied(source, [x], rules) == rules[j].htmlOpeningTag;
    assert Cursor(source, [x], rules) == d;
    assert Copied(source, events, rules) == rules[j].htmlOpeningTag + source[d..m] + rules[j].htmlClosingTag;
    assert source[Cursor(source, events, rules)..] == [];
  }

  /** The whole pipeline when unit `j` alone matches, at both ends of the
    * text: the result is the inside of the text between the unit's tags. */
  lemma OneSpan(rules: seq<FormattingRule>, source: string, j: nat, m: int)
    requires j < |rules| && 0 < m
    requires |rules[j].markdownTag| <= m && m + |rules[j].markdownTag| == |source|
    requires Openings(rules[j], source) == [0, m] && Closings(rules[j], source) == [0, m]
    requires forall k :: 0 <= k < |rules| && k != j ==> Openings(rules[k], source) == [] && Closings(rules[k], source) == []
    ensures var events := Events(Levels(rules, source));
      && events == [Replacement(0, true, j), Replacement(m, false, j)]
      && WellSpaced(source, events, rules)
      && Interleave(source, events, rules) ==
         rules[j].htmlOpeningTag + source[|rules[j].markdownTag|..m] + rules[j].htmlClosingTag
  {
    LevelsOneSpan(rules, source, j, m);
    EventsOneRow(Levels(rules, source), j, Pair(0, m));
    InterleaveOneSpan(source, rules, j, m);
  }
}
