/** Why the rewrite of Markdown/Md.cs never trips over itself: masking
  * with closed segments and the pairing rule give every event its own
  * position, each event stands on a real match of its unit's pattern,
  * and when the units' matches cannot overlap in the text the events
  * are well spaced, so the rewrite is the copy-and-interleave of MdSpec. */
module MdWellFormed {
  import opened FormattingRule
  import opened PairFinder
  import opened MdSpec

  /** Each level is chained, and both ends of each of its pairs lie
    * outside the segments of the earlier levels. */
  predicate Resolved(levels: seq<seq<Pair>>) {
    forall l :: 0 <= l < |levels| ==>
      && Chained(levels[l])
      && forall p: Pair :: p in levels[l] ==> !InAnyScope(levels[..l], p.a) && !InAnyScope(levels[..l], p.b)
  }

  lemma MatchesIncreasing(s: string, delim: Delimiter, pattern: Lookaround)
    ensures StrictlyIncreasing(Matches(s, delim, pattern))
  {
    var r := Matches(s, delim, pattern);
    forall k, l | 0 <= k < l < |r| ensures r[k] < r[l] {
      assert r[k] + |delim| <= r[l];
    }
  }

  /** The pair table that Md.RenderToHtml builds is resolved. */
  lemma LevelsResolved(rules: seq<FormattingRule>, source: string)
    ensures Resolved(Levels(rules, source))
  {
    var levels := Levels(rules, source);
    forall l | 0 <= l < |levels|
      ensures Chained(levels[l])
      ensures forall p: Pair :: p in levels[l] ==> !InAnyScope(levels[..l], p.a) && !InAnyScope(levels[..l], p.b)
    {
      LevelsAt(rules, source, l);
      var rule := rules[l];
      var openings := Unscoped(Openings(rule, source), levels[..l]);
      var closings := Unscoped(Closings(rule, source), levels[..l]);
      MatchesIncreasing(source, rule.markdownTag, rule.openingPattern);
      MatchesIncreasing(source, rule.markdownTag, rule.closingPattern);
      UnscopedIncreasing(Openings(rule, source), levels[..l]);
      UnscopedIncreasing(Closings(rule, source), levels[..l]);
      FindPairsProperties(openings, closings);
    }
  }

  lemma ResolvedPrefix(levels: seq<seq<Pair>>, n: nat)
    requires Resolved(levels) && n <= |levels|
    ensures Resolved(levels[..n])
  {
    forall l | 0 <= l < n ensures levels[..n][l] == levels[l] && levels[..n][..l] == levels[..l] {
    }
  }

  /** Every event of pairs lying before `bound` lies before `bound`. */
  lemma {:induction false} SegmentEventsBelow(segments: seq<Pair>, level: nat, bound: int)
    requires forall k :: 0 <= k < |segments| ==> segments[k].a < bound && segments[k].b < bound
    ensures forall k :: 0 <= k < 2 * |segments| ==> SegmentEvents(segments, level)[k].position < bound
    decreases |segments|
  {
    if segments != [] {
      var init := segments[..|segments| - 1];
      SegmentEventsBelow(init, level, bound);
    }
  }

  /** A pair's two events and the events of the pairs before it sit at
    * different positions. */
  lemma {:induction false} SegmentEventsDistinct(segments: seq<Pair>, level: nat)
    requires Chained(segments)
    ensures DistinctPositions(SegmentEvents(segments, level))
    decreases |segments|
  {
    if segments != [] {
      var n := |segments| - 1;
      var init, last := segments[..n], segments[n];
      assert Chained(init) by {
        assert forall k :: 0 <= k < n ==> init[k] == segments[k];
      }
      SegmentEventsDistinct(init, level);
      ChainedIsOrdered(segments);
      assert forall k :: 0 <= k < n ==> init[k] == segments[k];
      SegmentEventsBelow(init, level, last.a);
      var front := SegmentEvents(init, level);
      var r := front + [Replacement(last.a, true, level), Replacement(last.b, false, level)];
      assert r == SegmentEvents(segments, level);
      forall k, l | 0 <= k < l < |r| ensures r[k].position != r[l].position {
        if l < |front| {
          assert r[k] == front[k] && r[l] == front[l];
        } else if k < |front| {
          assert r[k] == front[k];
        }
      }
    }
  }

  lemma DistinctConcat(a: seq<Replacement>, b: seq<Replacement>)
    requires DistinctPositions(a) && DistinctPositions(b)
    requires forall x, y :: x in a && y in b ==> x.position != y.position
    ensures DistinctPositions(a + b)
  {
    var r := a + b;
    forall k, l | 0 <= k < l < |r| ensures r[k].position != r[l].position {
      if k < |a| && l >= |a| {
        assert r[k] in a && r[l] in b;
      } else if k >= |a| {
        assert r[k] == b[k - |a|] && r[l] == b[l - |a|];
      }
    }
  }

  /** No two events of a resolved table share a position: within a level
    * the pairs are chained, and every event of an earlier level lies in
    * one of that level's segments, where no later level has an end. */
  lemma {:induction false} FlattenDistinct(levels: seq<seq<Pair>>)
    requires Resolved(levels)
    ensures DistinctPositions(Flatten(levels))
    decreases |levels|
  {
    if levels != [] {
      var n := |levels| - 1;
      var init := levels[..n];
      ResolvedPrefix(levels, n);
      FlattenDistinct(init);
      SegmentEventsDistinct(levels[n], n);
      assert levels == init + [levels[n]];
      CrossLevelDistinct(init, levels[n]);
      DistinctConcat(Flatten(init), SegmentEvents(levels[n], n));
    }
  }

  /** Every event of the earlier levels lies in one of their segments,
    * where the new level has no end. */
  lemma CrossLevelDistinct(init: seq<seq<Pair>>, last: seq<Pair>)
    requires Resolved(init)
    requires forall q: Pair :: q in last ==> !InAnyScope(init, q.a) && !InAnyScope(init, q.b)
    ensures forall x, y :: x in Flatten(init) && y in SegmentEvents(last, |init|) ==> x.position != y.position
  {
    forall x, y | x in Flatten(init) && y in SegmentEvents(last, |init|)
      ensures x.position != y.position
    {
      EventInScope(init, x);
      EventOutOfScope(init, last, y);
    }
  }

  lemma EventInScope(levels: seq<seq<Pair>>, x: Replacement)
    requires Resolved(levels) && x in Flatten(levels)
    ensures InAnyScope(levels, x.position)
  {
    FlattenFromLevels(levels);
    var p: Pair :| p in levels[x.level] && x.position == (if x.isOpening then p.a else p.b);
    var k :| 0 <= k < |levels[x.level]| && levels[x.level][k] == p;
    assert InLevel(levels[x.level], x.position);
  }

  lemma EventOutOfScope(init: seq<seq<Pair>>, last: seq<Pair>, y: Replacement)
    requires forall q: Pair :: q in last ==> !InAnyScope(init, q.a) && !InAnyScope(init, q.b)
    requires y in SegmentEvents(last, |init|)
    ensures !InAnyScope(init, y.position)
  {
    SegmentEventsMembers(last, |init|);
    var q: Pair :| q in last && y.position == (if y.isOpening then q.a else q.b);
  }

  /** The unit's opening pattern matches at an opening event, its closing
    * pattern at a closing event. */
  predicate Matched(rules: seq<FormattingRule>, source: string, e: Replacement) {
    && e.level < |rules|
    && (if e.isOpening then OpensAt(rules[e.level], source, e.position)
        else ClosesAt(rules[e.level], source, e.position))
  }

  lemma MatchesMatch(s: string, delim: Delimiter, pattern: Lookaround, i: int)
    requires i in Matches(s, delim, pattern)
    ensures MatchesAt(s, i, delim, pattern)
  {
    var r := Matches(s, delim, pattern);
    var k :| 0 <= k < |r| && r[k] == i;
  }

  /** Every event stands on a match of its unit's pattern. */
  lemma FlattenMatched(rules: seq<FormattingRule>, source: string)
    ensures forall e :: e in Flatten(Levels(rules, source)) ==> Matched(rules, source, e)
  {
    var levels := Levels(rules, source);
    FlattenFromLevels(levels);
    forall e | e in Flatten(levels) ensures Matched(rules, source, e) {
      var l := e.level;
      LevelsAt(rules, source, l);
      var p: Pair :| p in levels[l] && e.position == (if e.isOpening then p.a else p.b);
      var rule := rules[l];
      var openings := Unscoped(Openings(rule, source), levels[..l]);
      var closings := Unscoped(Closings(rule, source), levels[..l]);
      FindPairsProperties(openings, closings);
      if e.isOpening {
        MatchesMatch(source, rule.markdownTag, rule.openingPattern, p.a);
      } else {
        MatchesMatch(source, rule.markdownTag, rule.closingPattern, p.b);
      }
    }
  }

  /** A match of the unit's opening or of its closing pattern. */
  predicate Candidate(rule: FormattingRule, source: string, i: int) {
    OpensAt(rule, source, i) || ClosesAt(rule, source, i)
  }

  lemma CandidateStartsWithDelimiter(rule: FormattingRule, source: string, i: int)
    requires Candidate(rule, source, i)
    ensures 0 <= i < |source| && source[i] == rule.markdownTag[0]
  {
    assert source[i] == source[i..i + |rule.markdownTag|][0];
  }

  /** No two candidates of the units, at different positions, overlap in
    * the text. */
  ghost predicate CandidatesDoNotOverlap(rules: seq<FormattingRule>, source: string) {
    forall k, l, i, j ::
      (0 <= k < |rules| && 0 <= l < |rules| && i < j &&
       Candidate(rules[k], source, i) && Candidate(rules[l], source, j)) ==>
      i + |rules[k].markdownTag| <= j
  }

  /** The events of Md.cs come in strictly ascending position, and each
    * stands on a match of its unit's pattern. */
  lemma EventsAscendAndMatch(rules: seq<FormattingRule>, source: string)
    ensures var events := Events(Levels(rules, source));
      && Ascending(events)
      && forall k :: 0 <= k < |events| ==> Matched(rules, source, events[k])
  {
    var levels := Levels(rules, source);
    var flat := Flatten(levels);
    var events := Events(levels);
    LevelsResolved(rules, source);
    FlattenDistinct(levels);
    SortIsSorted(flat);
    FlattenMatched(rules, source);
    forall k | 0 <= k < |events| ensures Matched(rules, source, events[k]) {
      assert events[k] in multiset(flat);
    }
  }

  /** Ascending events on non-overlapping matches are well spaced, and
    * their delimiters stand in the source. */
  lemma MatchedEventsWellSpaced(rules: seq<FormattingRule>, source: string, events: seq<Replacement>)
    requires CandidatesDoNotOverlap(rules, source)
    requires Ascending(events)
    requires forall k :: 0 <= k < |events| ==> Matched(rules, source, events[k])
    ensures WellSpaced(source, events, rules) && DelimitersPresent(source, events, rules)
  {
    forall k | 0 <= k < |events| - 1
      ensures EndOf(rules, events[k]) <= events[k + 1].position
    {
      assert events[k].position < events[k + 1].position;
      assert Candidate(rules[events[k].level], source, events[k].position);
      assert Candidate(rules[events[k + 1].level], source, events[k + 1].position);
    }
  }

  /** When the units' candidates cannot overlap, the events of Md.cs come
    * in strictly ascending position, are well spaced, and every event's
    * delimiter stands in the source at its position. */
  lemma EventsWellSpaced(rules: seq<FormattingRule>, source: string)
    requires CandidatesDoNotOverlap(rules, source)
    ensures var events := Events(Levels(rules, source));
      && Ascending(events)
      && WellSpaced(source, events, rules)
      && DelimitersPresent(source, events, rules)
  {
    EventsAscendAndMatch(rules, source);
    MatchedEventsWellSpaced(rules, source, Events(Levels(rules, source)));
  }

  /** Spans of different levels never cross: a pair of a later level lies
    * before, after, or around a pair of an earlier level. */
  lemma ScopesNest(rules: seq<FormattingRule>, source: string, k: nat, l: nat, p: Pair, q: Pair)
    requires k < l < |rules|
    requires p in Levels(rules, source)[k] && q in Levels(rules, source)[l]
    ensures q.b < p.a || p.b < q.a || (q.a < p.a && p.b < q.b)
  {
    var levels := Levels(rules, source);
    LevelsResolved(rules, source);
    assert levels[..l][k] == levels[k];
    assert !InLevel(levels[..l][k], q.a) && !InLevel(levels[..l][k], q.b);
    ChainedIsOrdered(levels[k]);
    var m :| 0 <= m < |levels[l]| && levels[l][m] == q;
  }

  /** Text where no unit finds a candidate has no events, and the rewrite
    * leaves it as it is. */
  lemma NoCandidatesNoEvents(rules: seq<FormattingRule>, source: string)
    requires forall k, i :: 0 <= k < |rules| ==> !Candidate(rules[k], source, i)
    ensures Events(Levels(rules, source)) == []
    ensures WellSpaced(source, [], rules) && Interleave(source, [], rules) == source
  {
    var levels := Levels(rules, source);
    FlattenMatched(rules, source);
    var flat := Flatten(levels);
    if flat != [] {
      assert Matched(rules, source, flat[0]);
      assert Candidate(rules[flat[0].level], source, flat[0].position);
    }
    assert multiset(Events(levels)) == multiset(flat);
  }
}
