/** The rendering pipeline of Markdown/Md.cs as functions of the source text
  * and the ordered formatting units: candidates masked by the spans of
  * earlier units, pairs per unit, replacement events ordered by position,
  * and the text rewritten by copying the slices between delimiters and
  * putting the HTML tags in their place. The class in md.dfy computes the
  * same things step by step and is proved equal to these functions. */
module MdSpec {
  import opened FormattingRule
  import opened PairFinder

  datatype MdError = ArgumentNull | ArgumentOutOfRange

  // ---------------------------------------------------------------------
  // Masking (Md.IntersectsWithAnyScope, Md.GetIndexesForTagType)
  // ---------------------------------------------------------------------

  /** `n` lies in the closed segment of one of the pairs. */
  predicate InLevel(segments: seq<Pair>, n: int) {
    exists p :: p in segments && p.a <= n <= p.b
  }

  /** `n` lies in a closed segment of a pair of one of the levels. */
  predicate InAnyScope(scopes: seq<seq<Pair>>, n: int) {
    exists k :: 0 <= k < |scopes| && InLevel(scopes[k], n)
  }

  /** The candidates outside every segment of the earlier levels, in their
    * original order: a candidate is dropped exactly when it lies in such a
    * segment, ends included. */
  function Unscoped(candidates: seq<int>, scopes: seq<seq<Pair>>): (r: seq<int>)
    ensures forall x :: x in r <==> x in candidates && !InAnyScope(scopes, x)
    decreases |candidates|
  {
    if candidates == [] then []
    else
      var init, x := candidates[..|candidates| - 1], candidates[|candidates| - 1];
      assert candidates == init + [x];
      Unscoped(init, scopes) + (if InAnyScope(scopes, x) then [] else [x])
  }

  /** Masking keeps the candidates' ascending order. */
  lemma {:induction false} UnscopedIncreasing(candidates: seq<int>, scopes: seq<seq<Pair>>)
    requires StrictlyIncreasing(candidates)
    ensures StrictlyIncreasing(Unscoped(candidates, scopes))
    decreases |candidates|
  {
    if candidates != [] {
      var init, x := candidates[..|candidates| - 1], candidates[|candidates| - 1];
      UnscopedIncreasing(init, scopes);
      var front := Unscoped(init, scopes);
      forall y | y in front ensures y < x {
        var k :| 0 <= k < |init| && init[k] == y;
      }
      var r := front + (if InAnyScope(scopes, x) then [] else [x]);
      forall k, l | 0 <= k < l < |r| ensures r[k] < r[l] {
        if l == |front| { assert r[k] in front; }
      }
    }
  }

  /** The pairs of one unit, given the pairs of the units before it. */
  function LevelPairs(rule: FormattingRule, scopes: seq<seq<Pair>>, source: string): seq<Pair> {
    FindPairs(Unscoped(Openings(rule, source), scopes), Unscoped(Closings(rule, source), scopes))
  }

  /** The pair table of Md.RenderToHtml, level by level. */
  function Levels(rules: seq<FormattingRule>, source: string): (r: seq<seq<Pair>>)
    ensures |r| == |rules|
    decreases |rules|
  {
    if rules == [] then []
    else
      var prev := Levels(rules[..|rules| - 1], source);
      prev + [LevelPairs(rules[|rules| - 1], prev, source)]
  }

  /** The table of the first n units is the first n levels of the table. */
  lemma {:induction false} LevelsPrefix(rules: seq<FormattingRule>, source: string, n: nat)
    requires n <= |rules|
    ensures Levels(rules[..n], source) == Levels(rules, source)[..n]
    decreases |rules|
  {
    if n < |rules| {
      var m := |rules| - 1;
      LevelsPrefix(rules[..m], source, n);
      assert rules[..m][..n] == rules[..n];
      LevelsInit(rules, source);
      var table := Levels(rules, source);
      assert table[..m][..n] == table[..n];
    } else {
      assert rules[..n] == rules;
    }
  }

  /** The table of all units but the last is the table without its last level. */
  lemma LevelsInit(rules: seq<FormattingRule>, source: string)
    requires rules != []
    ensures Levels(rules[..|rules| - 1], source) == Levels(rules, source)[..|rules| - 1]
  {
    var prev := Levels(rules[..|rules| - 1], source);
    var next := prev + [LevelPairs(rules[|rules| - 1], prev, source)];
    assert Levels(rules, source) == next;
    assert next[..|prev|] == prev;
  }

  /** Level k holds the pairs of unit k, whose candidates were masked by
    * the pairs of levels 0 to k - 1. */
  lemma LevelsAt(rules: seq<FormattingRule>, source: string, k: nat)
    requires k < |rules|
    ensures Levels(rules, source)[k] == LevelPairs(rules[k], Levels(rules, source)[..k], source)
  {
    LevelsPrefix(rules, source, k + 1);
    LevelsPrefix(rules, source, k);
    assert rules[..k + 1][..k] == rules[..k];
  }

  // ---------------------------------------------------------------------
  // Replacement events (Md.GetReplacementsInOrder)
  // ---------------------------------------------------------------------

  datatype Replacement = Replacement(position: int, isOpening: bool, level: nat)

  /** The event comes from a pair of its level: an opening event from the
    * pair's opening position, a closing event from its closing position. */
  predicate FromLevel(levels: seq<seq<Pair>>, e: Replacement) {
    e.level < |levels| &&
    exists p :: p in levels[e.level] && e.position == (if e.isOpening then p.a else p.b)
  }

  /** One opening and one closing event per pair, in the pairs' order. */
  function SegmentEvents(segments: seq<Pair>, level: nat): (r: seq<Replacement>)
    ensures |r| == 2 * |segments|
    decreases |segments|
  {
    if segments == [] then []
    else
      var init, last := segments[..|segments| - 1], segments[|segments| - 1];
      SegmentEvents(init, level) + [Replacement(last.a, true, level), Replacement(last.b, false, level)]
  }

  /** All events, level by level. */
  function Flatten(levels: seq<seq<Pair>>): seq<Replacement>
    decreases |levels|
  {
    if levels == [] then []
    else Flatten(levels[..|levels| - 1]) + SegmentEvents(levels[|levels| - 1], |levels| - 1)
  }

  /** Pair k gives events 2k (its opening) and 2k + 1 (its closing). */
  lemma {:induction false} SegmentEventsAt(segments: seq<Pair>, level: nat, k: nat)
    requires k < |segments|
    ensures SegmentEvents(segments, level)[2 * k] == Replacement(segments[k].a, true, level)
    ensures SegmentEvents(segments, level)[2 * k + 1] == Replacement(segments[k].b, false, level)
    decreases |segments|
  {
    var init := segments[..|segments| - 1];
    if k < |segments| - 1 {
      SegmentEventsAt(init, level, k);
    }
  }

  lemma SegmentEventsMembers(segments: seq<Pair>, level: nat)
    ensures forall e :: e in SegmentEvents(segments, level) ==>
      e.level == level && exists p :: p in segments && e.position == (if e.isOpening then p.a else p.b)
    ensures forall p :: p in segments ==>
      && Replacement(p.a, true, level) in SegmentEvents(segments, level)
      && Replacement(p.b, false, level) in SegmentEvents(segments, level)
  {
    var r := SegmentEvents(segments, level);
    forall e | e in r
      ensures e.level == level && exists p :: p in segments && e.position == (if e.isOpening then p.a else p.b)
    {
      var i :| 0 <= i < |r| && r[i] == e;
      var k := i / 2;
      SegmentEventsAt(segments, level, k);
      assert segments[k] in segments;
      assert i == 2 * k || i == 2 * k + 1;
    }
    forall p | p in segments
      ensures Replacement(p.a, true, level) in r && Replacement(p.b, false, level) in r
    {
      var k :| 0 <= k < |segments| && segments[k] == p;
      SegmentEventsAt(segments, level, k);
    }
  }

  /** Every event comes from a pair of its level. */
  lemma {:induction false} FlattenFromLevels(levels: seq<seq<Pair>>)
    ensures forall e :: e in Flatten(levels) ==> FromLevel(levels, e)
    decreases |levels|
  {
    if levels != [] {
      var n := |levels| - 1;
      var init := levels[..n];
      FlattenFromLevels(init);
      SegmentEventsMembers(levels[n], n);
      forall e | e in Flatten(levels) ensures FromLevel(levels, e) {
        if e in Flatten(init) {
          assert FromLevel(init, e);
          var p: Pair :| p in init[e.level] && e.position == (if e.isOpening then p.a else p.b);
          assert p in levels[e.level];
        } else {
          assert e in SegmentEvents(levels[n], n);
          var p: Pair :| p in levels[n] && e.position == (if e.isOpening then p.a else p.b);
        }
      }
    }
  }

  /** Every pair contributes its opening and its closing event. */
  lemma {:induction false} FlattenComplete(levels: seq<seq<Pair>>)
    ensures forall l, p :: 0 <= l < |levels| && p in levels[l] ==>
      Replacement(p.a, true, l) in Flatten(levels) && Replacement(p.b, false, l) in Flatten(levels)
    decreases |levels|
  {
    if levels != [] {
      var n := |levels| - 1;
      var init := levels[..n];
      FlattenComplete(init);
      SegmentEventsMembers(levels[n], n);
      var r := Flatten(levels);
      forall l, p | 0 <= l < |levels| && p in levels[l]
        ensures Replacement(p.a, true, l) in r && Replacement(p.b, false, l) in r
      {
        if l < n {
          assert init[l] == levels[l];
          assert Replacement(p.a, true, l) in Flatten(init);
          assert Replacement(p.b, false, l) in Flatten(init);
        }
      }
    }
  }

  predicate NonDecreasing(s: seq<Replacement>) {
    forall k, l :: 0 <= k < l < |s| ==> s[k].position <= s[l].position
  }

  predicate Ascending(s: seq<Replacement>) {
    forall k, l :: 0 <= k < l < |s| ==> s[k].position < s[l].position
  }

  predicate DistinctPositions(s: seq<Replacement>) {
    forall k, l :: 0 <= k < l < |s| ==> s[k].position != s[l].position
  }

  /** Inserts `e` after every element whose position is not greater. */
  function InsertByPosition(e: Replacement, sorted: seq<Replacement>): (r: seq<Replacement>)
    ensures multiset(r) == multiset(sorted) + multiset{e}
    decreases |sorted|
  {
    if sorted == [] || sorted[|sorted| - 1].position <= e.position then sorted + [e]
    else
      var init, last := sorted[..|sorted| - 1], sorted[|sorted| - 1];
      assert sorted == init + [last];
      InsertByPosition(e, init) + [last]
  }

  /** LINQ's OrderBy on the position: a stable sort. */
  function SortByPosition(s: seq<Replacement>): (r: seq<Replacement>)
    ensures multiset(r) == multiset(s)
    decreases |s|
  {
    if s == [] then []
    else
      var init, last := s[..|s| - 1], s[|s| - 1];
      assert s == init + [last];
      InsertByPosition(last, SortByPosition(init))
  }

  /** The replacements in the order the rewrite consumes them. */
  function Events(levels: seq<seq<Pair>>): (r: seq<Replacement>)
    ensures multiset(r) == multiset(Flatten(levels))
    ensures NonDecreasing(r)
    ensures forall e :: e in r ==> FromLevel(levels, e)
    ensures forall k :: 0 <= k < |r| ==> r[k].level < |levels|
  {
    SortedEventsFromLevels(levels);
    SortByPosition(Flatten(levels))
  }

  lemma SortedEventsFromLevels(levels: seq<seq<Pair>>)
    ensures var r := SortByPosition(Flatten(levels));
      && NonDecreasing(r)
      && (forall e :: e in r ==> FromLevel(levels, e))
      && forall k :: 0 <= k < |r| ==> r[k].level < |levels|
  {
    var flat := Flatten(levels);
    var r := SortByPosition(flat);
    FlattenFromLevels(levels);
    SortIsSorted(flat);
    forall e | e in r ensures FromLevel(levels, e) {
      assert e in multiset(r);
    }
    forall k | 0 <= k < |r| ensures r[k].level < |levels| {
      assert r[k] in r;
      assert FromLevel(levels, r[k]);
    }
  }

  /** The events with the given position, in order. */
  function AtPosition(s: seq<Replacement>, position: int): seq<Replacement>
    decreases |s|
  {
    if s == [] then []
    else AtPosition(s[..|s| - 1], position) + (if s[|s| - 1].position == position then [s[|s| - 1]] else [])
  }

  lemma {:induction false} InsertKeepsOrder(e: Replacement, sorted: seq<Replacement>)
    requires NonDecreasing(sorted)
    ensures NonDecreasing(InsertByPosition(e, sorted))
    decreases |sorted|
  {
    if sorted == [] || sorted[|sorted| - 1].position <= e.position {
      forall x | x in sorted ensures x.position <= e.position {
        var k :| 0 <= k < |sorted| && sorted[k] == x;
        assert sorted[k].position <= sorted[|sorted| - 1].position;
      }
      NonDecreasingSnoc(sorted, e);
    } else {
      var init, last := sorted[..|sorted| - 1], sorted[|sorted| - 1];
      InsertKeepsOrder(e, init);
      var front := InsertByPosition(e, init);
      forall x | x in front ensures x.position <= last.position {
        assert x in multiset(front);
        if x != e {
          assert x in multiset(init);
          var k :| 0 <= k < |init| && init[k] == x;
          assert sorted[k] == x;
        }
      }
      NonDecreasingSnoc(front, last);
    }
  }

  /** An event at or after every event of an ordered list keeps it ordered. */
  lemma NonDecreasingSnoc(s: seq<Replacement>, e: Replacement)
    requires NonDecreasing(s)
    requires forall x :: x in s ==> x.position <= e.position
    ensures NonDecreasing(s + [e])
  {
    var r := s + [e];
    forall k, l | 0 <= k < l < |r| ensures r[k].position <= r[l].position {
      assert r[k] == s[k];
      if l == |s| {
        assert s[k] in s;
      } else {
        assert r[l] == s[l];
      }
    }
  }

  lemma {:induction false} InsertKeepsAscending(e: Replacement, sorted: seq<Replacement>)
    requires Ascending(sorted)
    requires forall x :: x in sorted ==> x.position != e.position
    ensures Ascending(InsertByPosition(e, sorted))
    decreases |sorted|
  {
    if sorted == [] || sorted[|sorted| - 1].position <= e.position {
      forall x | x in sorted ensures x.position < e.position {
        var k :| 0 <= k < |sorted| && sorted[k] == x;
        if k < |sorted| - 1 {
          assert sorted[k].position < sorted[|sorted| - 1].position;
        }
      }
      AscendingSnoc(sorted, e);
    } else {
      var init, last := sorted[..|sorted| - 1], sorted[|sorted| - 1];
      assert forall x :: x in init ==> x in sorted;
      InsertKeepsAscending(e, init);
      var front := InsertByPosition(e, init);
      forall x | x in front ensures x.position < last.position {
        assert x in multiset(front);
        if x != e {
          assert x in multiset(init);
          var k :| 0 <= k < |init| && init[k] == x;
          assert sorted[k] == x;
        }
      }
      AscendingSnoc(front, last);
    }
  }

  /** An event after every event of an ascending list keeps it ascending. */
  lemma AscendingSnoc(s: seq<Replacement>, e: Replacement)
    requires Ascending(s)
    requires forall x :: x in s ==> x.position < e.position
    ensures Ascending(s + [e])
  {
    var r := s + [e];
    forall k, l | 0 <= k < l < |r| ensures r[k].position < r[l].position {
      assert r[k] == s[k];
      if l == |s| {
        assert s[k] in s;
      } else {
        assert r[l] == s[l];
      }
    }
  }

  lemma AtPositionSnoc(s: seq<Replacement>, x: Replacement, position: int)
    ensures AtPosition(s + [x], position) == AtPosition(s, position) + (if x.position == position then [x] else [])
  {
    assert (s + [x])[..|s|] == s;
  }

  lemma {:induction false} InsertIsStable(e: Replacement, sorted: seq<Replacement>, position: int)
    requires NonDecreasing(sorted)
    ensures AtPosition(InsertByPosition(e, sorted), position) ==
            AtPosition(sorted, position) + (if e.position == position then [e] else [])
    decreases |sorted|
  {
    if sorted == [] || sorted[|sorted| - 1].position <= e.position {
      AtPositionSnoc(sorted, e, position);
    } else {
      var init, last := sorted[..|sorted| - 1], sorted[|sorted| - 1];
      assert sorted == init + [last];
      InsertIsStable(e, init, position);
      var front := InsertByPosition(e, init);
      assert InsertByPosition(e, sorted) == front + [last];
      StableSnoc(init, front, e, last, position);
    }
  }

  /** Appending an event after the inserted one keeps the insertion stable. */
  lemma StableSnoc(init: seq<Replacement>, front: seq<Replacement>, e: Replacement, last: Replacement, position: int)
    requires e.position < last.position
    requires AtPosition(front, position) == AtPosition(init, position) + (if e.position == position then [e] else [])
    ensures AtPosition(front + [last], position) ==
            AtPosition(init + [last], position) + (if e.position == position then [e] else [])
  {
    var f, i := AtPosition(front, position), AtPosition(init, position);
    AtPositionSnoc(front, last, position);
    AtPositionSnoc(init, last, position);
    if e.position == position {
      AppendEmpty(f);
      AppendEmpty(i);
    } else {
      AppendEmpty(i);
      AppendEmpty(AtPosition(init + [last], position));
    }
  }

  lemma AppendEmpty<T>(s: seq<T>)
    ensures s + [] == s
  {
  }

  /** The sort orders the events by position, strictly when no two
    * events share a position. */
  lemma {:induction false} SortIsSorted(s: seq<Replacement>)
    ensures NonDecreasing(SortByPosition(s))
    ensures DistinctPositions(s) ==> Ascending(SortByPosition(s))
    decreases |s|
  {
    if s != [] {
      var init, last := s[..|s| - 1], s[|s| - 1];
      SortIsSorted(init);
      var sortedInit := SortByPosition(init);
      InsertKeepsOrder(last, sortedInit);
      if DistinctPositions(s) {
        assert DistinctPositions(init) by {
          assert forall k :: 0 <= k < |init| ==> init[k] == s[k];
        }
        forall x | x in sortedInit ensures x.position != last.position {
          assert x in multiset(init);
          var k :| 0 <= k < |init| && init[k] == x;
          assert s[k] == x;
        }
        InsertKeepsAscending(last, sortedInit);
      }
    }
  }

  /** The sort is stable: events at the same position keep their order. */
  lemma {:induction false} SortIsStable(s: seq<Replacement>, position: int)
    ensures AtPosition(SortByPosition(s), position) == AtPosition(s, position)
    decreases |s|
  {
    if s != [] {
      var init, last := s[..|s| - 1], s[|s| - 1];
      SortIsStable(init, position);
      SortIsSorted(init);
      InsertIsStable(last, SortByPosition(init), position);
    }
  }

  // ---------------------------------------------------------------------
  // The rewrite (Md.ReplaceMarkdownTagsWithHtml)
  // ---------------------------------------------------------------------

  function MarkdownOf(rules: seq<FormattingRule>, e: Replacement): string
    requires e.level < |rules|
  {
    rules[e.level].markdownTag
  }

  function HtmlOf(rules: seq<FormattingRule>, e: Replacement): string
    requires e.level < |rules|
  {
    if e.isOpening then rules[e.level].htmlOpeningTag else rules[e.level].htmlClosingTag
  }

  /** The index just after the event's delimiter in the source. */
  function EndOf(rules: seq<FormattingRule>, e: Replacement): int
    requires e.level < |rules|
  {
    e.position + |MarkdownOf(rules, e)|
  }

  /** Each event names a unit, its delimiter lies within the source, and
    * each delimiter ends at or before the next event's position. */
  predicate WellSpaced(source: string, events: seq<Replacement>, rules: seq<FormattingRule>) {
    && (forall k :: 0 <= k < |events| ==>
          events[k].level < |rules| && 0 <= events[k].position && EndOf(rules, events[k]) <= |source|)
    && (forall k :: 0 <= k < |events| - 1 ==> EndOf(rules, events[k]) <= events[k + 1].position)
  }

  lemma WellSpacedPrefix(source: string, events: seq<Replacement>, rules: seq<FormattingRule>, n: nat)
    requires WellSpaced(source, events, rules) && n <= |events|
    ensures WellSpaced(source, events[..n], rules)
  {
    assert forall k :: 0 <= k < n ==> events[..n][k] == events[k];
  }

  /** Where copying resumes after the events: the end of the last delimiter. */
  function Cursor(source: string, events: seq<Replacement>, rules: seq<FormattingRule>): (c: int)
    requires WellSpaced(source, events, rules)
    ensures 0 <= c <= |source|
  {
    if events == [] then 0 else EndOf(rules, events[|events| - 1])
  }

  /** The output up to the end of the last replaced delimiter: each slice
    * of the source since the previous delimiter, then the event's HTML tag. */
  function Copied(source: string, events: seq<Replacement>, rules: seq<FormattingRule>): string
    requires WellSpaced(source, events, rules)
    decreases |events|
  {
    if events == [] then []
    else
      var init, last := events[..|events| - 1], events[|events| - 1];
      WellSpacedPrefix(source, events, rules, |events| - 1);
      assert init != [] ==> init[|init| - 1] == events[|events| - 2];
      Copied(source, init, rules) + source[Cursor(source, init, rules)..last.position] + HtmlOf(rules, last)
  }

  /** The rewritten text: the source with every delimiter of the events
    * replaced by the event's HTML tag. */
  function Interleave(source: string, events: seq<Replacement>, rules: seq<FormattingRule>): string
    requires WellSpaced(source, events, rules)
  {
    Copied(source, events, rules) + source[Cursor(source, events, rules)..]
  }

  /** The total change of length: for each event, its HTML tag's length
    * minus its delimiter's length. */
  function Growth(events: seq<Replacement>, rules: seq<FormattingRule>): int
    requires forall k :: 0 <= k < |events| ==> events[k].level < |rules|
    decreases |events|
  {
    if events == [] then 0
    else
      var last := events[|events| - 1];
      Growth(events[..|events| - 1], rules) + |HtmlOf(rules, last)| - |MarkdownOf(rules, last)|
  }

  lemma GrowthStep(events: seq<Replacement>, rules: seq<FormattingRule>, n: nat)
    requires n < |events| && forall k :: 0 <= k < |events| ==> events[k].level < |rules|
    ensures Growth(events[..n + 1], rules) ==
      Growth(events[..n], rules) + |HtmlOf(rules, events[n])| - |MarkdownOf(rules, events[n])|
  {
    assert events[..n + 1][..n] == events[..n];
  }

  lemma {:induction false} CopiedLength(source: string, events: seq<Replacement>, rules: seq<FormattingRule>)
    requires WellSpaced(source, events, rules)
    ensures |Copied(source, events, rules)| == Cursor(source, events, rules) + Growth(events, rules)
    decreases |events|
  {
    if events != [] {
      WellSpacedPrefix(source, events, rules, |events| - 1);
      CopiedLength(source, events[..|events| - 1], rules);
    }
  }

  /** The output is |source| + Σ(|html| − |markdown|) long. */
  lemma InterleaveLength(source: string, events: seq<Replacement>, rules: seq<FormattingRule>)
    requires WellSpaced(source, events, rules)
    ensures |Interleave(source, events, rules)| == |source| + Growth(events, rules)
  {
    CopiedLength(source, events, rules);
  }

  /** The units with each HTML tag replaced by the unit's own delimiter. */
  function Unrendered(rules: seq<FormattingRule>): (r: seq<FormattingRule>)
    ensures |r| == |rules|
    ensures forall k :: 0 <= k < |rules| ==>
      && r[k].markdownTag == rules[k].markdownTag
      && r[k].htmlOpeningTag == rules[k].markdownTag
      && r[k].htmlClosingTag == rules[k].markdownTag
  {
    seq(|rules|, k requires 0 <= k < |rules| =>
      rules[k].(htmlOpeningTag := rules[k].markdownTag, htmlClosingTag := rules[k].markdownTag))
  }

  lemma UnrenderedKeepsSpacing(source: string, events: seq<Replacement>, rules: seq<FormattingRule>)
    requires WellSpaced(source, events, rules)
    ensures WellSpaced(source, events, Unrendered(rules))
    ensures Cursor(source, events, Unrendered(rules)) == Cursor(source, events, rules)
  {
    var u := Unrendered(rules);
    assert forall e: Replacement :: e.level < |rules| ==> EndOf(u, e) == EndOf(rules, e);
  }

  /** Every event's delimiter really stands in the source at its position. */
  predicate DelimitersPresent(source: string, events: seq<Replacement>, rules: seq<FormattingRule>)
    requires WellSpaced(source, events, rules)
  {
    forall k :: 0 <= k < |events| ==>
      source[events[k].position..EndOf(rules, events[k])] == MarkdownOf(rules, events[k])
  }

  lemma DelimitersPresentPrefix(source: string, events: seq<Replacement>, rules: seq<FormattingRule>, n: nat)
    requires WellSpaced(source, events, rules) && DelimitersPresent(source, events, rules) && n <= |events|
    ensures WellSpaced(source, events[..n], rules) && DelimitersPresent(source, events[..n], rules)
  {
    WellSpacedPrefix(source, events, rules, n);
    forall k | 0 <= k < n
      ensures source[events[..n][k].position..EndOf(rules, events[..n][k])] == MarkdownOf(rules, events[..n][k])
    {
      assert events[..n][k] == events[k];
    }
  }

  /** One step of Copied, spelled out. */
  lemma CopiedLast(source: string, events: seq<Replacement>, rules: seq<FormattingRule>)
    requires WellSpaced(source, events, rules) && events != []
    ensures WellSpaced(source, events[..|events| - 1], rules)
    ensures var init, last := events[..|events| - 1], events[|events| - 1];
      && Cursor(source, init, rules) <= last.position
      && Copied(source, events, rules) ==
           Copied(source, init, rules) + source[Cursor(source, init, rules)..last.position] + HtmlOf(rules, last)
  {
    WellSpacedPrefix(source, events, rules, |events| - 1);
    var init := events[..|events| - 1];
    if init != [] {
      assert init[|init| - 1] == events[|events| - 2];
    }
  }

  /** `u` has the delimiters of `rules`, each one also standing as its own HTML tags. */
  predicate SelfTagged(u: seq<FormattingRule>, rules: seq<FormattingRule>) {
    && |u| == |rules|
    && forall k :: 0 <= k < |rules| ==>
         && u[k].markdownTag == rules[k].markdownTag
         && u[k].htmlOpeningTag == rules[k].markdownTag
         && u[k].htmlClosingTag == rules[k].markdownTag
  }

  lemma {:induction false} CopiedSelfTagged(source: string, events: seq<Replacement>,
                                            rules: seq<FormattingRule>, u: seq<FormattingRule>)
    requires WellSpaced(source, events, rules) && DelimitersPresent(source, events, rules)
    requires SelfTagged(u, rules)
    requires WellSpaced(source, events, u)
    ensures Copied(source, events, u) == source[..Cursor(source, events, rules)]
    decreases |events|
  {
    if events != [] {
      var init, last := events[..|events| - 1], events[|events| - 1];
      DelimitersPresentPrefix(source, events, rules, |events| - 1);
      WellSpacedPrefix(source, events, u, |events| - 1);
      CopiedSelfTagged(source, init, rules, u);
      CopiedLast(source, events, u);
      SelfTaggedCursor(source, init, rules, u);
      SelfTaggedLast(source, events, rules, u);
      SlicesJoin(source, Cursor(source, init, rules), last.position, EndOf(rules, last), HtmlOf(u, last));
    }
  }

  /** The copy resumes at the same place whether the tags are replaced or kept. */
  lemma SelfTaggedCursor(source: string, events: seq<Replacement>, rules: seq<FormattingRule>, u: seq<FormattingRule>)
    requires WellSpaced(source, events, rules) && SelfTagged(u, rules) && WellSpaced(source, events, u)
    ensures Cursor(source, events, u) == Cursor(source, events, rules)
  {
    if events != [] {
      SelfTaggedTags(u, rules, events[|events| - 1]);
    }
  }

  /** The last event's tag under `u` is the delimiter standing in the source. */
  lemma SelfTaggedLast(source: string, events: seq<Replacement>, rules: seq<FormattingRule>, u: seq<FormattingRule>)
    requires WellSpaced(source, events, rules) && DelimitersPresent(source, events, rules)
    requires SelfTagged(u, rules) && events != []
    ensures var last := events[|events| - 1];
      && 0 <= last.position <= EndOf(rules, last) <= |source|
      && HtmlOf(u, last) == source[last.position..EndOf(rules, last)]
  {
    var k := |events| - 1;
    SelfTaggedTags(u, rules, events[k]);
    assert source[events[k].position..EndOf(rules, events[k])] == MarkdownOf(rules, events[k]);
  }

  lemma SlicesJoin(s: string, c: int, p: int, e: int, tag: string)
    requires 0 <= c <= p <= e <= |s| && tag == s[p..e]
    ensures s[..c] + s[c..p] + tag == s[..e]
  {
    assert s[..e] == s[..c] + s[c..p] + s[p..e];
  }

  lemma SelfTaggedTags(u: seq<FormattingRule>, rules: seq<FormattingRule>, e: Replacement)
    requires SelfTagged(u, rules) && e.level < |rules|
    ensures HtmlOf(u, e) == MarkdownOf(rules, e) && EndOf(u, e) == EndOf(rules, e)
  {
  }

  /** One event more: the copy grows by the slice up to the event's
    * position and the event's HTML tag, and copying resumes after the
    * event's delimiter. */
  lemma CopiedStep(source: string, events: seq<Replacement>, rules: seq<FormattingRule>, n: nat)
    requires WellSpaced(source, events, rules) && n < |events|
    ensures WellSpaced(source, events[..n], rules) && WellSpaced(source, events[..n + 1], rules)
    ensures var e, c := events[n], Cursor(source, events[..n], rules);
      && c <= e.position
      && |Copied(source, events[..n], rules)| == c + Growth(events[..n], rules)
      && Copied(source, events[..n + 1], rules) ==
           Copied(source, events[..n], rules) + source[c..e.position] + HtmlOf(rules, e)
      && Cursor(source, events[..n + 1], rules) == EndOf(rules, e)
      && Growth(events[..n + 1], rules) == Growth(events[..n], rules) + |HtmlOf(rules, e)| - |MarkdownOf(rules, e)|
  {
    WellSpacedPrefix(source, events, rules, n);
    WellSpacedPrefix(source, events, rules, n + 1);
    CopiedLength(source, events[..n], rules);
    var front := events[..n + 1];
    assert front[..n] == events[..n] && front[n] == events[n];
    CopiedLast(source, front, rules);
  }

  /** Turning every HTML tag back into its delimiter gives the source back:
    * the rewrite changes nothing but the delimiters, and keeps the order
    * of everything else. */
  lemma InterleaveRestoresSource(source: string, events: seq<Replacement>, rules: seq<FormattingRule>)
    requires WellSpaced(source, events, rules) && DelimitersPresent(source, events, rules)
    ensures WellSpaced(source, events, Unrendered(rules))
    ensures Interleave(source, events, Unrendered(rules)) == source
  {
    UnrenderedKeepsSpacing(source, events, rules);
    CopiedSelfTagged(source, events, rules, Unrendered(rules));
  }
}
