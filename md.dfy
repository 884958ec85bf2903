/** The renderer of Markdown/Md.cs: an object holding the ordered
  * formatting units, the paragraph tags and the table of pairs found per
  * unit, which RenderToHtml refills on every call. Each method is proved
  * equal to the pipeline functions of MdSpec. */
module Markdown {
  import opened Wrappers
  import opened PairFinder
  import opened FormattingRule
  import IntExtensions
  import NameToTagConverter
  import opened MdSpec

  /** The LINQ query `Any(interval => number.BelongsToSegment(interval))`
    * over one level of the table. */
  function AnyBelongs(segments: seq<Pair>, number: int): (r: bool)
    requires forall k :: 0 <= k < |segments| ==> segments[k].a <= segments[k].b
    ensures r <==> InLevel(segments, number)
    decreases |segments|
  {
    if segments == [] then false
    else
      IntExtensions.BelongsToSegment(number, segments[0].a, segments[0].b).value
      || AnyBelongs(segments[1..], number)
  }

  /** Removing `len` characters at `at` and inserting `html` there turns
    * the copy so far plus the rest of the source into the copy with one
    * more slice and tag, plus the source after the delimiter. */
  lemma SpliceStep(copied: string, source: string, c: int, p: int, len: nat, html: string, builder: string)
    requires 0 <= c <= p && p + len <= |source| && builder == copied + source[c..]
    ensures var at := |copied| + p - c;
      && 0 <= at && at + len <= |builder|
      && var removed := builder[..at] + builder[at + len..];
         removed[..at] + html + removed[at..] == copied + source[c..p] + html + source[p + len..]
  {
    var at := |copied| + p - c;
    var removed := builder[..at] + builder[at + len..];
    assert builder[..at] == copied + source[c..p];
    assert builder[at + len..] == source[p + len..];
    assert removed[..at] == builder[..at];
    assert removed[at..] == builder[at + len..];
  }

  /** The loop of Md.ReplaceMarkdownTagsWithHtml: each event's delimiter,
    * found at its position shifted by the growth so far, is removed and
    * the event's HTML tag inserted in its place. A removal beyond the text
    * fails, as StringBuilder's does. */
  method ApplyReplacements(source: string, events: seq<Replacement>, formatters: seq<FormattingRule>)
    returns (r: Result<string, MdError>)
    requires forall k :: 0 <= k < |events| ==> events[k].level < |formatters|
    ensures r.Success? ==> |r.value| == |source| + Growth(events, formatters)
    ensures WellSpaced(source, events, formatters) ==> r == Success(Interleave(source, events, formatters))
  {
    var spaced := WellSpaced(source, events, formatters);
    var builder := source;
    var offset := 0;
    for n := 0 to |events|
      invariant |builder| == |source| + offset
      invariant offset == Growth(events[..n], formatters)
      invariant spaced ==> WellSpaced(source, events[..n], formatters)
      invariant spaced ==> builder == Copied(source, events[..n], formatters) + source[Cursor(source, events[..n], formatters)..]
    {
      var replacement := events[n];
      var formatter := formatters[replacement.level];
      var at := offset + replacement.position;
      var len := |formatter.markdownTag|;
      var html := if replacement.isOpening then formatter.htmlOpeningTag else formatter.htmlClosingTag;
      assert html == HtmlOf(formatters, replacement) && len == |MarkdownOf(formatters, replacement)|;
      GrowthStep(events, formatters, n);
      if spaced {
        RewriteStep(source, events, formatters, n, builder, offset, at, len, html);
      }
      if at < 0 || at + len > |builder| {
        return Failure(ArgumentOutOfRange);
      }
      builder := builder[..at] + builder[at + len..];
      builder := builder[..at] + html + builder[at..];
      offset := offset + |html| - len;
    }
    assert events[..|events|] == events;
    return Success(builder);
  }

  /** The segments of the first `upTo` levels are proper: a <= b. */
  predicate SegmentsProper(levels: seq<seq<Pair>>, upTo: nat) {
    forall l, k :: 0 <= l < upTo && l < |levels| && 0 <= k < |levels[l]| ==> levels[l][k].a <= levels[l][k].b
  }

  lemma ProperSnoc(levels: seq<seq<Pair>>, i: nat, pairs: seq<Pair>)
    requires i < |levels| && SegmentsProper(levels, i)
    requires forall k :: 0 <= k < |pairs| ==> pairs[k].a < pairs[k].b
    ensures SegmentsProper(levels[i := pairs], i + 1)
  {
  }

  class Md {
    const formatters: seq<FormattingRule>
    const openingParagraph: string
    const closingParagraph: string
    /** The pairs found for each unit, indexed by the unit's priority. */
    var levels: seq<seq<Pair>>

    /** The paragraph tags come from the paragraph element's name. */
    constructor (formatters: seq<FormattingRule>, paragraphSymbol: string)
      ensures this.formatters == formatters && levels == []
      ensures openingParagraph == NameToTagConverter.OpeningTag(paragraphSymbol)
      ensures closingParagraph == NameToTagConverter.ClosingTag(paragraphSymbol)
    {
      this.formatters := formatters;
      var tags := NameToTagConverter.GetTagFromName(Some(paragraphSymbol)).value;
      openingParagraph, closingParagraph := tags.0, tags.1;
      levels := [];
    }

    /** Whether `number` lies in a closed segment of one of the levels
      * before `scopePriority`, looking from the nearest level down. */
    method IntersectsWithAnyScope(scopePriority: nat, number: int) returns (b: bool)
      requires scopePriority <= |levels| && SegmentsProper(levels, scopePriority)
      ensures b <==> InAnyScope(levels[..scopePriority], number)
    {
      var scopes := levels[..scopePriority];
      var i := scopePriority - 1;
      while i >= 0
        invariant -1 <= i < scopePriority
        invariant forall l :: i < l < scopePriority ==> !InLevel(scopes[l], number)
      {
        if AnyBelongs(levels[i], number) {
          assert InLevel(scopes[i], number);
          return true;
        }
        i := i - 1;
      }
      return false;
    }

    /** The LINQ query `Where(index => !IntersectsWithAnyScope(...))`. */
    method WhereOutsideScopes(candidates: seq<int>, scopePriority: nat) returns (kept: seq<int>)
      requires scopePriority <= |levels| && SegmentsProper(levels, scopePriority)
      ensures kept == Unscoped(candidates, levels[..scopePriority])
    {
      kept := [];
      for k := 0 to |candidates|
        invariant kept == Unscoped(candidates[..k], levels[..scopePriority])
      {
        var inside := IntersectsWithAnyScope(scopePriority, candidates[k]);
        if !inside {
          kept := kept + [candidates[k]];
        }
        assert candidates[..k + 1][..k] == candidates[..k];
      }
      assert candidates[..|candidates|] == candidates;
    }

    /** The pairs of one unit: its opening and closing matches outside
      * the segments of the earlier levels, paired greedily. */
    method GetIndexesForTagType(formatter: FormattingRule, scopePriority: nat, source: string) returns (pairs: seq<Pair>)
      requires scopePriority <= |levels| && SegmentsProper(levels, scopePriority)
      ensures pairs == LevelPairs(formatter, levels[..scopePriority], source)
      ensures forall k :: 0 <= k < |pairs| ==> pairs[k].a < pairs[k].b
    {
      var openings := WhereOutsideScopes(Openings(formatter, source), scopePriority);
      var closings := WhereOutsideScopes(Closings(formatter, source), scopePriority);
      pairs := FindTagPairs(openings, closings);
      assert forall k :: 0 <= k < |pairs| ==> pairs[k] in pairs;
    }

    /** One opening and one closing event per pair, level by level, then
      * ordered by position with a stable sort. */
    method GetReplacementsInOrder() returns (events: seq<Replacement>)
      ensures events == Events(levels)
    {
      var result := [];
      for i := 0 to |levels|
        invariant result == Flatten(levels[..i])
      {
        var level := levels[i];
        for j := 0 to |level|
          invariant result == Flatten(levels[..i]) + SegmentEvents(level[..j], i)
        {
          var segment := level[j];
          result := result + [Replacement(segment.a, true, i), Replacement(segment.b, false, i)];
          assert level[..j + 1][..j] == level[..j];
        }
        assert level[..|level|] == level;
        assert levels[..i + 1][..i] == levels[..i];
      }
      assert levels[..|levels|] == levels;
      events := SortByPosition(result);
    }

    /** The rewrite of the text along the events of the pair table. */
    method ReplaceMarkdownTagsWithHtml(source: string) returns (r: Result<string, MdError>)
      requires |levels| <= |formatters|
      ensures r.Success? ==> |r.value| == |source| + Growth(Events(levels), formatters)
      ensures WellSpaced(source, Events(levels), formatters) ==>
        r == Success(Interleave(source, Events(levels), formatters))
    {
      var events := GetReplacementsInOrder();
      r := ApplyReplacements(source, events, formatters);
    }

    /** Fills the pair table unit by unit in priority order, each unit's
      * candidates masked by the pairs of the units before it. */
    method FillLevels(s: string)
      modifies this
      ensures levels == Levels(formatters, s)
    {
      ghost var table := Levels(formatters, s);
      levels := seq(|formatters|, _ => []);
      for i := 0 to |formatters|
        invariant |levels| == |formatters|
        invariant levels[..i] == table[..i]
        invariant SegmentsProper(levels, i)
      {
        var pairs := GetIndexesForTagType(formatters[i], i, s);
        LevelsAt(formatters, s, i);
        ProperSnoc(levels, i, pairs);
        levels := levels[i := pairs];
        SliceSnoc(levels, i);
        SliceSnoc(table, i);
      }
      assert levels == levels[..|formatters|];
    }

    /** Renders a text: fills the pair table, rewrites the text and wraps
      * it in the paragraph tags. A missing text fails and leaves the
      * table as it was. */
    method RenderToHtml(source: Option<string>) returns (r: Result<string, MdError>)
      modifies this
      ensures source.None? ==> r == Failure(ArgumentNull) && levels == old(levels)
      ensures source.Some? ==> levels == Levels(formatters, source.value)
      ensures source.Some? && WellSpaced(source.value, Events(levels), formatters) ==>
        r == Success(openingParagraph + Interleave(source.value, Events(levels), formatters) + closingParagraph)
    {
      if source.None? {
        return Failure(ArgumentNull);
      }
      FillLevels(source.value);
      var text := ReplaceMarkdownTagsWithHtml(source.value);
      match text
      case Failure(e) => r := Failure(e);
      case Success(body) => r := Success(openingParagraph + body + closingParagraph);
    }
  }

  /** A prefix one longer is the prefix and the next element. */
  lemma SliceSnoc<T>(s: seq<T>, i: nat)
    requires i < |s|
    ensures s[..i + 1] == s[..i] + [s[i]]
  {
  }

  /** One step of the rewrite loop on well-spaced events: the delimiter
    * lies within the text, and removing it and inserting the tag extends
    * the copy by one slice and one tag. */
  lemma RewriteStep(source: string, events: seq<Replacement>, rules: seq<FormattingRule>, n: nat,
                    builder: string, offset: int, at: int, len: nat, html: string)
    requires WellSpaced(source, events, rules) && n < |events|
    requires WellSpaced(source, events[..n], rules)
    requires builder == Copied(source, events[..n], rules) + source[Cursor(source, events[..n], rules)..]
    requires offset == Growth(events[..n], rules)
    requires at == offset + events[n].position && len == |MarkdownOf(rules, events[n])|
    requires html == HtmlOf(rules, events[n])
    ensures 0 <= at && at + len <= |builder|
    ensures WellSpaced(source, events[..n + 1], rules)
    ensures (builder[..at] + builder[at + len..])[..at] + html + (builder[..at] + builder[at + len..])[at..] ==
           Copied(source, events[..n + 1], rules) + source[Cursor(source, events[..n + 1], rules)..]
  {
    var e := events[n];
    CopiedStep(source, events, rules, n);
    var copied, c := Copied(source, events[..n], rules), Cursor(source, events[..n], rules);
    SpliceStep(copied, source, c, e.position, len, html, builder);
  }
}
