# Markdown to HTML renderer, modelled in Dafny

This project models the renderer of the `Markdown` repository. It turns a small
markdown dialect into HTML: `_em_`, `__strong__` and `` `code` ``. The work has four steps:

1. Every formatting unit finds the positions where its delimiter may open or close a span.
2. Units run in priority order. Each unit drops the candidates that lie in a closed segment
   already claimed by an earlier unit.
3. The remaining openings and closings are paired greedily (`PairFinder`).
4. The text is rewritten left to right. Each delimiter is replaced by its HTML tag, and a
   running offset tracks how much the text has grown.

Module by module:

- `PairFinder` holds the two-cursor loop `FindTagPairs`. It is proved equal to the recursive
  specification `FindPairs`. Lemmas show that pairs come from the inputs and that there are no
  more pairs than inputs. With increasing inputs, the pairs are chained (ordered, disjoint, a
  closing never reused as an opening), and no opening or closing lies strictly inside a pair.
- `IntExtensions` and `NameToTagConverter` are the two small pure helpers.
- `FormattingRule` is the shared record of a unit. Each regular expression
  `(?<![X])delim(?![Y])` becomes a lookaround predicate on the neighbouring characters.
  `Regex.Matches` becomes a left-to-right scan that resumes after each match.
- `SingleUnderscore`, `DoubleUnderscore` and `CodeTag` are the units that `Md` consumes.
- `MdSpec` is the functional specification of the pipeline:
  - masking (`Unscoped`);
  - the per-level pair table (`Levels`);
  - the replacement events, ordered by a stable insertion sort (`Events`);
  - the copy-and-interleave result (`Interleave`) with its length (`Growth`).
- `MdWellFormed` proves the following, for any units whose candidates do not overlap:
  - the events have distinct positions;
  - every event stands on its own delimiter;
  - the events are well spaced, so the rewrite is defined;
  - spans of different levels nest or are disjoint.
- `Markdown` is the class `Md`. It keeps the pair table as a mutable field, and each method
  is proved equal to its `MdSpec` counterpart. The rewrite loop keeps the `offset` variable
  and the remove/insert steps of `StringBuilder`.
- `MdSpans` runs the pipeline on a text where a single unit matches, once at each end. The
  table then holds that one pair, and the rewrite puts the unit's tags around the inside.
- `MdDefaults` is the set-up the tests use: `_`, `__` and `` ` `` with the paragraph `p`.
  For every text its candidates do not overlap, so the rewrite always succeeds.
  `RenderWithDefaults` is proved to return `Render(s)`.
- `MdExamples` proves the remaining `Md_Should` strings one by one. Delimiters without a
  partner stay literal. Spans of one unit can sit side by side. The `_` span masks the `__`
  delimiters inside it, and a `_` span nests inside a `__` span.
- `Italic`, `EscapeSymbol`, `Bold` and `Cursive` come from a later iteration of the code.
  They are plain records with their legality predicates. The renderer that consumes them is
  not part of the repository's `Md.cs`.

Matching uses ASCII digits and ASCII white space for `\d` and `\s`.

## Model

| member | source | states |
|---|---|---|
| PairFinder.FindTagPairs | Markdown/PairFinder.cs:7-43 | the loop returns exactly `FindPairs`; at most min(openings, closings) pairs; each pair takes its opening from the openings and its closing from the closings, and opens before it closes; with strictly increasing inputs the result is chained |
| PairFinder.PairsFromTakeFromInputs | Markdown/PairFinder.cs:19-38 | every pair takes one opening and one closing from the remaining inputs, with a < b, and the pair count is bounded by the remaining openings and closings |
| PairFinder.PairsFromChained | Markdown/PairFinder.cs:25-31 | with strictly increasing inputs, each pair closes before the next one opens; the skip by 2 when the next opening equals the closing keeps a closing from being reused |
| PairFinder.PairsFromNearest | Markdown/PairFinder.cs:14-31 | no opening and no closing lies strictly inside an emitted pair: a later opening before the closing replaces the earlier one |
| PairFinder.ChainedIsOrdered | Markdown/PairFinder.cs:25-31 | chained pairs are pairwise disjoint and ascending, not only neighbouring ones |
| PairFinder.FindPairsProperties | Markdown/PairFinder.cs:12-41 | the whole pairing: membership, a < b, count bound; with increasing inputs, ordered and disjoint pairs with nothing strictly inside |
| PairFinder.SingleOpening | Markdown/PairFinder.cs:14-16 | a single opening pairs with the first closing strictly after it and ignores later closings; with no closing after it there is no pair |
| PairFinder.Examples | Markdown/PairFinder_Should.cs:18-54 | the pinned cases: empty inputs, a lone opening, a lone closing, a closing before the opening, the simple pair, the crossover and the two-closing case |
| IntExtensions.BelongsToInterval | Markdown/IntExtensions.cs:7-12 | fails exactly when a > b; otherwise true iff a < n < b |
| IntExtensions.BelongsToSegment | Markdown/IntExtensions.cs:14-19 | fails exactly when a > b; otherwise true iff a <= n <= b |
| IntExtensions.IntervalWithinSegment | Markdown/IntExtensions.cs:11-18 | interval membership implies segment membership; the ends are in the segment and never in the interval |
| IntExtensions.DegenerateSegment | Markdown/IntExtensions.cs:11-18 | when a == b the interval is empty and the segment is exactly {a} |
| NameToTagConverter.GetTagFromName | Markdown/NameToTagConverter.cs:7-12 | an absent name fails; otherwise the tags are `<name>` and `</name>` |
| NameToTagConverter.OpeningTagRoundTrip | Markdown/NameToTagConverter.cs:11 | the name can be read back from the opening tag |
| NameToTagConverter.ClosingTagIsSlashedOpeningTag | Markdown/NameToTagConverter.cs:11 | the closing tag is the opening tag with `/` after `<`, one character longer |
| NameToTagConverter.TagsDetermineName | Markdown/NameToTagConverter.cs:11 | equal tags come from equal names |
| FormattingRule.Create | Markdown/SingleUnderscore.cs:19-27 | the private constructor: the name and the markdown tag are kept, the tags come from `GetTagFromName`, the patterns are stored |
| FormattingRule.ScanFrom | Markdown/Md.cs:54 | the scan reports only match positions, ascending and non-overlapping |
| FormattingRule.ScanFindsEveryMatch | Markdown/Md.cs:54-57 | for a pattern whose matches cannot overlap, the scan reports exactly the positions where it matches |
| FormattingRule.MatchesAreAllMatchPositions | Markdown/Md.cs:54-57 | `Matches` is the set of match positions of a self-disjoint pattern |
| FormattingRule.OneCharacterDelimiterSelfDisjoint | Markdown/SingleUnderscore.cs:15 | a one-character delimiter never overlaps itself |
| SingleUnderscore.SingleUnderscore | Markdown/SingleUnderscore.cs:15 | the delimiter is `_`, the element `em`, the tags `<em>`/`</em>` |
| SingleUnderscore.OpensAtExactly | Markdown/SingleUnderscore.cs:15 | an opening `_` is preceded by no `_`, digit or `\` and followed by no `_`, white space or digit; a missing neighbour does not block |
| SingleUnderscore.ClosesAtExactly | Markdown/SingleUnderscore.cs:15 | a closing `_` is preceded by no `_`, white space, digit or `\` and followed by no `_` or digit |
| SingleUnderscore.TrailingUnderscoreOpens | Markdown/SingleUnderscore.cs:15 | a `_` ending the text opens iff the character before it, if any, is not `_`, `\` or a digit: the missing next character never blocks |
| SingleUnderscore.LeadingUnderscoreCloses | Markdown/SingleUnderscore.cs:15 | a `_` starting the text closes iff the character after it, if any, is not `_` or a digit: the missing previous character never blocks |
| SingleUnderscore.AdjacentUnderscoresNeverMatch | Markdown/SingleUnderscore.cs:15 | an underscore next to another underscore neither opens nor closes |
| SingleUnderscore.MatchesAreExact | Markdown/Md.cs:54-57 | the scanned openings and closings are exactly the match positions |
| DoubleUnderscore.DoubleUnderscore | Markdown/DoubleUnderscore.cs:15 | the delimiter is `__`, the element `strong`, the tags `<strong>`/`</strong>` |
| DoubleUnderscore.OpensAtExactly | Markdown/DoubleUnderscore.cs:15 | an opening `__` has no `_`, digit or `\` before it and no `_`, white space or digit at i + 2 |
| DoubleUnderscore.ClosesAtExactly | Markdown/DoubleUnderscore.cs:15 | a closing `__` has no `_`, white space, digit or `\` before it and no `_` or digit at i + 2 |
| DoubleUnderscore.NoMatchInLongRun | Markdown/DoubleUnderscore.cs:15 | no match starts inside a run of three or more underscores |
| DoubleUnderscore.MatchesNeverOverlap | Markdown/DoubleUnderscore.cs:15 | two matches never overlap |
| DoubleUnderscore.MatchesAreExact | Markdown/Md.cs:54-57 | the scanned openings and closings are exactly the match positions |
| CodeTag.CodeTag | Markdown/CodeTag.cs:15 | the delimiter is a backtick, the element `code`, the tags `<code>`/`</code>` |
| CodeTag.OpensAtExactly | Markdown/CodeTag.cs:15 | an opening backtick is not preceded by `\` and not followed by white space |
| CodeTag.ClosesAtExactly | Markdown/CodeTag.cs:15 | a closing backtick is not preceded by white space or `\`; what follows is unconstrained |
| CodeTag.DigitsAndBackticksDoNotBlock | Markdown/CodeTag.cs:15 | digits and neighbouring backticks never block a backtick match |
| CodeTag.MatchesAreExact | Markdown/Md.cs:54-57 | the scanned openings and closings are exactly the match positions |
| MdSpec.Unscoped | Markdown/Md.cs:54-59 | a candidate is kept iff it is not in a closed segment of an earlier level |
| MdSpec.UnscopedIncreasing | Markdown/Md.cs:54-59 | filtering keeps increasing candidates increasing |
| MdSpec.Levels | Markdown/Md.cs:32-36 | one row of pairs per unit |
| MdSpec.LevelsPrefix | Markdown/Md.cs:32-36 | the table for the first n units is the first n rows of the full table, so later units never change earlier rows |
| MdSpec.LevelsAt | Markdown/Md.cs:33-35 | row k is the pairing of unit k's candidates masked by rows 0..k-1 |
| MdSpec.SegmentEventsAt | Markdown/Md.cs:68-72 | each pair contributes its opening event and then its closing event, at its level |
| MdSpec.FlattenFromLevels | Markdown/Md.cs:66-73 | every event comes from a pair of its level, at the pair's opening or closing |
| MdSpec.FlattenComplete | Markdown/Md.cs:66-73 | every pair of every level contributes both its events |
| MdSpec.InsertByPosition | Markdown/Md.cs:74 | inserting keeps all elements and adds one |
| MdSpec.SortByPosition | Markdown/Md.cs:74 | the sort is a permutation |
| MdSpec.Events | Markdown/Md.cs:63-75 | the events are a permutation of the per-pair events, in non-decreasing position, each from a pair of its level |
| MdSpec.SortIsSorted | Markdown/Md.cs:74 | the sort is non-decreasing, and strictly ascending on distinct positions |
| MdSpec.SortIsStable | Markdown/Md.cs:74 | events at equal positions keep their relative order (`OrderBy` is stable) |
| MdSpec.InsertIsStable | Markdown/Md.cs:74 | one insertion keeps the order of events at each position |
| MdSpec.Cursor | Markdown/Md.cs:79-97 | the end of the last replaced delimiter lies within the text |
| MdSpec.GrowthStep | Markdown/Md.cs:85-96 | each event grows the offset by its HTML tag length minus its delimiter length |
| MdSpec.CopiedLength | Markdown/Md.cs:79-97 | the rewritten prefix is as long as the consumed source plus the growth |
| MdSpec.InterleaveLength | Markdown/Md.cs:79-98 | the result is the source length plus the sum of (tag length - delimiter length) |
| MdSpec.CopiedStep | Markdown/Md.cs:85-96 | one event appends the untouched slice since the last delimiter and then the tag |
| MdSpec.InterleaveRestoresSource | Markdown/Md.cs:85-96 | with each tag replaced by its own delimiter the rewrite gives back the source, so the characters outside delimiters keep their order |
| MdSpec.UnrenderedKeepsSpacing | Markdown/Md.cs:85-96 | replacing tags by delimiters keeps the events well spaced |
| MdSpec.Unrendered | Markdown/Md.cs:84-96 | each rule's tags become its own delimiter |
| MdWellFormed.LevelsResolved | Markdown/Md.cs:32-60 | every row of the table is chained, and its pairs lie outside the segments of earlier rows |
| MdWellFormed.MatchesIncreasing | Markdown/Md.cs:54-57 | the scan's positions are strictly increasing |
| MdWellFormed.FlattenDistinct | Markdown/Md.cs:63-73 | no two events share a position |
| MdWellFormed.FlattenMatched | Markdown/Md.cs:54-60 | an opening event stands on an opening match of its unit and a closing event on a closing match |
| MdWellFormed.CandidateStartsWithDelimiter | Markdown/Md.cs:54-57 | a candidate starts with its delimiter's first character |
| MdWellFormed.EventsWellSpaced | Markdown/Md.cs:77-98 | when candidates of different units do not overlap, the events ascend, each delimiter is present at its event, and the delimiters do not overlap |
| MdWellFormed.ScopesNest | Markdown/Md.cs:40-59 | a later unit's pair lies before, after or around an earlier unit's pair; it never crosses it |
| MdWellFormed.NoCandidatesNoEvents | Markdown/Md.cs:63-98 | with no candidates there are no events and the rewrite is the identity |
| Markdown.AnyBelongs | Markdown/Md.cs:44 | true iff the number is in a closed segment of the level |
| Markdown.ApplyReplacements | Markdown/Md.cs:79-98 | on success the length is the source length plus the growth; on well-spaced events the loop returns exactly `Interleave` |
| Markdown.Md.constructor | Markdown/Md.cs:20-25 | keeps the units; the paragraph tags come from the paragraph symbol |
| Markdown.Md.IntersectsWithAnyScope | Markdown/Md.cs:40-50 | true iff the number lies in a closed segment of a level below the priority |
| Markdown.Md.WhereOutsideScopes | Markdown/Md.cs:55-58 | the filter returns exactly `Unscoped` |
| Markdown.Md.GetIndexesForTagType | Markdown/Md.cs:52-61 | the pairs are `LevelPairs` of the unit, each opening before it closes |
| Markdown.Md.GetReplacementsInOrder | Markdown/Md.cs:63-75 | the event list is exactly `Events` of the table |
| Markdown.Md.ReplaceMarkdownTagsWithHtml | Markdown/Md.cs:77-99 | the length formula, and on well-spaced events the interleaved text |
| Markdown.Md.FillLevels | Markdown/Md.cs:32-36 | the table becomes `Levels` of the units and the text |
| Markdown.Md.RenderToHtml | Markdown/Md.cs:27-38 | an absent text fails with ArgumentNull and changes nothing; otherwise the table is refilled, and on well-spaced events the result is the paragraph tags around the interleaved text |
| MdDefaults.DefaultCandidatesDoNotOverlap | Markdown/Md.cs:121-127 | for every text, candidates of the default units never overlap |
| MdDefaults.DefaultEventsWellSpaced | Markdown/Md.cs:121-127 | for every text the default events ascend, are well spaced and stand on their delimiters |
| MdDefaults.RenderShape | Markdown/Md.cs:37 | the output is `<p>` + body + `</p>`, seven characters longer than the source plus the growth |
| MdDefaults.RenderWithDefaults | Markdown/Md.cs:121-141 | with the test set-up an absent text fails with ArgumentNull, and any text renders to `Render(s)` |
| MdDefaults.PlainTextUnchanged | Markdown/Md.cs:130-135 | text with no underscore and no backtick comes back unchanged inside `<p>`…`</p>` |
| MdDefaults.NoDelimiterNoCandidate | Markdown/Md.cs:121-127 | without `_` and backtick no default unit has a candidate |
| MdSpans.ScanSkips | Markdown/Md.cs:54 | the scan skips a stretch of the text where the pattern does not match |
| MdSpans.MatchesAtBothEnds | Markdown/Md.cs:54-57 | a pattern that matches at both ends of the text and nowhere in between is found at exactly those two positions |
| MdSpans.NoMatches | Markdown/Md.cs:54-57 | a unit that never opens or closes has no openings and no closings |
| MdSpans.PairOfEnds | Markdown/Md.cs:60 | openings and closings both at 0 and m pair into the single pair (0, m) |
| MdSpans.UnscopedWithoutScopes | Markdown/Md.cs:55-58 | candidates outside every earlier segment are all kept |
| MdSpans.LevelsOneSpan | Markdown/Md.cs:32-36 | when only unit j matches, and at both ends, its row holds the pair (0, m) and every other row is empty |
| MdSpans.FlattenOneRow | Markdown/Md.cs:66-73 | a table with one single-pair row yields that pair's opening and closing events |
| MdSpans.EventsOneRow | Markdown/Md.cs:63-75 | the ordered events of that table are the opening at a and then the closing at b |
| MdSpans.InterleaveOneSpan | Markdown/Md.cs:79-98 | the two events are well spaced, and the rewrite is the opening tag, the inside and the closing tag |
| MdSpans.OneSpan | Markdown/Md.cs:32-98 | the whole pipeline for one matching unit: two events, well spaced, and the inside wrapped in the unit's tags |
| MdDefaults.NoUnderscoreNoMatches | Markdown/Md.cs:121-125 | without an underscore neither underscore unit has an opening or a closing |
| MdDefaults.NoBacktickNoMatches | Markdown/Md.cs:121-125 | without a backtick the code unit has no opening and no closing |
| MdDefaults.RenderOneSpan | Markdown/Md.cs:27-38 | when only default unit j matches, at both ends, the output is the paragraph around that unit's tags around the inside |
| MdDefaults.SingleUnderscoreAtEnds | Markdown/Md.cs:145-151 | in `_w_` for a plain word w the `_` unit opens and closes at both ends and nowhere else |
| MdDefaults.SingleEmphasis | Markdown/Md.cs:145-151 | a plain word between single underscores renders as `<p><em>` + w + `</em></p>` |
| MdDefaults.DoubleUnderscoreAtEnds | Markdown/Md.cs:182-189 | in `__w__` the `__` unit opens and closes at both ends and nowhere else |
| MdDefaults.StrongEmphasis | Markdown/Md.cs:182-189 | a plain word between double underscores renders as `<p><strong>` + w + `</strong></p>`; the `_` unit finds nothing |
| MdDefaults.BacktickAtEnds | Markdown/Md.cs:240-246 | in a backtick-quoted plain word the code unit opens and closes at both ends and nowhere else |
| MdDefaults.CodeSpan | Markdown/Md.cs:240-246 | a plain word between backticks renders as `<p><code>` + w + `</code></p>` |
| MdDefaults.PlainExample | Markdown/Md.cs:130-135 | `abcd` renders as `<p>abcd</p>` |
| MdDefaults.EmphasisExample | Markdown/Md.cs:145-151 | `_abcd_` renders as `<p><em>abcd</em></p>` |
| MdDefaults.StrongExample | Markdown/Md.cs:182-189 | `__ad__` renders as `<p><strong>ad</strong></p>` |
| MdDefaults.CodeExample | Markdown/Md.cs:240-246 | the backtick-quoted `ab` renders as `<p><code>ab</code></p>` |
| Italic.Create | Markdown/Italic.cs:18-24 | the markdown tag is kept, the tags come from the name, and a character is legal on a side iff it is not in that side's string |
| Italic.DefaultUnit | Markdown/Italic.cs:14 | the default is `_` for `<em>`/`</em>`, with digits and the space illegal on both sides |
| Italic.DefaultRefusesDigitsAndSpace | Markdown/Md_Should.cs:84-104 | the default refuses the digit neighbours in `a_1_2` and the space after the first `_` of `_ abcd_` |
| Italic.AsLookaround | Markdown/Italic.cs:32-40 | the legality tests are the negation of a lookaround class made of the illegal characters |
| EscapeSymbol.Repeat | Markdown/EscapeSymbol.cs:17-18 | `n` copies of the character and nothing else |
| EscapeSymbol.RepeatUnique | Markdown/EscapeSymbol.cs:17-18 | a run of one character is determined by its length |
| EscapeSymbol.Create | Markdown/EscapeSymbol.cs:14-20 | a negative amount fails; otherwise the markdown tag is `amount` symbols, the opening tag `amount / 2` symbols, and the closing tag equals the opening tag |
| EscapeSymbol.CreateDefault | Markdown/EscapeSymbol.cs:14 | the default escape symbol is `\` |
| EscapeSymbol.EscapeHalvesRun | Markdown/EscapeSymbol.cs:17-18 | the replacement is a prefix of the run, half its length rounded down; an even run is the replacement twice |
| EscapeSymbol.ShortRuns | Markdown/EscapeSymbol.cs:14-45 | one `\` is replaced by nothing and two by one; any preceding character is legal and a following one iff it is in the legal set |
| Bold.Create | Markdown/Bold.cs:14-18 | the markdown tag is kept unchanged and both tags are built from the name |
| Bold.DefaultIsDoubleUnderscore | Markdown/Bold.cs:10 | the default is `__` for `<strong>`/`</strong>`, the same as the `__` unit |
| Bold.TagsShareName | Markdown/Bold.cs:17 | the closing tag is the opening one with `/`, and the opening tag determines the name |
| Cursive.Create | Markdown/Cursive.cs:14-18 | the markdown tag is kept unchanged and both tags are built from the name |
| Cursive.DefaultIsSingleUnderscore | Markdown/Cursive.cs:10 | the default is `_` for `<em>`/`</em>`, the same as the `_` unit |
| Cursive.TagsShareName | Markdown/Cursive.cs:17 | the closing tag is the opening one with `/`, and the opening tag determines the name |
| MdExamples.DefaultMatches | Markdown/Md.cs:54-57 | a default unit's scan reports exactly the increasing lists of positions where it opens and closes |
| MdExamples.UnscopedAllOutside | Markdown/Md.cs:55-58 | increasing candidates that lie in no earlier segment are all kept, in order |
| MdExamples.UnscopedAllInside | Markdown/Md.cs:55-58 | candidates that all lie in earlier segments are all dropped |
| MdExamples.AlternatingPairs | Markdown/PairFinder.cs:12-41 | four increasing positions that each open and close pair up first with second and third with fourth |
| MdExamples.DefaultTable | Markdown/Md.cs:32-36 | the default table is the `_` row unmasked, the `__` row masked by it, and the code row masked by both |
| MdExamples.SortKeepsSorted | Markdown/Md.cs:74 | the stable sort leaves events already in position order unchanged |
| MdExamples.NoEventsRendersPlain | Markdown/Md.cs:27-38 | a text without events renders as itself inside `<p>`…`</p>` |
| MdExamples.EmptyTableRendersPlain | Markdown/Md.cs:27-38 | a text whose pair table has only empty rows renders as itself inside `<p>`…`</p>`: unpaired delimiters stay literal |
| MdExamples.UnpairedTable | Markdown/Md.cs:32-60 | when neither underscore unit pairs its candidates and the code unit has none, every row of the table is empty |
| MdExamples.InterleaveFour | Markdown/Md.cs:79-98 | the rewrite along four well-spaced events is the text with each delimiter replaced by its tag |
| MdExamples.RenderWholeSpan | Markdown/Md.cs:27-98 | two events of one unit at both ends of the text render as the paragraph around the unit's tags around the inside |
| MdExamples.AssembleFour | Markdown/Md.cs:27-98 | four events that start and end the text render as the paragraph around the tags with the text between them |
| MdExamples.InsertBelowAll | Markdown/Md.cs:74 | an event before every event of the list is inserted at its front |
| MdExamples.NestedSort | Markdown/Md.cs:74 | an outer opening found after an inner pair moves in front of it, and the outer closing stays last |
| MdExamples.SpaceAfterOpeningMatches | Markdown/Md.cs:156 | in `_ abcd_` the `_` unit opens only at 6 and closes at 0 and 6; the `__` unit finds nothing |
| MdExamples.SpaceAfterOpening | Markdown/Md.cs:153-159 | `_ abcd_` renders unchanged inside the paragraph |
| MdExamples.TwoEmphasesUnderscores | Markdown/Md.cs:164 | in `_a_b_d_` every `_` both opens and closes |
| MdExamples.TwoEmphasesTable | Markdown/Md.cs:32-36 | with those candidates the `_` row is (0, 2), (4, 6) and the other rows are empty |
| MdExamples.TwoEmphasesTextEvents | Markdown/Md.cs:63-75 | the events of `_a_b_d_` are opening, closing, opening, closing at 0, 2, 4 and 6 |
| MdExamples.TwoEmphases | Markdown/Md.cs:161-168 | `_a_b_d_` renders as `<p><em>a</em>b<em>d</em></p>` |
| MdExamples.DigitsAroundMatches | Markdown/Md.cs:173 | in `a_1_2` neither underscore unit opens or closes anywhere |
| MdExamples.DigitsAround | Markdown/Md.cs:170-175 | `a_1_2` renders unchanged inside the paragraph |
| MdExamples.SpaceAfterStrongOpeningMatches | Markdown/Md.cs:194 | in `__ abcd__` the `__` unit opens only at 7 and closes at 0 and 7; the `_` unit finds nothing |
| MdExamples.SpaceAfterStrongOpening | Markdown/Md.cs:191-197 | `__ abcd__` renders unchanged inside the paragraph |
| MdExamples.TwoStrongsUnderscores | Markdown/Md.cs:202 | in `__a__b__d__` every `__` both opens and closes |
| MdExamples.TwoStrongsTable | Markdown/Md.cs:32-36 | with those candidates the `__` row is (0, 3), (6, 9) and the other rows are empty |
| MdExamples.TwoStrongsTextEvents | Markdown/Md.cs:63-75 | the events of `__a__b__d__` are opening, closing, opening, closing at 0, 3, 6 and 9 |
| MdExamples.TwoStrongs | Markdown/Md.cs:199-206 | `__a__b__d__` renders as `<p><strong>a</strong>b<strong>d</strong></p>` |
| MdExamples.StrongInsideEmphasisTable | Markdown/Md.cs:32-59 | in `_ab __cd__ ef_` the `_` row is (0, 13) and it masks both `__` candidates, so the `__` row is empty |
| MdExamples.StrongInsideEmphasisTextEvents | Markdown/Md.cs:63-75 | the events of `_ab __cd__ ef_` are the `_` opening at 0 and closing at 13 only |
| MdExamples.StrongInsideEmphasis | Markdown/Md.cs:212-218 | `_ab __cd__ ef_` renders as `<p><em>ab __cd__ ef</em></p>`: the inner `__cd__` stays literal |
| MdExamples.EmphasisInsideStrongTable | Markdown/Md.cs:32-59 | in `__ab _cd_ ef__` the `_` row is (5, 8) and the `__` row (0, 12), which the `_` row does not mask |
| MdExamples.EmphasisInsideStrongTextEvents | Markdown/Md.cs:63-75 | the events of `__ab _cd_ ef__` in order: strong opening at 0, em opening at 5, em closing at 8, strong closing at 12 |
| MdExamples.EmphasisInsideStrong | Markdown/Md.cs:220-226 | `__ab _cd_ ef__` renders as `<p><strong>ab <em>cd</em> ef</strong></p>` |
| MdExamples.MixedUnderscoresMatches | Markdown/Md.cs:231 | in `__ab_` the `__` unit opens and closes only at 0 and the `_` unit only at 4 |
| MdExamples.MixedUnderscores | Markdown/Md.cs:228-234 | `__ab_` renders unchanged inside the paragraph: a `__` and an `_` never pair |

## Left out

- `Markdown/Program.cs` (argument handling, file I/O and paragraph splitting) is not part of this model.
- `Markdown/Header1Tag.cs` is not part of this model. It has no `MarkdownTag`, so it cannot
  plug into `Md`, and its anchors depend on .NET regular-expression semantics.
- The .NET regular-expression engine is not modelled. Each pattern is a lookaround predicate
  on the neighbouring characters. `\d` and `\s` are ASCII digits and ASCII white space, not
  the Unicode categories .NET uses.
- The `IPairFinder` and `IFormattingUnit` interfaces become the `FindTagPairs` signature and
  the `FormattingRule` record. `Md` always uses `PairFinder`.
- Null references become `Option` inputs with a `Failure` result. A null `paragraphSymbol`,
  formatter array or unit cannot be expressed.
- Markdown.Md.IntersectsWithAnyScope: requires every stored pair to have a <= b. Pairs from
  `FindTagPairs` always have a < b, so the `ArgumentException` path of `BelongsToSegment`
  cannot be reached from `RenderToHtml`.
- Markdown.ApplyReplacements: this is the loop of `ReplaceMarkdownTagsWithHtml`, taken out so
  that it can be proved on its own. Its equality with `Interleave` is proved only for
  well-spaced events. Otherwise it states only the length. `MdWellFormed.EventsWellSpaced`
  shows that events are always well spaced when candidates of different units cannot overlap,
  which holds for every text with the default units.
- Markdown.Md.FillLevels: the loop of `RenderToHtml` that fills the table, as a separate method.
- `StringBuilder` internals and performance are not modelled; the text is a `seq<char>`.
- The renderer that consumes `Italic`, `Bold`, `Cursive` and `EscapeSymbol` takes an escape
  symbol. That renderer is not part of this model, and `Md.cs` does not strip escape symbols:
  there a backslash only stops a match through the lookbehinds. The four units are modelled
  as records. The escape-stripping outcomes of `Markdown/Md_Should.cs:62-80` are therefore
  not claimed.
- Italic.Create: a null string argument would throw in the `HashSet` constructor; strings
  here are never null.
- Every `RenderToHtml` case of `Markdown/Md.cs:130-246` is proved for its exact string
  (`MdDefaults` and `MdExamples`). Each is stated as the test builds its expected text: the
  paragraph and span tags around the literal pieces. The comment under the `_a_b_d_` test
  shows a third `<em>` span, but the assertion does not, and the model follows the assertion.
- EscapeSymbol.Create: C# keeps the caller's `legalFollowings` set by reference, so a later
  change to that set by the caller changes the unit. The model stores an immutable
  `set<char>`, so this aliasing is not modelled. Nothing in `Md.cs` depends on it.
