/** The predicate-based emphasis unit of a later iteration of the code
  * (Markdown/Italic.cs): a markdown tag, the HTML tags of an element name,
  * and two sets of characters that may not stand before or after the tag.
  * The renderer that consumes such units is not part of this model. */
module Italic {
  import opened FormattingRule
  import NameToTagConverter
  import opened Wrappers

  datatype Italic = Italic(
    markdownTag: string,
    htmlOpeningTag: string,
    htmlClosingTag: string,
    illegalFollowings: set<char>,
    illegalPrecedings: set<char>)
  {
    predicate IsLegalPrecedingCharacter(ch: char) {
      ch !in illegalPrecedings
    }

    predicate IsLegalFollowingCharacter(ch: char) {
      ch !in illegalFollowings
    }
  }

  /** The characters of a string, as `new HashSet<char>(s)` collects them. */
  function CharsOf(s: string): (r: set<char>)
    ensures forall ch :: ch in r <==> ch in s
  {
    set ch | ch in s
  }

  /** The four-argument constructor: the markdown tag is kept as given, the
    * HTML tags come from the element name, and a character is legal on a
    * side exactly when it does not occur in that side's string. */
  function Create(htmlTag: string, markdownOpeningTag: string, illegalPreceding: string, illegalFollowing: string): (r: Italic)
    ensures r.markdownTag == markdownOpeningTag
    ensures (r.htmlOpeningTag, r.htmlClosingTag) == NameToTagConverter.GetTagFromName(Some(htmlTag)).value
    ensures forall ch :: r.IsLegalPrecedingCharacter(ch) <==> ch !in illegalPreceding
    ensures forall ch :: r.IsLegalFollowingCharacter(ch) <==> ch !in illegalFollowing
  {
    var tags := NameToTagConverter.GetTagFromName(Some(htmlTag)).value;
    Italic(markdownOpeningTag, tags.0, tags.1, CharsOf(illegalFollowing), CharsOf(illegalPreceding))
  }

  /** The parameterless constructor: `_` for `em`, digits and the space
    * illegal on both sides. */
  function Default(): Italic {
    Create("em", "_", "1234567890 ", "1234567890 ")
  }

  /** The default unit: `_` becomes `<em>`/`</em>`, and a neighbour is legal
    * exactly when it is neither an ASCII digit nor the space. */
  lemma DefaultUnit()
    ensures Default().markdownTag == "_"
    ensures Default().htmlOpeningTag == "<em>" && Default().htmlClosingTag == "</em>"
    ensures forall ch :: Default().IsLegalPrecedingCharacter(ch) <==> !(IsDigit(ch) || ch == ' ')
    ensures forall ch :: Default().IsLegalFollowingCharacter(ch) <==> !(IsDigit(ch) || ch == ' ')
  {
    forall ch
      ensures (ch in "1234567890 ") <==> (IsDigit(ch) || ch == ' ')
    {
      if IsDigit(ch) {
        assert ch == "1234567890 "[(ch as int - '1' as int + 10) % 10];
      }
    }
  }

  /** The default unit refuses the neighbours of the underscores in `a_1_2`
    * (a digit on one side of each) and the opening `_` of `_ abcd_`
    * (a space after it). */
  lemma DefaultRefusesDigitsAndSpace()
    ensures !Default().IsLegalFollowingCharacter("a_1_2"[2]) && !Default().IsLegalPrecedingCharacter("a_1_2"[2])
    ensures !Default().IsLegalFollowingCharacter("a_1_2"[4])
    ensures !Default().IsLegalFollowingCharacter("_ abcd_"[1])
  {
    DefaultUnit();
  }

  /** The legality tests as a lookaround of the regular-expression units:
    * a neighbour is legal exactly when the corresponding class, made of the
    * illegal characters alone, does not contain it. */
  function AsLookaround(unit: Italic): (r: Lookaround)
    ensures forall ch :: unit.IsLegalPrecedingCharacter(ch) <==> !r.notPrecededBy.Contains(ch)
    ensures forall ch :: unit.IsLegalFollowingCharacter(ch) <==> !r.notFollowedBy.Contains(ch)
  {
    Lookaround(CharClass(unit.illegalPrecedings, false, false), CharClass(unit.illegalFollowings, false, false))
  }
}
