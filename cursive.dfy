/** The emphasis record of a later iteration of the code
  * (Markdown/Cursive.cs): a markdown tag and the HTML tags of an element name. */
module Cursive {
  import NameToTagConverter
  import opened Wrappers
  import SingleUnderscore

  datatype Cursive = Cursive(markdownTag: string, htmlOpeningTag: string, htmlClosingTag: string)

  /** The two-argument constructor: the markdown tag is kept as given and
    * both HTML tags are built from the one element name. */
  function Create(htmlTag: string, markdownOpeningTag: string): (r: Cursive)
    ensures r.markdownTag == markdownOpeningTag
    ensures r.htmlOpeningTag == "<" + htmlTag + ">" && r.htmlClosingTag == "</" + htmlTag + ">"
  {
    var tags := NameToTagConverter.GetTagFromName(Some(htmlTag)).value;
    Cursive(markdownOpeningTag, tags.0, tags.1)
  }

  /** The parameterless constructor: `_` for `em`. */
  function Default(): Cursive {
    Create("em", "_")
  }

  /** The default record carries the delimiter and tags of the `_` unit
    * that Markdown/Md.cs consumes. */
  lemma DefaultIsSingleUnderscore()
    ensures Default() == Cursive("_", "<em>", "</em>")
    ensures var d := SingleUnderscore.SingleUnderscore();
      Default() == Cursive(d.markdownTag, d.htmlOpeningTag, d.htmlClosingTag)
  {
  }

  /** Both tags derive from the same name: the closing tag is the opening
    * one with `/` after `<`, and equal tags mean equal names. */
  lemma TagsShareName(htmlTag: string, other: string, markdownTag: string)
    ensures var c := Create(htmlTag, markdownTag);
      c.htmlClosingTag == c.htmlOpeningTag[..1] + "/" + c.htmlOpeningTag[1..]
    ensures Create(htmlTag, markdownTag).htmlOpeningTag == Create(other, markdownTag).htmlOpeningTag ==> htmlTag == other
  {
    NameToTagConverter.ClosingTagIsSlashedOpeningTag(htmlTag);
    NameToTagConverter.OpeningTagRoundTrip(htmlTag);
    NameToTagConverter.OpeningTagRoundTrip(other);
  }
}
