/** The strong-emphasis record of a later iteration of the code
  * (Markdown/Bold.cs): a markdown tag and the HTML tags of an element name. */
module Bold {
  import NameToTagConverter
  import opened Wrappers
  import DoubleUnderscore

  datatype Bold = Bold(markdownTag: string, htmlOpeningTag: string, htmlClosingTag: string)

  /** The two-argument constructor: the markdown tag is kept as given and
    * both HTML tags are built from the one element name. */
  function Create(htmlTag: string, markdownOpeningTag: string): (r: Bold)
    ensures r.markdownTag == markdownOpeningTag
    ensures r.htmlOpeningTag == "<" + htmlTag + ">" && r.htmlClosingTag == "</" + htmlTag + ">"
  {
    var tags := NameToTagConverter.GetTagFromName(Some(htmlTag)).value;
    Bold(markdownOpeningTag, tags.0, tags.1)
  }

  /** The parameterless constructor: `__` for `strong`. */
  function Default(): Bold {
    Create("strong", "__")
  }

  /** The default record carries the delimiter and tags of the `__` unit
    * that Markdown/Md.cs consumes. */
  lemma DefaultIsDoubleUnderscore()
    ensures Default() == Bold("__", "<strong>", "</strong>")
    ensures var d := DoubleUnderscore.DoubleUnderscore();
      Default() == Bold(d.markdownTag, d.htmlOpeningTag, d.htmlClosingTag)
  {
  }

  /** Both tags derive from the same name: the closing tag is the opening
    * one with `/` after `<`, and equal tags mean equal names. */
  lemma TagsShareName(htmlTag: string, other: string, markdownTag: string)
    ensures var b := Create(htmlTag, markdownTag);
      b.htmlClosingTag == b.htmlOpeningTag[..1] + "/" + b.htmlOpeningTag[1..]
    ensures Create(htmlTag, markdownTag).htmlOpeningTag == Create(other, markdownTag).htmlOpeningTag ==> htmlTag == other
  {
    NameToTagConverter.ClosingTagIsSlashedOpeningTag(htmlTag);
    NameToTagConverter.OpeningTagRoundTrip(htmlTag);
    NameToTagConverter.OpeningTagRoundTrip(other);
  }
}
