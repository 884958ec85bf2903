/** Building the opening and closing HTML tags for an element name
  * (Markdown/NameToTagConverter.cs). */
module NameToTagConverter {
  import opened Wrappers

  datatype NameError = ArgumentNull

  function OpeningTag(name: string): string { "<" + name + ">" }

  function ClosingTag(name: string): string { "</" + name + ">" }

  /** The pair of tags for `name`; an absent name is an error. */
  function GetTagFromName(name: Option<string>): (r: Result<(string, string), NameError>)
    ensures name.None? <==> r.Failure?
    ensures r.Success? ==> r.value == (OpeningTag(name.value), ClosingTag(name.value))
  {
    match name
    case None => Failure(ArgumentNull)
    case Some(n) => Success((OpeningTag(n), ClosingTag(n)))
  }

  /** The element name read back from an opening tag. */
  function NameOfOpeningTag(tag: string): string
    requires |tag| >= 2
  {
    tag[1..|tag| - 1]
  }

  /** The name is recoverable from the opening tag, so different names give different tags. */
  lemma OpeningTagRoundTrip(name: string)
    ensures NameOfOpeningTag(OpeningTag(name)) == name
  {
    assert OpeningTag(name)[1..|name| + 1] == name;
  }

  /** The closing tag is the opening tag with '/' inserted after '<',
    * hence exactly one character longer. */
  lemma ClosingTagIsSlashedOpeningTag(name: string)
    ensures ClosingTag(name) == OpeningTag(name)[..1] + "/" + OpeningTag(name)[1..]
    ensures |ClosingTag(name)| == |OpeningTag(name)| + 1
  {
    assert OpeningTag(name)[1..] == name + ">";
  }

  lemma TagsDetermineName(n1: string, n2: string)
    requires GetTagFromName(Some(n1)) == GetTagFromName(Some(n2))
    ensures n1 == n2
  {
    OpeningTagRoundTrip(n1);
    OpeningTagRoundTrip(n2);
  }
}
