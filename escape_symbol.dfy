/** The escape unit of a later iteration of the code
  * (Markdown/EscapeSymbol.cs): a run of `amount` escape symbols is the
  * markdown tag and half as many (rounded down) are its replacement. The
  * renderer that consumes such units is not part of this model; in
  * particular Markdown/Md.cs never strips escape symbols. */
module EscapeSymbol {
  import opened Wrappers

  /** Enumerable.Repeat with a negative count throws. */
  datatype EscapeError = ArgumentOutOfRange

  datatype EscapeSymbol = EscapeSymbol(
    legalFollowings: set<char>,
    markdownTag: string,
    htmlOpeningTag: string,
    htmlClosingTag: string)
  {
    /** Every character may precede an escape run. */
    predicate IsLegalPrecedingCharacter(ch: char) {
      true
    }

    /** Only the listed characters may follow an escape run: the set names
      * the legal followers, not the illegal ones. */
    predicate IsLegalFollowingCharacter(ch: char) {
      ch in legalFollowings
    }
  }

  const DefaultEscapeSymbol: char := '\\'

  /** `string.Join("", Enumerable.Repeat(c, n))`. */
  function Repeat(c: char, n: nat): (r: string)
    ensures |r| == n
    ensures forall k :: 0 <= k < |r| ==> r[k] == c
  {
    if n == 0 then "" else [c] + Repeat(c, n - 1)
  }

  /** A run of `c` is determined by its length. */
  lemma {:induction false} RepeatUnique(c: char, r: string)
    requires forall k :: 0 <= k < |r| ==> r[k] == c
    ensures r == Repeat(c, |r|)
  {
    if r != [] {
      RepeatUnique(c, r[1..]);
      assert r == [r[0]] + r[1..];
    }
  }

  /** The constructor: a negative amount fails; otherwise the markdown tag
    * is `amount` escape symbols, the opening tag `amount / 2` of them, and
    * the closing tag the same string as the opening one. */
  function Create(amount: int, legalFollowings: set<char>, escapeSymbol: char): (r: Result<EscapeSymbol, EscapeError>)
    ensures r.Failure? <==> amount < 0
    ensures r.Success? ==>
      && r.value.markdownTag == Repeat(escapeSymbol, amount)
      && r.value.htmlOpeningTag == Repeat(escapeSymbol, amount / 2)
      && r.value.htmlClosingTag == r.value.htmlOpeningTag
      && r.value.legalFollowings == legalFollowings
  {
    if amount < 0 then Failure(ArgumentOutOfRange)
    else
      var html := Repeat(escapeSymbol, amount / 2);
      Success(EscapeSymbol(legalFollowings, Repeat(escapeSymbol, amount), html, html))
  }

  /** The constructor with the escape symbol left at its default, `\`. */
  function CreateDefault(amount: int, legalFollowings: set<char>): (r: Result<EscapeSymbol, EscapeError>)
    ensures r.Failure? <==> amount < 0
    ensures r.Success? ==> r.value.markdownTag == Repeat('\\', amount) && r.value.htmlOpeningTag == Repeat('\\', amount / 2)
  {
    Create(amount, legalFollowings, DefaultEscapeSymbol)
  }

  /** Each pair of escape symbols in the run becomes one symbol: the
    * replacement is a prefix of the run, an even run is the replacement
    * twice, and an odd run loses one more symbol. */
  lemma {:induction false} EscapeHalvesRun(amount: nat, legalFollowings: set<char>, c: char)
    ensures var u := Create(amount, legalFollowings, c).value;
      && |u.htmlOpeningTag| == amount / 2
      && u.htmlOpeningTag <= u.markdownTag
      && (amount % 2 == 0 ==> u.markdownTag == u.htmlOpeningTag + u.htmlOpeningTag)
      && (amount % 2 == 1 ==> u.markdownTag == u.htmlOpeningTag + u.htmlOpeningTag + [c])
  {
    var u := Create(amount, legalFollowings, c).value;
    var h := u.htmlOpeningTag;
    assert u.markdownTag[..|h|] == h;
    if amount % 2 == 0 {
      RepeatUnique(c, h + h);
    } else {
      RepeatUnique(c, h + h + [c]);
    }
  }

  /** A single escape symbol is replaced by nothing and a double one by a
    * single one; whatever follows an escape run is accepted only when it
    * is in the legal set. */
  lemma ShortRuns(legalFollowings: set<char>, ch: char)
    ensures var one := CreateDefault(1, legalFollowings).value;
      one.markdownTag == "\\" && one.htmlOpeningTag == "" && one.htmlClosingTag == ""
    ensures var two := CreateDefault(2, legalFollowings).value;
      two.markdownTag == "\\\\" && two.htmlOpeningTag == "\\" && two.htmlClosingTag == "\\"
    ensures var u := CreateDefault(1, legalFollowings).value;
      u.IsLegalPrecedingCharacter(ch) && (u.IsLegalFollowingCharacter(ch) <==> ch in legalFollowings)
  {
    var two := CreateDefault(2, legalFollowings).value;
    RepeatUnique('\\', "\\\\");
    RepeatUnique('\\', "\\");
    RepeatUnique('\\', "");
  }
}
