/** Worked tokenizations, each stated for one concrete input. */
module Examples {
  import opened Nom
  import opened Textopia
  import opened Parsers

  /** One step of `many0(token)`. */
  lemma TokensStep(input: string, t: Token, rest: string, tail: seq<Token>)
    requires ParseToken(input) == Done(rest, t)
    requires ParseTokens(rest) == Done("", tail)
    ensures ParseTokens(input) == Done("", [t] + tail)
  {
    assert Many0Token(input) == ([t] + Many0Token(rest).0, "");
  }

  /** The last step of `many0(token)`: the empty input gives no tokens. */
  lemma TokensLast(input: string, t: Token)
    requires ParseToken(input) == Done("", t)
    ensures ParseTokens(input) == Done("", [t])
  {
    assert Many0Token("") == ([], "");
    assert [t] + [] == [t];
  }

  lemma CatsBlocksWord()
    ensures ParseWord("cat's").Error?
  {
    ApostropheMakesPossessive("cat's", "cat", "'s");
  }

  lemma CatsIsPossessiveRun()
    ensures MaximalSplit("cat's", "cat's", "", IsPossessiveChar)
    ensures RemoveApostrophes("cat's") == "cats"
  {
  }

  /** "cat's" is one possessive token: the apostrophe blocks `word`, and
      `fixed` drops it. */
  lemma PossessiveExample()
    ensures ParseToken("cat's") == Done("", Token.WordPosessive("cat's", "cats"))
    ensures ParseTokens("cat's") == Done("", [Token.WordPosessive("cat's", "cats")])
  {
    CatsBlocksWord();
    CatsIsPossessiveRun();
    PossessiveExact("cat's", "cat's", "");
    TokensLast("cat's", Token.WordPosessive("cat's", "cats"));
  }

  /** A one-letter word. */
  lemma SingleLetter(c: char, rest: string)
    requires IsAsciiAlpha(c) && (rest == [] || (!IsAsciiAlpha(rest[0]) && rest[0] != '\''))
    ensures ParseToken([c] + rest) == Done(rest, Token.Word([c]))
  {
    WordExact([c] + rest, [c], rest);
  }

  /** A run of three blanks is one `Whitespace` token. */
  lemma WhitespaceCollapseExample()
    ensures ParseTokens("a   b") == Done("", [Token.Word("a"), Token.Whitespace, Token.Word("b")])
  {
    SingleLetter('a', "   b");
    assert ['a'] + "   b" == "a   b";
    WhitespaceExact("   b", "   ", "b");
    SingleLetter('b', "");
    assert ['b'] + "" == "b";
    TokensLast("b", Token.Word("b"));
    TokensStep("   b", Token.Whitespace, "b", [Token.Word("b")]);
    assert [Token.Whitespace] + [Token.Word("b")] == [Token.Whitespace, Token.Word("b")];
    TokensStep("a   b", Token.Word("a"), "   b", [Token.Whitespace, Token.Word("b")]);
    assert [Token.Word("a")] + ([Token.Whitespace] + [Token.Word("b")])
      == [Token.Word("a"), Token.Whitespace, Token.Word("b")];
  }

  /** '@' is taken by no specific parser and becomes `Unknown('@')`. */
  lemma UnknownCharExample()
    ensures ParseTokens("a@b") == Done("", [Token.Word("a"), Token.Unknown('@'), Token.Word("b")])
  {
    SingleLetter('a', "@b");
    assert ['a'] + "@b" == "a@b";
    TokenClassification("@b");
    SingleLetter('b', "");
    assert ['b'] + "" == "b";
    TokensLast("b", Token.Word("b"));
    TokensStep("@b", Token.Unknown('@'), "b", [Token.Word("b")]);
    assert [Token.Unknown('@')] + [Token.Word("b")] == [Token.Unknown('@'), Token.Word("b")];
    TokensStep("a@b", Token.Word("a"), "@b", [Token.Unknown('@'), Token.Word("b")]);
    assert [Token.Word("a")] + ([Token.Unknown('@')] + [Token.Word("b")])
      == [Token.Word("a"), Token.Unknown('@'), Token.Word("b")];
  }

  /** In "wait! no." the word stops before '!', which is an `Exclamation`. */
  lemma ExclamationExample()
    ensures ParseToken("wait! no.") == Done("! no.", Token.Word("wait"))
    ensures ParseToken("! no.") == Done(" no.", Token.Punctuation(Exclamation))
  {
    WordExact("wait! no.", "wait", "! no.");
    PunctuationExact('!', " no.");
    assert ['!'] + " no." == "! no.";
  }

  /** The blank after '!' in "wait! no." is one `Whitespace`. */
  lemma BlankExample()
    ensures ParseToken(" no.") == Done("no.", Token.Whitespace)
  {
    WhitespaceExact(" no.", " ", "no.");
  }

  /** The final '.' of "wait! no." is a `Stop`. */
  lemma StopExample()
    ensures ParseToken("no.") == Done(".", Token.Word("no"))
    ensures ParseToken(".") == Done("", Token.Punctuation(Stop))
  {
    WordExact("no.", "no", ".");
    PunctuationExact('.', "");
    assert ['.'] + "" == ".";
  }
}
