/** `textopia::parsers`: the tokenizer, an ordered choice of five parsers
    applied repeatedly until the whole input is consumed. */
module Parsers {
  import opened Nom
  import opened Textopia

  /** Rust's `c as u8` on a `char`: keeps the low eight bits of the code point. */
  function AsU8(c: char): (b: nat)
    ensures b < 256
    ensures (c as int) < 256 ==> b == c as int
  {
    (c as int) % 256
  }

  /** The characters `possessive` takes: those whose truncated byte is an
      ASCII letter code, and the apostrophe. Below U+0100 that is exactly
      the ASCII letters and the apostrophe. */
  predicate IsPossessiveChar(c: char): (r: bool)
    ensures (c as int) < 256 ==> (r <==> IsAsciiAlpha(c) || c == '\'')
  {
    IsAlphabetic(AsU8(c)) || c == '\''
  }

  /** Every character `word` takes, `possessive` takes too. */
  lemma AsciiAlphaIsPossessive(c: char)
    ensures IsAsciiAlpha(c) ==> IsPossessiveChar(c)
  {
  }

  /** Above U+00FF the truncation lets characters through that are not
      ASCII letters: U+0141 ('Ł') truncates to 0x41 ('A'). */
  lemma TruncatedLetters()
    ensures IsPossessiveChar('\U{0141}') && !IsAsciiAlpha('\U{0141}')
  {
  }

  /** `str::replace("'", "")`: `s` with every apostrophe deleted. */
  function RemoveApostrophes(s: string): (r: string)
    ensures '\'' !in r
    ensures |r| <= |s|
    ensures '\'' !in s ==> r == s
    decreases |s|
  {
    if s == [] then []
    else
      (if s[0] == '\'' then [] else [s[0]]) + RemoveApostrophes(s[1..])
  }

  /** Deleting apostrophes keeps every other character, as often as it
      occurs, and drops every apostrophe. */
  lemma {:induction false} RemoveApostrophesCount(s: string)
    ensures multiset(RemoveApostrophes(s)) == multiset(s)['\'' := 0]
    decreases |s|
  {
    if s != [] {
      RemoveApostrophesCount(s[1..]);
      assert s == [s[0]] + s[1..];
    }
  }

  /** Deleting apostrophes commutes with concatenation, so it keeps the
      order of the other characters. */
  lemma {:induction false} RemoveApostrophesAppend(a: string, b: string)
    ensures RemoveApostrophes(a + b) == RemoveApostrophes(a) + RemoveApostrophes(b)
    decreases |a|
  {
    if a == [] {
      assert a + b == b;
    } else {
      assert (a + b)[0] == a[0];
      assert (a + b)[1..] == a[1..] + b;
      RemoveApostrophesAppend(a[1..], b);
    }
  }

  /** `possessive`: the longest non-empty run of possessive characters, as
      `raw`, with the apostrophes removed as `fixed`. */
  function ParsePossessive(input: string): (r: IResult<Token>)
    ensures r.Done? <==> input != [] && IsPossessiveChar(input[0])
    ensures r.Done? ==> r.out.WordPosessive? && MaximalSplit(input, r.out.raw, r.rest, IsPossessiveChar)
    ensures r.Done? ==> r.out.fixed == RemoveApostrophes(r.out.raw)
  {
    match TakeWhile1(input, IsPossessiveChar)
    case Error => Error
    case Done(rest, t) => Done(rest, WordPosessive(t, RemoveApostrophes(t)))
  }

  /** `word`: `terminated(alpha1, not(tag("'")))`, the longest run of ASCII
      letters, provided no apostrophe follows it. */
  function ParseWord(input: string): (r: IResult<Token>)
    ensures r.Done? ==> r.out.Word? && MaximalSplit(input, r.out.text, r.rest, IsAsciiAlpha)
    ensures r.Done? ==> r.rest == [] || r.rest[0] != '\''
  {
    match Alpha1(input)
    case Error => Error
    case Done(rest, t) =>
      // `not(tag("'"))` succeeds, consuming nothing, exactly when the tag fails
      if Tag("'", rest).Done? then Error else Done(rest, Token.Word(t))
  }

  /** A letter run not followed by an apostrophe is exactly what `word`
      reads, and then what `token` returns. */
  lemma WordExact(input: string, w: string, rest: string)
    requires MaximalSplit(input, w, rest, IsAsciiAlpha)
    requires rest == [] || rest[0] != '\''
    ensures ParseWord(input) == Done(rest, Token.Word(w))
    ensures ParseToken(input) == Done(rest, Token.Word(w))
  {
    TakeWhile1Exact(input, IsAsciiAlpha, w, rest);
    assert !("'" <= rest);
  }

  /** `whitespace`: `space1`, the longest run of spaces and tabs, collapsed
      into one token. */
  function ParseWhitespace(input: string): (r: IResult<Token>)
    ensures r.Done? <==> input != [] && IsSpace(input[0])
    ensures r.Done? ==> r.out == Token.Whitespace && |r.rest| < |input|
    ensures r.Done? ==> MaximalSplit(input, input[..|input| - |r.rest|], r.rest, IsSpace)
  {
    match Space1(input)
    case Error => Error
    case Done(rest, run) =>
      assert input[..|input| - |rest|] == run;
      Done(rest, Token.Whitespace)
  }

  /** `punctuation`: `one_of("?,!.")`, one character, classified. */
  function ParsePunctuation(input: string): (r: IResult<Token>)
    ensures r.Done? <==> input != [] && input[0] in PunctuationChars
    ensures r.Done? ==> r.rest == input[1..] && r.out == Token.Punctuation(PunctuationKindFrom(input[0]))
    ensures r.Done? ==> r.out.kind != PunctuationKind.Unknown
  {
    match OneOf("?,!.", input)
    case Error => Error
    case Done(rest, c) => Done(rest, Token.Punctuation(PunctuationKindFrom(c)))
  }

  /** Token `t` is the one `token` produces for the characters `span` when
      `follow` comes after them: the span is what the token records, the runs
      are maximal, a `WordPosessive` only where `word` fails, and `Unknown`
      holds only a character no other parser takes. `LexemeUnique` shows that
      at most one token fits a span. */
  ghost predicate Lexeme(t: Token, span: string, follow: string) {
    match t
    case Word(w) =>
      && w == span && span != [] && AllSatisfy(span, IsAsciiAlpha)
      && (follow == [] || (!IsAsciiAlpha(follow[0]) && follow[0] != '\''))
    case WordPosessive(raw, fixed) =>
      && raw == span && span != [] && AllSatisfy(span, IsPossessiveChar)
      && (follow == [] || !IsPossessiveChar(follow[0]))
      && fixed == RemoveApostrophes(raw)
      && ParseWord(span + follow).Error?
    case Whitespace =>
      && span != [] && AllSatisfy(span, IsSpace)
      && (follow == [] || !IsSpace(follow[0]))
    case Punctuation(k) =>
      |span| == 1 && k == PunctuationKindFrom(span[0]) && k != PunctuationKind.Unknown
    case Unknown(c) =>
      span == [c] && Unclassified(c)
  }

  /** Space, tab and the four punctuation characters are not possessive
      characters, and a newline or carriage return is not a blank. */
  lemma BlanksAndMarks(c: char)
    ensures IsSpace(c) ==> !IsPossessiveChar(c) && c !in PunctuationChars
    ensures c in PunctuationChars ==> !IsPossessiveChar(c) && !IsSpace(c)
    ensures !IsSpace('\n') && !IsSpace('\r')
  {
  }

  /** At most one token is the lexeme of a span with a given continuation,
      so `Lexeme` decides the classification as well as the span. */
  lemma LexemeUnique(t1: Token, t2: Token, span: string, follow: string)
    requires Lexeme(t1, span, follow) && Lexeme(t2, span, follow)
    ensures t1 == t2
  {
    BlanksAndMarks(span[0]);
    if t1.Word? || t2.Word? {
      assert IsAsciiAlpha(span[0]);
      AsciiAlphaIsPossessive(span[0]);
      if t1.WordPosessive? || t2.WordPosessive? {
        WordExact(span + follow, span, follow);
      }
    }
  }

  /** A character that only the `anychar` fallback accepts. */
  predicate Unclassified(c: char) {
    !IsPossessiveChar(c) && !IsSpace(c) && c !in PunctuationChars
  }

  /** `token`: the first of word, possessive, whitespace, punctuation and
      `anychar` that succeeds. It fails only on empty input and otherwise
      consumes a non-empty prefix that forms a lexeme. */
  function ParseToken(input: string): (r: IResult<Token>)
    ensures r.Done? <==> input != []
    ensures r.Done? ==> |r.rest| < |input| && input == input[..|input| - |r.rest|] + r.rest
    ensures r.Done? ==> Lexeme(r.out, input[..|input| - |r.rest|], r.rest)
  {
    var w := ParseWord(input);
    if w.Done? then
      assert input[..|input| - |w.rest|] == w.out.text;
      w
    else
      var p := ParsePossessive(input);
      if p.Done? then
        assert input[..|input| - |p.rest|] == p.out.raw;
        p
      else
        var s := ParseWhitespace(input);
        if s.Done? then s
        else
          var q := ParsePunctuation(input);
          if q.Done? then q
          else
            match AnyChar(input)
            case Error => Error
            case Done(rest, c) => Done(rest, Token.Unknown(c))
  }

  /** The ordered choice of `token`, decided by the input alone: a `Word`
      exactly when `word` succeeds, a `WordPosessive` when it fails on a
      possessive character, and then by the first character. */
  lemma TokenClassification(input: string)
    requires input != []
    ensures ParseToken(input).out.Word? <==> ParseWord(input).Done?
    ensures ParseToken(input).out.WordPosessive? <==> ParseWord(input).Error? && IsPossessiveChar(input[0])
    ensures ParseToken(input).out.Whitespace? <==> !IsPossessiveChar(input[0]) && IsSpace(input[0])
    ensures ParseToken(input).out.Punctuation? <==>
      !IsPossessiveChar(input[0]) && !IsSpace(input[0]) && input[0] in PunctuationChars
    ensures ParseToken(input).out.Unknown? <==> Unclassified(input[0])
    ensures Unclassified(input[0]) ==> ParseToken(input) == Done(input[1..], Token.Unknown(input[0]))
  {
    var w := ParseWord(input);
    if w.Done? {
      assert IsAsciiAlpha(input[0]) by { assert input[0] == w.out.text[0]; }
      AsciiAlphaIsPossessive(input[0]);
    }
  }

  /** When `word` fails, a maximal run of possessive characters is exactly
      what `token` returns, with its apostrophes removed as `fixed`. */
  lemma PossessiveExact(input: string, raw: string, rest: string)
    requires ParseWord(input).Error?
    requires MaximalSplit(input, raw, rest, IsPossessiveChar)
    ensures ParseToken(input) == Done(rest, Token.WordPosessive(raw, RemoveApostrophes(raw)))
  {
    TakeWhile1Exact(input, IsPossessiveChar, raw, rest);
  }

  /** A maximal run of blanks is exactly what `token` returns as one
      `Whitespace` token. */
  lemma WhitespaceExact(input: string, run: string, rest: string)
    requires MaximalSplit(input, run, rest, IsSpace)
    ensures ParseToken(input) == Done(rest, Token.Whitespace)
  {
    assert input[0] == run[0];
    TakeWhile1Exact(input, IsSpace, run, rest);
    TokenClassification(input);
  }

  /** One of the four punctuation characters is a token of its own kind. */
  lemma PunctuationExact(c: char, rest: string)
    requires c in PunctuationChars
    ensures ParseToken([c] + rest) == Done(rest, Token.Punctuation(PunctuationKindFrom(c)))
  {
    var input := [c] + rest;
    assert input[0] == c && input[1..] == rest;
    TokenClassification(input);
  }

  /** Precedence of `word` over `possessive`: a letter run directly followed
      by an apostrophe is never a `Word`; it starts a `WordPosessive` whose
      `raw` takes the run and the apostrophe. */
  lemma ApostropheMakesPossessive(input: string, w: string, rest: string)
    requires MaximalSplit(input, w, rest, IsAsciiAlpha)
    requires rest != [] && rest[0] == '\''
    ensures ParseWord(input).Error?
    ensures ParseToken(input).Done? && ParseToken(input).out.WordPosessive?
    ensures w + "'" <= ParseToken(input).out.raw
  {
    TakeWhile1Exact(input, IsAsciiAlpha, w, rest);
    assert "'" <= rest;
    var p := ParsePossessive(input);
    assert IsAsciiAlpha(input[0]) by { assert input[0] == w[0]; }
    AsciiAlphaIsPossessive(input[0]);
    var raw := p.out.raw;
    if |raw| <= |w| {
      var k := |raw|;
      assert input[k] == p.rest[0];
      if k < |w| {
        assert input[k] == w[k];
        AsciiAlphaIsPossessive(w[k]);
      }
      assert false;
    }
    assert input[..|w| + 1] == w + "'";
    assert raw[..|w| + 1] == input[..|w| + 1];
  }

  /** `many0(token)`: applies `token` until it fails, collecting the tokens;
      since `token` fails only on empty input, nothing is left over. */
  function Many0Token(input: string): (r: (seq<Token>, string))
    ensures r.1 == []
    ensures |r.0| <= |input|
    ensures r.0 == [] <==> input == []
    decreases |input|
  {
    match ParseToken(input)
    case Error => ([], input)
    case Done(rest, t) =>
      var (ts, left) := Many0Token(rest);
      ([t] + ts, left)
  }

  /** `tokens`: `all_consuming(many0(token))`. Total: it succeeds on every
      input, with nothing left over. */
  function ParseTokens(input: string): (r: IResult<seq<Token>>)
    ensures r.Done? && r.rest == []
    ensures |r.out| <= |input|
    ensures r.out == [] <==> input == []
  {
    var (ts, rest) := Many0Token(input);
    if rest == [] then Done(rest, ts) else Error
  }

  /** The characters each successive `token` call consumed, in order. */
  ghost function Spans(input: string): (ss: seq<string>)
    ensures |ss| == |ParseTokens(input).out|
    decreases |input|
  {
    match ParseToken(input)
    case Error => []
    case Done(rest, _) => [input[..|input| - |rest|]] + Spans(rest)
  }

  /** The concatenation of a sequence of strings. */
  function Concat(ss: seq<string>): string {
    if ss == [] then [] else ss[0] + Concat(ss[1..])
  }

  /** Coverage of `tokens`: the consumed spans, one per token, concatenate
      back to the input with no gap and no overlap, and each token is the
      lexeme of its span given everything after it. */
  lemma {:induction false} TokensPartition(input: string)
    ensures Concat(Spans(input)) == input
    ensures forall i :: 0 <= i < |Spans(input)| ==>
      Lexeme(ParseTokens(input).out[i], Spans(input)[i], Concat(Spans(input)[i + 1..]))
    decreases |input|
  {
    if input != [] {
      var r := ParseToken(input);
      var ss, ts := Spans(input), ParseTokens(input).out;
      var ss', ts' := Spans(r.rest), ParseTokens(r.rest).out;
      TokensPartition(r.rest);
      assert ss == [input[..|input| - |r.rest|]] + ss';
      assert ts == [r.out] + ts';
      assert ss[1..] == ss';
      forall i | 0 <= i < |ss|
        ensures Lexeme(ts[i], ss[i], Concat(ss[i + 1..]))
      {
        if i == 0 {
          assert ss[1..] == ss';
        } else {
          assert ss[i + 1..] == ss'[i..];
          assert ts[i] == ts'[i - 1] && ss[i] == ss'[i - 1];
        }
      }
    }
  }

  /** The string that follows span `i` is span `i + 1` and what follows it. */
  lemma FollowStartsWithNext(ss: seq<string>, i: nat)
    requires i + 1 < |ss|
    ensures Concat(ss[i + 1..]) == ss[i + 1] + Concat(ss[i + 2..])
  {
    assert ss[i + 1..][1..] == ss[i + 2..];
  }

  /** `space1` and the two letter runs are greedy: no two `Whitespace`
      tokens, no two `Word` tokens and no two `WordPosessive` tokens are
      ever adjacent in the output of `tokens`. */
  lemma NoAdjacentRuns(input: string)
    ensures forall i :: 0 <= i < |ParseTokens(input).out| - 1 ==>
      var ts := ParseTokens(input).out;
      && !(ts[i].Whitespace? && ts[i + 1].Whitespace?)
      && !(ts[i].Word? && ts[i + 1].Word?)
      && !(ts[i].WordPosessive? && ts[i + 1].WordPosessive?)
  {
    TokensPartition(input);
    var ts, ss := ParseTokens(input).out, Spans(input);
    forall i | 0 <= i < |ts| - 1
      ensures !(ts[i].Whitespace? && ts[i + 1].Whitespace?)
      ensures !(ts[i].Word? && ts[i + 1].Word?)
      ensures !(ts[i].WordPosessive? && ts[i + 1].WordPosessive?)
    {
      FollowStartsWithNext(ss, i);
      assert Lexeme(ts[i], ss[i], Concat(ss[i + 1..]));
      assert Lexeme(ts[i + 1], ss[i + 1], Concat(ss[i + 2..]));
      assert ts[i + 1].Whitespace? || ts[i + 1].Word? || ts[i + 1].WordPosessive? ==>
        Concat(ss[i + 1..])[0] == ss[i + 1][0];
    }
  }

  /** Every character no specific parser takes (a newline, a digit, '@')
      comes out of `tokens` as an `Unknown` token of its own; in particular
      it is never part of a `Whitespace` run. */
  lemma UnclassifiedIsUnknown(input: string)
    ensures forall i, j :: 0 <= i < |Spans(input)| && 0 <= j < |Spans(input)[i]| && Unclassified(Spans(input)[i][j]) ==>
      ParseTokens(input).out[i] == Token.Unknown(Spans(input)[i][j]) && Spans(input)[i] == [Spans(input)[i][j]]
  {
    TokensPartition(input);
    var ts, ss := ParseTokens(input).out, Spans(input);
    forall i, j | 0 <= i < |ss| && 0 <= j < |ss[i]| && Unclassified(ss[i][j])
      ensures ts[i] == Token.Unknown(ss[i][j]) && ss[i] == [ss[i][j]]
    {
      assert Lexeme(ts[i], ss[i], Concat(ss[i + 1..]));
      if ts[i].Word? {
        AsciiAlphaIsPossessive(ss[i][j]);
      }
    }
  }

  /** A newline is one of those characters. */
  lemma NewlineIsUnclassified()
    ensures Unclassified('\n')
    ensures forall s :: ParseToken(['\n'] + s) == Done(s, Token.Unknown('\n'))
  {
    forall s ensures ParseToken(['\n'] + s) == Done(s, Token.Unknown('\n')) {
      TokenClassification(['\n'] + s);
      assert (['\n'] + s)[1..] == s;
    }
  }
}
