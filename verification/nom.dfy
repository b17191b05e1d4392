/** The handful of nom parsers the tokenizer is built from, on `&str` input in
    nom's `complete` mode. A parser is a function from the remaining input to
    an `IResult`; every error kind nom distinguishes collapses into `Error`. */
module Nom {

  /** nom's `IResult<&str, O>`: `Done(rest, out)` is `Ok((rest, out))`. */
  datatype IResult<+O> = Done(rest: string, out: O) | Error

  /** Every character of `s` satisfies `p`. */
  ghost predicate AllSatisfy(s: string, p: char -> bool) {
    forall i :: 0 <= i < |s| ==> p(s[i])
  }

  /** `input` splits into a non-empty run of `p`-characters followed by
      `rest`, and the run cannot be extended: `rest` does not start with a
      `p`-character. */
  ghost predicate MaximalSplit(input: string, run: string, rest: string, p: char -> bool) {
    && input == run + rest
    && run != []
    && AllSatisfy(run, p)
    && (rest == [] || !p(rest[0]))
  }

  /** Length of the longest prefix of `s` whose characters all satisfy `p`. */
  function SpanLen(s: string, p: char -> bool): (n: nat)
    ensures n <= |s|
    ensures AllSatisfy(s[..n], p)
    ensures n < |s| ==> !p(s[n])
    decreases |s|
  {
    if s == [] || !p(s[0]) then 0 else 1 + SpanLen(s[1..], p)
  }

  /** The longest run of `p`-characters is unique: any prefix length with the
      two properties of `SpanLen` is `SpanLen`. */
  lemma {:induction false} SpanLenUnique(s: string, p: char -> bool, n: nat)
    requires n <= |s| && AllSatisfy(s[..n], p) && (n < |s| ==> !p(s[n]))
    ensures SpanLen(s, p) == n
    decreases n
  {
    if n > 0 {
      assert p(s[0]) by { assert s[..n][0] == s[0]; }
      assert s[1..][..n - 1] == s[..n][1..];
      SpanLenUnique(s[1..], p, n - 1);
    }
  }

  /** `take_while1(p)`: the longest non-empty prefix of `p`-characters. */
  function TakeWhile1(input: string, p: char -> bool): (r: IResult<string>)
    ensures r.Done? <==> input != [] && p(input[0])
    ensures r.Done? ==> MaximalSplit(input, r.out, r.rest, p)
  {
    var n := SpanLen(input, p);
    if n == 0 then Error
    else
      assert input == input[..n] + input[n..];
      Done(input[n..], input[..n])
  }

  /** Any maximal split of `input` is the one `take_while1(p)` finds. */
  lemma TakeWhile1Exact(input: string, p: char -> bool, run: string, rest: string)
    requires MaximalSplit(input, run, rest, p)
    ensures TakeWhile1(input, p) == Done(rest, run)
  {
    assert input[..|run|] == run;
    assert |run| < |input| ==> input[|run|] == rest[0];
    SpanLenUnique(input, p, |run|);
    assert input[|run|..] == rest;
  }

  /** `AsChar::is_alpha` on `char`: an ASCII letter, so the same test as
      `is_alphabetic` on the character's code. */
  predicate IsAsciiAlpha(c: char): (r: bool)
    ensures r ==> (c as int) < 128
    ensures r <==> IsAlphabetic(c as int)
  {
    ('A' <= c <= 'Z') || ('a' <= c <= 'z')
  }

  /** The characters `space1` accepts: space and tab, never a letter or a
      line break. */
  predicate IsSpace(c: char): (r: bool)
    ensures r ==> (c as int) < 128 && !IsAsciiAlpha(c)
    ensures c == '\n' || c == '\r' ==> !r
  {
    c == ' ' || c == '\t'
  }

  /** `nom::character::is_alphabetic` on a byte: an ASCII letter code, that
      is a code in the third or fourth block of 32 whose offset in the block
      is 1 to 26. */
  predicate IsAlphabetic(b: nat): (r: bool)
    ensures r ==> b < 128
    ensures r <==> (b / 32 == 2 || b / 32 == 3) && 1 <= b % 32 <= 26
  {
    (0x41 <= b <= 0x5A) || (0x61 <= b <= 0x7A)
  }

  /** `alpha1`: one or more ASCII letters. */
  function Alpha1(input: string): (r: IResult<string>)
    ensures r.Done? <==> input != [] && IsAsciiAlpha(input[0])
    ensures r.Done? ==> MaximalSplit(input, r.out, r.rest, IsAsciiAlpha)
  {
    TakeWhile1(input, IsAsciiAlpha)
  }

  /** `space1`: one or more spaces or tabs. */
  function Space1(input: string): (r: IResult<string>)
    ensures r.Done? <==> input != [] && IsSpace(input[0])
    ensures r.Done? ==> MaximalSplit(input, r.out, r.rest, IsSpace)
  {
    TakeWhile1(input, IsSpace)
  }

  /** `tag(t)`: the literal `t` at the front of the input. */
  function Tag(t: string, input: string): (r: IResult<string>)
    ensures r.Done? <==> t <= input
    ensures r.Done? ==> r.out == t && input == t + r.rest
  {
    if t <= input then
      assert input == t + input[|t|..];
      Done(input[|t|..], t)
    else Error
  }

  /** `one_of(chars)`: one character drawn from `chars`. */
  function OneOf(chars: string, input: string): (r: IResult<char>)
    ensures r.Done? <==> input != [] && input[0] in chars
    ensures r.Done? ==> r.out in chars && input == [r.out] + r.rest
  {
    if input != [] && input[0] in chars then
      assert input == [input[0]] + input[1..];
      Done(input[1..], input[0])
    else Error
  }

  /** `anychar`: any one character; fails only at the end of the input. */
  function AnyChar(input: string): (r: IResult<char>)
    ensures r.Done? <==> input != []
    ensures r.Done? ==> input == [r.out] + r.rest
  {
    if input != [] then
      assert input == [input[0]] + input[1..];
      Done(input[1..], input[0])
    else Error
  }
}
