# textopia tokenizer, modelled in Dafny

textopia is a small Rust crate that splits a text into a flat list of
tokens with the nom parser-combinator library. This project models its
tokenizer, `src/lib.rs`, as pure Dafny functions over `string`, and proves
what the grammar guarantees.

- `Textopia` (`textopia.dfy`) holds the data model: `PunctuationKind`, its
  `From<char>` classifier (`PunctuationKindFrom`) and the `Token` enum. The
  source spells the possessive variant `WordPosessive`, and the model keeps
  that spelling.
- `Nom` (`nom.dfy`) holds the nom parsers the tokenizer uses, on `&str`
  input in `complete` mode: `take_while1`, `alpha1`, `space1`, `tag`,
  `one_of` and `anychar`. `IResult` becomes `Done(rest, out) | Error`.
- `Parsers` (`parsers.dfy`) mirrors `textopia::parsers`. It has
  `ParsePossessive`, `ParseWord`, `ParseWhitespace`, `ParsePunctuation`,
  `ParseToken` (the ordered `alt`) and `ParseTokens`, which is
  `all_consuming(many0(token))`. `Many0Token` is the `many0` loop, written
  as recursion on the remaining input.
- `Examples` (`examples.dfy`) works through a few concrete inputs.

Points where the code decides:

- `alpha1` accepts ASCII letters only.
- `possessive` tests `is_alphabetic(c as u8)`. The cast keeps only the low
  byte of the code point, so the model tests `code point % 256`. A
  character such as U+0141 ('Ł') therefore counts as a letter for
  `possessive` but not for `word` (`Parsers.TruncatedLetters`).
- `space1` accepts only space and tab. A newline is never `Whitespace`; it
  comes out as `Unknown('\n')`.
- `punctuation` never yields `PunctuationKind::Unknown`. Only `From<char>`
  can produce that kind.
- The `Token` enum has no variant for replaced abbreviations.

Coverage is stated with `Spans`, the text each successive `token` call
consumed (what nom's `recognize` would return). `Lexeme(t, span, follow)`
says that token `t` is the token `token` yields for `span`, given that
`follow` comes after it, including the order of `alt` (a `WordPosessive`
only where `word` fails); `LexemeUnique` shows it picks at most one token.
`ParseTokens` is total. `TokensPartition` proves that the
spans concatenate back to the input and that each token is the lexeme of
its span. The whitespace run length is kept in the span and not in the
token, as in the source.

## Model

| member | source | states |
|---|---|---|
| `Textopia.PunctuationKindFrom` | src/lib.rs:10-19 | a kind other than `Unknown` comes out exactly for the four characters `. , ! ?` |
| `Textopia.KindCharRoundTrip` | src/lib.rs:10-19 | `.`→Stop, `,`→Comma, `!`→Exclamation, `?`→Question, and back again; every other character maps to `Unknown`, the only kind with no character |
| `Nom.TakeWhile1` | src/lib.rs:43 | `take_while1(p)` succeeds iff the first character satisfies `p`, and then splits off the longest non-empty run of `p`-characters |
| `Nom.TakeWhile1Exact` | src/lib.rs:43 | any split into a non-empty `p`-run and a rest not starting with a `p`-character is the one `take_while1` returns (uniqueness of the maximal run) |
| `Nom.IsAsciiAlpha` | src/lib.rs:52 | the letters `alpha1` takes are ASCII, and are exactly the characters whose code passes `is_alphabetic` |
| `Nom.IsAlphabetic` | src/lib.rs:43 | `is_alphabetic` holds only below 128, exactly for codes in the blocks 0x40 and 0x60 at offsets 1 to 26 |
| `Nom.Alpha1` | src/lib.rs:52 | `alpha1` succeeds iff the input starts with an ASCII letter, and then splits off the longest run of ASCII letters |
| `Nom.IsSpace` | src/lib.rs:56 | the blanks `space1` takes are ASCII, never letters, and never a newline or carriage return |
| `Nom.Space1` | src/lib.rs:56 | `space1` succeeds iff the input starts with a space or tab, and then splits off the longest run of spaces and tabs |
| `Nom.OneOf` | src/lib.rs:60 | `one_of(chars)` succeeds iff the first character is in `chars`, and then takes exactly that one character |
| `Nom.AnyChar` | src/lib.rs:69 | `anychar` fails only on empty input, and otherwise takes exactly the first character |
| `Nom.Tag` | src/lib.rs:52 | `tag(t)` succeeds iff the input starts with `t` and then returns exactly the remainder after `t` |
| `Parsers.AsU8` | src/lib.rs:43 | `c as u8` is below 256 and leaves code points below 256 unchanged |
| `Parsers.AsciiAlphaIsPossessive` | src/lib.rs:43-52 | every character `alpha1` takes is also taken by the `possessive` predicate |
| `Parsers.IsPossessiveChar` | src/lib.rs:43 | below U+0100 the `possessive` predicate (`is_alphabetic` on the truncated byte, or the apostrophe) is "ASCII letter or apostrophe" |
| `Parsers.TruncatedLetters` | src/lib.rs:43 | U+0141 passes the `possessive` predicate without being an ASCII letter, because `as u8` truncates it to 0x41 |
| `Parsers.RemoveApostrophes` | src/lib.rs:46 | `replace("'", "")` leaves no apostrophe, is never longer, and is the identity on text without apostrophes |
| `Parsers.RemoveApostrophesCount` | src/lib.rs:46 | the result has each other character as often as the input and no apostrophe (multiset equality) |
| `Parsers.RemoveApostrophesAppend` | src/lib.rs:46 | deleting apostrophes distributes over concatenation, so the other characters keep their order |
| `Parsers.ParsePossessive` | src/lib.rs:42-49 | succeeds iff the first character is a possessive character; `raw` is the longest non-empty run of them and `fixed` is `raw` without apostrophes |
| `Parsers.ParseWord` | src/lib.rs:51-53 | on success the token is a non-empty maximal run of ASCII letters, the apostrophe is never consumed, and what follows does not start with `'` |
| `Parsers.WordExact` | src/lib.rs:51-53 | conversely, every maximal letter run not followed by `'` is what `word` and then `token` return |
| `Parsers.ParseWhitespace` | src/lib.rs:55-57 | succeeds iff the input starts with a space or tab, consumes the whole run of them, and yields a single `Whitespace` |
| `Parsers.WhitespaceExact` | src/lib.rs:55-57 | any maximal run of spaces and tabs is one `Whitespace` token from `token` |
| `Parsers.ParsePunctuation` | src/lib.rs:59-61 | succeeds iff the first character is one of `? , ! .`, consumes exactly that character, and its kind is never `Unknown` |
| `Parsers.PunctuationExact` | src/lib.rs:59-61 | each of `? , ! .` at the front of the input is a one-character punctuation token of its own kind from `token` |
| `Parsers.BlanksAndMarks` | src/lib.rs:43-60 | the blanks, the four punctuation marks and the possessive characters are pairwise disjoint, and a newline is not a blank |
| `Parsers.ParseToken` | src/lib.rs:63-71 | fails exactly on empty input; otherwise consumes a non-empty prefix, and the token is the lexeme of that prefix |
| `Parsers.TokenClassification` | src/lib.rs:63-71 | first match wins: `Word` iff `word` succeeds; `WordPosessive` iff `word` fails on a possessive character; then `Whitespace`, `Punctuation`, and `Unknown(c)` for exactly the characters no other parser takes |
| `Parsers.PossessiveExact` | src/lib.rs:63-71 | when `word` fails, any maximal run of possessive characters is the `WordPosessive` that `token` returns |
| `Parsers.LexemeUnique` | src/lib.rs:63-71 | two tokens that are both the lexeme of the same span and continuation are equal, so the classification is determined |
| `Parsers.ApostropheMakesPossessive` | src/lib.rs:51-66 | a letter run directly followed by `'` is never a `Word`; `token` returns a `WordPosessive` whose `raw` starts with the run and the apostrophe |
| `Parsers.Many0Token` | src/lib.rs:74 | `many0(token)` leaves nothing unconsumed, returns at most one token per character, and returns none only for empty input |
| `Parsers.ParseTokens` | src/lib.rs:73-75 | `tokens` succeeds on every input with an empty remainder |
| `Parsers.Spans` | src/lib.rs:74 | there is one consumed span per token |
| `Parsers.TokensPartition` | src/lib.rs:73-75 | the spans concatenate back to the input with no gap or overlap, and each token is the lexeme of its span given the text after it |
| `Parsers.NoAdjacentRuns` | src/lib.rs:51-57 | the output of `tokens` never has two adjacent `Whitespace`, two adjacent `Word` or two adjacent `WordPosessive` tokens |
| `Parsers.UnclassifiedIsUnknown` | src/lib.rs:69 | every character no specific parser takes is a token `Unknown(c)` on its own, so it is never part of a `Whitespace` run |
| `Parsers.NewlineIsUnclassified` | src/lib.rs:55-57 | a newline is such a character: `token` turns it into `Unknown('\n')` |
| `Examples.PossessiveExample` | src/lib.rs:42-52 | `cat's` is one `WordPosessive` with raw `cat's` and fixed `cats` |
| `Examples.WhitespaceCollapseExample` | src/lib.rs:55-57 | `a   b` gives `[Word("a"), Whitespace, Word("b")]` |
| `Examples.UnknownCharExample` | src/lib.rs:69 | `a@b` gives `[Word("a"), Unknown('@'), Word("b")]` |
| `Examples.ExclamationExample` | src/lib.rs:59-61 | in `wait! no.` the word `wait` stops before `!`, which is an `Exclamation` |
| `Examples.BlankExample` | src/lib.rs:55-57 | in `wait! no.` the blank after `!` is one `Whitespace` |
| `Examples.StopExample` | src/lib.rs:59-61 | in `no.` the word `no` stops before `.`, which is a `Stop` |

## Left out

- The abbreviation replacement (`replace`) and the rendering of tokens back to text (`to_string`). The Python binding and the example program call them, but `src/lib.rs` does not define them, so there is no code to model. `bindings/python/src/lib.rs` and `examples/basic.rs` are not part of this model: the first is a foreign-call wrapper, the second does console output and Unicode lower-casing.
- nom's error kinds and its `Incomplete` variant; every failure is one `Error`.
- `many0`'s guard against a parser that succeeds without consuming anything. The guard never fires here, because `token` always consumes at least one character (the `ParseToken` contract), and that fact is what makes `Many0Token` terminate.
- Borrowing: `Word(&str)` and `raw` are slices of the input in Rust and are copies of the characters here.
- `#[derive(Debug)]` formatting.
- Examples.ExclamationExample, Examples.BlankExample and Examples.StopExample: `wait! no.` is stated one token at a time (all five tokens), not as a single `ParseTokens` result.
