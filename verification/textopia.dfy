/** The token data model of the textopia crate: the punctuation kinds, their
    classification from a character, and the tokens the parsers produce. */
module Textopia {

  datatype Option<+T> = None | Some(value: T)

  /** The five kinds a punctuation token can carry. */
  datatype PunctuationKind = Stop | Comma | Exclamation | Question | Unknown

  /** The four characters with a punctuation kind of their own. */
  const PunctuationChars: string := ".,!?"

  /** `impl From<char> for PunctuationKind`: a total classifier. */
  function PunctuationKindFrom(raw: char): (k: PunctuationKind)
    ensures k != PunctuationKind.Unknown <==> raw in PunctuationChars
  {
    match raw
    case '.' => Stop
    case ',' => Comma
    case '!' => Exclamation
    case '?' => Question
    case _ => PunctuationKind.Unknown
  }

  /** The character a kind stands for; `Unknown` stands for none. */
  function KindChar(k: PunctuationKind): Option<char> {
    match k
    case Stop => Some('.')
    case Comma => Some(',')
    case Exclamation => Some('!')
    case Question => Some('?')
    case Unknown => None
  }

  /** `PunctuationKindFrom` and `KindChar` are inverse to each other on the
      four punctuation characters, and every other character is `Unknown`. */
  lemma KindCharRoundTrip(c: char, k: PunctuationKind)
    ensures PunctuationKindFrom(c) != PunctuationKind.Unknown ==> KindChar(PunctuationKindFrom(c)) == Some(c)
    ensures KindChar(k) == Some(c) ==> PunctuationKindFrom(c) == k
    ensures KindChar(k) == None <==> k == PunctuationKind.Unknown
    ensures c !in PunctuationChars ==> PunctuationKindFrom(c) == PunctuationKind.Unknown
  {
  }

  /** `enum Token`: a word, a run of possessive characters that `word` did
      not take (the source spells it `WordPosessive`), a punctuation mark, a
      collapsed run of blanks, or any other single character. */
  datatype Token =
    | Word(text: string)
    | WordPosessive(raw: string, fixed: string)
    | Punctuation(kind: PunctuationKind)
    | Whitespace
    | Unknown(c: char)
}
