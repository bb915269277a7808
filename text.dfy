/** Shared vocabulary of both preprocessing pipelines: tokens, corpora, an
    optional value, and the character classes that the code takes from
    Python's `str` methods and regular-expression classes. */
module Text {

  /** One token of a document. */
  type Token = string

  /** One token list per document, in input order. */
  type Corpus = seq<seq<Token>>

  /** The test `if token:` of a list comprehension. */
  predicate NonEmpty(t: Token) {
    t != []
  }

  datatype Option<+T> = None | Some(value: T)

  datatype Result<+T, +E> = Ok(value: T) | Err(error: E)

  /** `\d` and `str.isdigit`, restricted to ASCII digits. */
  predicate IsDigit(c: char) {
    '0' <= c <= '9'
  }

  predicate IsAsciiLetter(c: char) {
    'a' <= c <= 'z' || 'A' <= c <= 'Z'
  }

  /** `str.isalnum`, restricted to ASCII letters and digits. */
  predicate IsAlnum(c: char) {
    IsDigit(c) || IsAsciiLetter(c)
  }

  /** The regular-expression class `\w`: alphanumerics and the underscore. */
  predicate IsWordChar(c: char) {
    IsAlnum(c) || c == '_'
  }

  /** `str.isspace`, which is also the class `\s` and the separator set of
      `str.split()`: tab to carriage return, the four information
      separators, space, NEL, no-break space, Ogham space mark, the spaces
      U+2000 to U+200A, line and paragraph separators, narrow no-break space,
      medium mathematical space and ideographic space. */
  predicate IsSpace(c: char) {
    ('\t' <= c <= '\r') || ('\U{1C}' <= c <= ' ') || c == '\U{85}' || c == '\U{A0}'
    || c == '\U{1680}' || ('\U{2000}' <= c <= '\U{200A}') || c == '\U{2028}'
    || c == '\U{2029}' || c == '\U{202F}' || c == '\U{205F}' || c == '\U{3000}'
  }

  /** Membership in `string.punctuation`, the 32 ASCII characters
      !"#$%&'()*+,-./:;<=>?@[\]^_`{|}~ */
  predicate IsPunctuation(c: char) {
    ('!' <= c <= '/') || (':' <= c <= '@') || ('[' <= c <= '`') || ('{' <= c <= '~')
  }

  /** Characters of the Unicode category Cc (C0 controls, DEL, C1 controls). */
  predicate IsControl(c: char) {
    c < ' ' || ('\U{7F}' <= c <= '\U{9F}')
  }

  /** `str.isprintable`: false for control characters, for every separator
      other than the ASCII space, for the soft hyphen and the common format
      characters, and for the private-use area of the basic plane. */
  predicate IsPrintable(c: char) {
    !IsControl(c)
    && (c == ' ' || !IsSpace(c))
    && c != '\U{AD}'
    && !('\U{200B}' <= c <= '\U{200F}')
    && !('\U{202A}' <= c <= '\U{202E}')
    && !('\U{2060}' <= c <= '\U{2064}')
    && c != '\U{FEFF}'
    && !('\U{E000}' <= c <= '\U{F8FF}')
  }

  /** The negation of `IsSpace`, as a value that can be passed to filters. */
  predicate NotSpace(c: char) {
    !IsSpace(c)
  }

  /** `str.lower` on one character, restricted to the ASCII letters. */
  function LowerChar(c: char): (r: char)
    ensures IsAsciiLetter(c) ==> 'a' <= r <= 'z'
    ensures 'A' <= c <= 'Z' ==> r as int - 'a' as int == c as int - 'A' as int
    ensures !('A' <= c <= 'Z') ==> r == c
    ensures IsAlnum(r) <==> IsAlnum(c)
    ensures IsSpace(r) <==> IsSpace(c)
  {
    if 'A' <= c <= 'Z' then (c as int - 'A' as int + 'a' as int) as char else c
  }

  /** `str.lower` on a string: one character for one character. */
  function Lower(s: string): (r: string)
    ensures |r| == |s|
    ensures forall i :: 0 <= i < |s| ==> r[i] == LowerChar(s[i])
  {
    seq(|s|, i requires 0 <= i < |s| => LowerChar(s[i]))
  }
}
