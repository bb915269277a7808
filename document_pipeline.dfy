/** `full_preprocess_document` of exercise_02/preprocessing.py: the eight
    stages run in order on one raw document, and `stem_words`. */
module DocumentPipeline {
  import opened Text
  import opened TokenLists
  import opened Scanners
  import opened DocumentText

  /** `[stem(w) for w in words]`, the stemmer being any function from
      token to token. */
  function StemWords(words: seq<Token>, stem: Token -> Token): (r: seq<Token>)
    ensures |r| == |words|
  {
    seq(|words|, i requires 0 <= i < |words| => stem(words[i]))
  }

  /** Stemming works word by word, so it distributes over concatenation. */
  lemma {:induction false} StemWordsAppend(a: seq<Token>, b: seq<Token>, stem: Token -> Token)
    ensures StemWords(a + b, stem) == StemWords(a, stem) + StemWords(b, stem)
  {
  }

  /** Step 7: the deny-list filter, skipped when the set is absent or empty
      (an empty set is false in Python). */
  function DenyListApplied(tokens: seq<Token>, tokensToRemove: Option<set<Token>>): seq<Token>
  {
    if tokensToRemove.Some? && tokensToRemove.value != {} then Filter(tokens, NotIn(tokensToRemove.value))
    else tokens
  }

  /** Steps 1 to 5: weird characters to spaces, tags removed, lower case,
      the character map, the dash rule. */
  function NormalizedText(raw: string, charMap: seq<CharMapEntry>, weirdChars: seq<string>): string
  {
    DashesResolved(CharMapApplied(Lower(CleanHtmlTags(WeirdCharsReplaced(raw, weirdChars, " "))), charMap))
  }

  /** Step 6: the tokens of the normalised text. */
  function DocumentTokens(raw: string, charMap: seq<CharMapEntry>, weirdChars: seq<string>): seq<Token>
  {
    CleanedTokens(SplitWhitespace(NormalizedText(raw, charMap, weirdChars)))
  }

  /** The tokens that reach the stemmer. */
  function TokensToStem(raw: string, tokensToRemove: Option<set<Token>>,
                        charMap: seq<CharMapEntry>, weirdChars: seq<string>): seq<Token>
  {
    DenyListApplied(DocumentTokens(raw, charMap, weirdChars), tokensToRemove)
  }

  function PreprocessedDocument(raw: string, stem: Token -> Token, tokensToRemove: Option<set<Token>>,
                                charMap: seq<CharMapEntry>, weirdChars: seq<string>): seq<Token>
  {
    StemWords(TokensToStem(raw, tokensToRemove, charMap, weirdChars), stem)
  }

  method FullPreprocessDocument(raw: string, stem: Token -> Token, tokensToRemove: Option<set<Token>>,
                                charMap: seq<CharMapEntry>, weirdChars: seq<string>)
    returns (r: seq<Token>)
    ensures r == PreprocessedDocument(raw, stem, tokensToRemove, charMap, weirdChars)
  {
    var text := CleanTextFromWeirdChars(raw, weirdChars, " ");
    text := CleanHtmlTags(text);
    text := Lower(text);
    text := GetRidOfNonAlphanumericCharacters(text, charMap);
    text := KeepOrRemoveDashes(text);
    var currentTokens := TokenizeAndCleanTokens(text);
    var filteredTokens := currentTokens;
    if tokensToRemove.Some? && tokensToRemove.value != {} {
      filteredTokens := Filter(currentTokens, NotIn(tokensToRemove.value));
    }
    r := StemWords(filteredTokens, stem);
  }

  /** The deny-list filter keeps the tokens in order, each as often as it
      occurs unless the set names it; an absent or empty set removes
      nothing. */
  lemma {:induction false} DenyListFacts(tokens: seq<Token>, tokensToRemove: Option<set<Token>>)
    ensures IsSubsequence(DenyListApplied(tokens, tokensToRemove), tokens)
    ensures forall x ::
      Count(DenyListApplied(tokens, tokensToRemove), x)
      == (if tokensToRemove.Some? && x in tokensToRemove.value then 0 else Count(tokens, x))
    ensures forall x :: x in DenyListApplied(tokens, tokensToRemove) <==>
      x in tokens && (tokensToRemove.Some? ==> x !in tokensToRemove.value)
    ensures tokensToRemove.None? || tokensToRemove == Some({}) ==>
      DenyListApplied(tokens, tokensToRemove) == tokens
  {
    if tokensToRemove.Some? && tokensToRemove.value != {} {
      FilterCharacterized(tokens, NotIn(tokensToRemove.value));
    } else {
      SubsequenceReflexive(tokens);
    }
  }

  /** Every output word is the stem of a token that reached the stemmer;
      those tokens are the document's tokens in order, each as often as it
      occurs unless the non-empty deny list names it, and an absent or
      empty deny list removes nothing. */
  lemma {:induction false} PreprocessedDocumentShape(raw: string, stem: Token -> Token, tokensToRemove: Option<set<Token>>,
                                  charMap: seq<CharMapEntry>, weirdChars: seq<string>)
    ensures var kept := TokensToStem(raw, tokensToRemove, charMap, weirdChars);
      |PreprocessedDocument(raw, stem, tokensToRemove, charMap, weirdChars)| == |kept|
      && (forall i :: 0 <= i < |kept| ==>
            PreprocessedDocument(raw, stem, tokensToRemove, charMap, weirdChars)[i] == stem(kept[i]))
    ensures IsSubsequence(TokensToStem(raw, tokensToRemove, charMap, weirdChars),
                          DocumentTokens(raw, charMap, weirdChars))
    ensures forall x ::
      Count(TokensToStem(raw, tokensToRemove, charMap, weirdChars), x)
      == (if tokensToRemove.Some? && x in tokensToRemove.value then 0
          else Count(DocumentTokens(raw, charMap, weirdChars), x))
    ensures tokensToRemove.None? || tokensToRemove == Some({}) ==>
      TokensToStem(raw, tokensToRemove, charMap, weirdChars) == DocumentTokens(raw, charMap, weirdChars)
  {
    DenyListFacts(DocumentTokens(raw, charMap, weirdChars), tokensToRemove);
  }

  /** No token named by the deny list reaches the stemmer, and every token
      that does is non-empty, holds no whitespace and has no apostrophe at
      either end. */
  lemma {:induction false} TokensToStemGuarantees(raw: string, tokensToRemove: Option<set<Token>>,
                               charMap: seq<CharMapEntry>, weirdChars: seq<string>)
    ensures forall x :: x in TokensToStem(raw, tokensToRemove, charMap, weirdChars) ==>
      (tokensToRemove.Some? ==> x !in tokensToRemove.value)
      && IsBareToken(x) && x[0] != '\'' && x[|x| - 1] != '\''
  {
    var text := NormalizedText(raw, charMap, weirdChars);
    var tokens := DocumentTokens(raw, charMap, weirdChars);
    assert tokens == CleanedTokens(SplitWhitespace(text));
    CleanedTokensGuarantees(text);
    DenyListFacts(tokens, tokensToRemove);
  }

  lemma {:induction false} StripQuotesChars(t: string, c: char)
    requires c in StripQuotes(t)
    ensures c in t
  {
    var l := StripLeadingQuotes(t);
    var r := StripTrailingQuotes(l);
    var i := |t| - |l|;
    assert StripQuotes(t) == r;
    QuotesAroundSpan(t, l, r, i);
    var k :| 0 <= k < |r| && r[k] == c;
    assert t[i + k] == r[k];
  }

  lemma {:induction false} SplitTokenChars(text: string, t: string, c: char)
    requires t in SplitWhitespace(text) && c in t
    ensures c in text
  {
    var ts := SplitWhitespace(text);
    SplitWhitespaceTokens(text);
    FilterCharacterized(text, NotSpace);
    var i :| 0 <= i < |ts| && ts[i] == t;
    var k :| 0 <= k < |t| && t[k] == c;
    ConcatHoldsTokenChars(ts, i, k);
  }

  /** Each character of a token comes from the text it was split from. */
  lemma {:induction false} CleanedTokenChars(text: string)
    ensures forall x, c :: x in CleanedTokens(SplitWhitespace(text)) && c in x ==> c in text
  {
    var ts := SplitWhitespace(text);
    CleanedTokensMembership(ts);
    forall x, c | x in CleanedTokens(ts) && c in x
      ensures c in text
    {
      var t :| t in ts && StripQuotes(t) == x;
      StripQuotesChars(t, c);
      SplitTokenChars(text, t, c);
    }
  }

  /** With the default map, the text handed to the tokenizer has no ASCII
      capital, no character the map would replace except the apostrophe,
      and no dash that is not part of a word. */
  lemma {:induction false} DefaultNormalizedTextShape(text: string)
    ensures var t := DashesResolved(CharMapApplied(Lower(text), CharMapDefault));
      forall i :: 0 <= i < |t| ==>
        !('A' <= t[i] <= 'Z')
        && (ActiveKey(CharMapDefault, t[i]) ==> t[i] == '\'')
        && (t[i] == '-' ==> DashKept(t, i))
  {
    var low := Lower(text);
    var m := CharMapApplied(low, CharMapDefault);
    var t := DashesResolved(m);
    CharMapDefaultBehaviour(low);
    CharMapDefaultOk();
    WellFormedMapIdempotent(low, CharMapDefault);
    DashesResolvedProperties(m);
    forall i | 0 <= i < |t|
      ensures !('A' <= t[i] <= 'Z')
      ensures ActiveKey(CharMapDefault, t[i]) ==> t[i] == '\''
    {
      if t[i] != m[i] {
        assert t[i] == ' ';
        if ActiveKey(CharMapDefault, ' ') {
          ActiveKeyShape(CharMapDefault, ' ');
        }
      }
      assert !('A' <= low[i] <= 'Z');
    }
  }

  /** The characters allowed in the tokenizer's input under the default
      tables. */
  predicate DefaultTokenChar(c: char) {
    !('A' <= c <= 'Z') && (ActiveKey(CharMapDefault, c) ==> c == '\'')
  }

  lemma {:induction false} DefaultTokenCharsOf(html: string)
    ensures forall x, c ::
      (x in CleanedTokens(SplitWhitespace(DashesResolved(CharMapApplied(Lower(html), CharMapDefault)))) && c in x)
      ==> DefaultTokenChar(c)
  {
    var text := DashesResolved(CharMapApplied(Lower(html), CharMapDefault));
    DefaultNormalizedTextShape(html);
    forall c | c in text
      ensures DefaultTokenChar(c)
    {
      var i :| 0 <= i < |text| && text[i] == c;
      assert !('A' <= text[i] <= 'Z') && (ActiveKey(CharMapDefault, text[i]) ==> text[i] == '\'');
    }
    CleanedTokenChars(text);
  }

  lemma {:induction false} DefaultDocumentTokenChars(raw: string)
    ensures forall x, c ::
      (x in DocumentTokens(raw, CharMapDefault, CharactersToRemoveDefault) && c in x) ==> DefaultTokenChar(c)
  {
    var html := CleanHtmlTags(WeirdCharsReplaced(raw, CharactersToRemoveDefault, " "));
    DefaultTokenCharsOf(html);
  }

  /** With the default tables, no token that reaches the stemmer holds an
      ASCII capital or a character the map would replace other than the
      apostrophe. */
  lemma {:induction false} DefaultTokensToStemChars(raw: string, tokensToRemove: Option<set<Token>>)
    ensures forall x, c ::
      (x in TokensToStem(raw, tokensToRemove, CharMapDefault, CharactersToRemoveDefault) && c in x)
      ==> !('A' <= c <= 'Z') && (ActiveKey(CharMapDefault, c) ==> c == '\'')
  {
    var tokens := DocumentTokens(raw, CharMapDefault, CharactersToRemoveDefault);
    DefaultDocumentTokenChars(raw);
    DenyListFacts(tokens, tokensToRemove);
  }
}
