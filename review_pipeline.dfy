/** `preprocess` of exercise_03/preprocessing.py: option validation, the
    per-review stages, and the optional corpus-wide removal of
    high-frequency tokens. */
module ReviewPipeline {
  import opened Text
  import opened TokenLists
  import opened Scanners
  import opened ReviewText
  import opened CorpusFrequency

  /** The keyword arguments of `preprocess`. */
  datatype PreprocessOptions = PreprocessOptions(
    tokenizeOnPunctuation: bool,
    toLowercase: bool,
    removePunctuationTokens: bool,
    highFreqTermThreshold: Option<real>,
    numberReplacementToken: Option<Token>,
    removeNonPrintable: bool)

  /** The defaults of the signature (the docstring's "Default is False" for
      `tokenize_on_punctuation` disagrees with the signature's `True`). */
  const DefaultOptions := PreprocessOptions(true, false, false, None, None, true)

  /** The three `ValueError`s `preprocess` raises. */
  datatype PreprocessError =
    | ThresholdOutOfRange
    | ReplacementHasPunctuation
    | ReplacementHasSpace

  predicate HasPunctuation(t: Token) {
    exists i :: 0 <= i < |t| && IsPunctuation(t[i])
  }

  predicate ThresholdInRange(threshold: Option<real>) {
    threshold.None? || 0.0 <= threshold.value <= 1.0
  }

  /** The replacement token, when given, holds no `string.punctuation`
      character and no ASCII space. */
  predicate ReplacementAllowed(replacement: Option<Token>) {
    replacement.None? || (!HasPunctuation(replacement.value) && ' ' !in replacement.value)
  }

  /** The validation of `preprocess`, in the order the checks are made. */
  function OptionsError(opts: PreprocessOptions): (r: Option<PreprocessError>)
    ensures r.None? <==>
              ThresholdInRange(opts.highFreqTermThreshold)
              && ReplacementAllowed(opts.numberReplacementToken)
    ensures r == Some(ThresholdOutOfRange) <==> !ThresholdInRange(opts.highFreqTermThreshold)
    ensures r == Some(ReplacementHasSpace) ==>
              opts.numberReplacementToken.Some? && ' ' in opts.numberReplacementToken.value
              && !HasPunctuation(opts.numberReplacementToken.value)
  {
    if !ThresholdInRange(opts.highFreqTermThreshold) then Some(ThresholdOutOfRange)
    else if opts.numberReplacementToken.Some? then
      if HasPunctuation(opts.numberReplacementToken.value) then Some(ReplacementHasPunctuation)
      else if ' ' in opts.numberReplacementToken.value then Some(ReplacementHasSpace)
      else None
    else None
  }

  // ---------------------------------------------------------------------
  // One review

  /** The text of a review after the character stages, in the order of the
      code: non-printable removal, tag removal, lowercasing. */
  function CleanedText(review: string, opts: PreprocessOptions): string
  {
    var text := if opts.removeNonPrintable then RemoveNonPrintable(review) else review;
    ToLowercaseIfNeeded(RemoveHtmlTags(text), opts.toLowercase)
  }

  /** The tokens of a review before number replacement. */
  function TokensBeforeNumbers(review: string, opts: PreprocessOptions): seq<Token>
  {
    RemovePunctuationTokensIfNeeded(
      TokenizeText(CleanedText(review, opts), opts.tokenizeOnPunctuation),
      opts.removePunctuationTokens)
  }

  /** The token list the loop of `preprocess` appends for one review. */
  function ReviewTokens(review: string, opts: PreprocessOptions): seq<Token>
  {
    NumbersReplaced(TokensBeforeNumbers(review, opts), opts.numberReplacementToken)
  }

  /** What every character of the cleaned text satisfies. */
  predicate CleanChar(c: char, review: string, opts: PreprocessOptions) {
    (opts.removeNonPrintable ==> IsPrintable(c))
    && (opts.toLowercase ==> !('A' <= c <= 'Z'))
    && (!opts.toLowercase ==> c in review)
  }

  lemma {:induction false} CleanedTextChars(review: string, opts: PreprocessOptions)
    ensures forall c :: c in CleanedText(review, opts) ==> CleanChar(c, review, opts)
  {
    var text := if opts.removeNonPrintable then RemoveNonPrintable(review) else review;
    var stripped := RemoveHtmlTags(text);
    SubsequenceProperties(stripped, text);
    if opts.removeNonPrintable {
      SubsequenceProperties(text, review);
    }
    forall c | c in CleanedText(review, opts)
      ensures CleanChar(c, review, opts)
    {
      var i :| 0 <= i < |CleanedText(review, opts)| && CleanedText(review, opts)[i] == c;
      assert stripped[i] in stripped;
    }
  }

  lemma {:induction false} ConcatLengthBound(ts: seq<Token>)
    requires forall i :: 0 <= i < |ts| ==> ts[i] != []
    ensures |ts| <= |Concat(ts)|
  {
    if ts != [] {
      ConcatLengthBound(ts[1..]);
    }
  }

  /** Every token before number replacement is bare and made of cleaned
      characters, and there are at most as many tokens as the review has
      characters. */
  lemma {:induction false} TokensBeforeNumbersShape(review: string, opts: PreprocessOptions)
    ensures forall i :: 0 <= i < |TokensBeforeNumbers(review, opts)| ==>
              IsBareToken(TokensBeforeNumbers(review, opts)[i])
    ensures forall i, j ::
              (0 <= i < |TokensBeforeNumbers(review, opts)|
               && 0 <= j < |TokensBeforeNumbers(review, opts)[i]|) ==>
              CleanChar(TokensBeforeNumbers(review, opts)[i][j], review, opts)
    ensures |TokensBeforeNumbers(review, opts)| <= |review|
  {
    var cleaned := CleanedText(review, opts);
    var tokens := TokenizeText(cleaned, opts.tokenizeOnPunctuation);
    var kept := TokensBeforeNumbers(review, opts);
    CleanedTextChars(review, opts);
    SubsequenceProperties(kept, tokens);
    forall i | 0 <= i < |kept|
      ensures IsBareToken(kept[i])
      ensures forall j :: 0 <= j < |kept[i]| ==> CleanChar(kept[i][j], review, opts)
    {
      assert kept[i] in tokens;
      var k :| 0 <= k < |tokens| && tokens[k] == kept[i];
      forall j | 0 <= j < |kept[i]|
        ensures CleanChar(kept[i][j], review, opts)
      {
        ConcatHoldsTokenChars(tokens, k, j);
        FilterCharacterized(cleaned, NotSpace);
      }
    }
    ConcatLengthBound(tokens);
    FilterCharacterized(cleaned, NotSpace);
    SubsequenceProperties(Filter(cleaned, NotSpace), cleaned);
    var text := if opts.removeNonPrintable then RemoveNonPrintable(review) else review;
    if opts.removeNonPrintable {
      SubsequenceProperties(text, review);
    }
  }

  /** The guarantees `preprocess` makes about each review's tokens: a token
      that is not the replacement token is non-empty, holds no whitespace
      and is made of cleaned characters; with a replacement token every
      remaining number token is that token; with punctuation removal and an
      allowed replacement token no token is punctuation-only; and a review
      never yields more tokens than it has characters. */
  lemma {:induction false} ReviewTokensGuarantees(review: string, opts: PreprocessOptions)
    ensures forall i :: 0 <= i < |ReviewTokens(review, opts)| ==>
              var t := ReviewTokens(review, opts)[i];
              (opts.numberReplacementToken.Some? && t == opts.numberReplacementToken.value)
              || (IsBareToken(t) && forall j :: 0 <= j < |t| ==> CleanChar(t[j], review, opts))
    ensures opts.numberReplacementToken.Some? ==>
              forall i ::
                (0 <= i < |ReviewTokens(review, opts)| && IsNumberToken(ReviewTokens(review, opts)[i])) ==>
                ReviewTokens(review, opts)[i] == opts.numberReplacementToken.value
    ensures opts.removePunctuationTokens && ReplacementAllowed(opts.numberReplacementToken) ==>
              forall i :: 0 <= i < |ReviewTokens(review, opts)| ==>
                !IsPunctuationOnly(ReviewTokens(review, opts)[i])
    ensures |ReviewTokens(review, opts)| <= |review|
  {
    TokensBeforeNumbersShape(review, opts);
    var r := ReviewTokens(review, opts);
    if opts.removePunctuationTokens && opts.numberReplacementToken.Some?
       && !HasPunctuation(opts.numberReplacementToken.value) {
      var rep := opts.numberReplacementToken.value;
      if rep != [] {
        assert !IsPunctuation(rep[0]);
      }
    }
  }

  /** Under an allowed replacement token, punctuation removal and number
      replacement commute: running them in the order the docstring lists
      (numbers first) gives the same tokens as the order of the code. */
  lemma {:induction false} NumbersAndPunctuationCommute(tokens: seq<Token>, replacement: Option<Token>)
    requires ReplacementAllowed(replacement)
    ensures RemovePunctuationTokensIfNeeded(NumbersReplaced(tokens, replacement), true)
            == NumbersReplaced(RemovePunctuationTokensIfNeeded(tokens, true), replacement)
  {
    if tokens != [] {
      NumbersAndPunctuationCommute(tokens[1..], replacement);
      var t := tokens[0];
      if replacement.Some? {
        var rep := replacement.value;
        if rep != [] {
          assert !IsPunctuation(rep[0]);
        }
        if IsNumberToken(t) {
          NumberTokenIsNotPunctuation(t);
        }
      }
      var mapped := NumbersReplaced(tokens, replacement);
      assert mapped[1..] == NumbersReplaced(tokens[1..], replacement);
      assert mapped == [mapped[0]] + mapped[1..];
      if KeptByPunctuationFilter(t) {
        assert Filter(tokens, KeptByPunctuationFilter) == [t] + Filter(tokens[1..], KeptByPunctuationFilter);
      }
    }
  }

  // ---------------------------------------------------------------------
  // The corpus

  /** Every review run through the per-review stages. */
  function IntermediateCorpus(reviews: seq<string>, opts: PreprocessOptions): (r: Corpus)
    ensures |r| == |reviews|
  {
    seq(|reviews|, i requires 0 <= i < |reviews| => ReviewTokens(reviews[i], opts))
  }

  /** The tokens the threshold removes from the intermediate corpus. */
  function RemovedTokens(mid: Corpus, threshold: real): set<Token>
    requires TotalTokens(mid) > 0
  {
    HighFreqTokens(CorpusCounts(mid), TotalTokens(mid), threshold)
  }

  /** What `preprocess` returns or raises. */
  function Preprocessed(reviews: seq<string>, opts: PreprocessOptions)
    : Result<Corpus, PreprocessError>
  {
    if reviews == [] then Ok([])
    else if OptionsError(opts).Some? then Err(OptionsError(opts).value)
    else
      var mid := IntermediateCorpus(reviews, opts);
      if opts.highFreqTermThreshold.None? || TotalTokens(mid) == 0 then Ok(mid)
      else Ok(FilterTokensBySet(mid, RemovedTokens(mid, opts.highFreqTermThreshold.value)))
  }

  /** The body of the loop in `preprocess`: the per-review stages, in the
      order the code runs them. */
  method PreprocessReview(review: string, opts: PreprocessOptions) returns (tokens: seq<Token>)
    ensures tokens == ReviewTokens(review, opts)
  {
    var reviewText := review;
    if opts.removeNonPrintable {
      reviewText := RemoveNonPrintable(reviewText);
    }
    var currentText := RemoveHtmlTags(reviewText);
    currentText := ToLowercaseIfNeeded(currentText, opts.toLowercase);
    tokens := TokenizeText(currentText, opts.tokenizeOnPunctuation);
    tokens := RemovePunctuationTokensIfNeeded(tokens, opts.removePunctuationTokens);
    assert tokens == TokensBeforeNumbers(review, opts);
    tokens := ReplaceNumbersIfNeeded(tokens, opts.numberReplacementToken);
  }

  /** `preprocess`: validates the options, processes each review in a loop,
      then counts and filters the corpus when a threshold is given. */
  method Preprocess(reviews: seq<string>, opts: PreprocessOptions)
    returns (r: Result<Corpus, PreprocessError>)
    ensures r == Preprocessed(reviews, opts)
  {
    if reviews == [] {
      return Ok([]);
    }
    if opts.highFreqTermThreshold.Some? && !(0.0 <= opts.highFreqTermThreshold.value <= 1.0) {
      return Err(ThresholdOutOfRange);
    }
    if opts.numberReplacementToken.Some? {
      if HasPunctuation(opts.numberReplacementToken.value) {
        return Err(ReplacementHasPunctuation);
      }
      if ' ' in opts.numberReplacementToken.value {
        return Err(ReplacementHasSpace);
      }
    }
    var intermediate: Corpus := [];
    for i := 0 to |reviews|
      invariant |intermediate| == i
      invariant forall k :: 0 <= k < i ==> intermediate[k] == ReviewTokens(reviews[k], opts)
    {
      var tokens := PreprocessReview(reviews[i], opts);
      intermediate := intermediate + [tokens];
    }
    assert intermediate == IntermediateCorpus(reviews, opts);
    if opts.highFreqTermThreshold.None? {
      return Ok(intermediate);
    }
    var frequencies, total := GetCorpusTokenFrequencies(intermediate);
    if total == 0 {
      return Ok(intermediate);
    }
    var toRemove := IdentifyHighFreqTokens(frequencies, total, opts.highFreqTermThreshold.value);
    return Ok(FilterTokensBySet(intermediate, toRemove));
  }

  // ---------------------------------------------------------------------
  // Properties of `preprocess`

  /** An empty review list is returned before any validation. */
  lemma {:induction false} PreprocessedEmpty(opts: PreprocessOptions)
    ensures Preprocessed([], opts) == Ok([])
  {
  }

  /** For a non-empty review list, `preprocess` raises exactly when the
      options are invalid, and which error depends on the options alone. */
  lemma {:induction false} PreprocessedErrors(reviews: seq<string>, opts: PreprocessOptions)
    requires reviews != []
    ensures Preprocessed(reviews, opts).Err? <==> OptionsError(opts).Some?
    ensures Preprocessed(reviews, opts).Err? ==>
              Preprocessed(reviews, opts).error == OptionsError(opts).value
  {
  }

  /** One output list per review, each a subsequence of that review's own
      tokens. */
  lemma {:induction false} PreprocessedShape(reviews: seq<string>, opts: PreprocessOptions)
    requires Preprocessed(reviews, opts).Ok?
    ensures |Preprocessed(reviews, opts).value| == |reviews|
    ensures forall i :: 0 <= i < |reviews| ==>
              IsSubsequence(Preprocessed(reviews, opts).value[i], ReviewTokens(reviews[i], opts))
  {
    var c := Preprocessed(reviews, opts).value;
    if reviews != [] {
      var mid := IntermediateCorpus(reviews, opts);
      if opts.highFreqTermThreshold.None? || TotalTokens(mid) == 0 {
        forall i | 0 <= i < |reviews| {
          SubsequenceReflexive(mid[i]);
        }
      }
    }
  }

  /** Without a threshold every review is processed on its own: its output
      does not depend on the other reviews. */
  lemma {:induction false} PreprocessedWithoutThreshold(reviews: seq<string>, opts: PreprocessOptions)
    requires reviews != [] && OptionsError(opts).None?
    requires opts.highFreqTermThreshold.None?
    ensures Preprocessed(reviews, opts).Ok?
    ensures forall i :: 0 <= i < |reviews| ==>
              Preprocessed(reviews, opts).value[i] == Preprocessed([reviews[i]], opts).value[0]
  {
  }

  /** With a threshold, a token survives exactly when its corpus frequency
      does not exceed the threshold, and a surviving token keeps all its
      occurrences. */
  lemma {:induction false} PreprocessedThresholdFilter(reviews: seq<string>, opts: PreprocessOptions)
    requires reviews != [] && OptionsError(opts).None?
    requires opts.highFreqTermThreshold.Some?
    requires TotalTokens(IntermediateCorpus(reviews, opts)) > 0
    ensures forall i, t :: 0 <= i < |reviews| ==>
              var mid := IntermediateCorpus(reviews, opts);
              Count(Preprocessed(reviews, opts).value[i], t)
              == if Occurrences(mid, t) > 0
                    && (Occurrences(mid, t) as real) / (TotalTokens(mid) as real)
                       > opts.highFreqTermThreshold.value
                 then 0 else Count(mid[i], t)
  {
    var mid := IntermediateCorpus(reviews, opts);
    assert Preprocessed(reviews, opts).value
           == FilterTokensBySet(mid, RemovedTokens(mid, opts.highFreqTermThreshold.value));
    FrequencyFilterCounts(mid, opts.highFreqTermThreshold.value);
  }

  /** The high-frequency filter on any corpus, token by token. */
  lemma {:induction false} FrequencyFilterCounts(corpus: Corpus, threshold: real)
    requires TotalTokens(corpus) > 0
    ensures forall i, t :: 0 <= i < |corpus| ==>
              Count(FilterTokensBySet(corpus, RemovedTokens(corpus, threshold))[i], t)
              == if Occurrences(corpus, t) > 0
                    && (Occurrences(corpus, t) as real) / (TotalTokens(corpus) as real) > threshold
                 then 0 else Count(corpus[i], t)
  {
    var removed := RemovedTokens(corpus, threshold);
    var r := FilterTokensBySet(corpus, removed);
    CorpusCountsCharacterized(corpus);
    forall i, t | 0 <= i < |corpus|
      ensures Count(r[i], t)
              == if Occurrences(corpus, t) > 0
                    && (Occurrences(corpus, t) as real) / (TotalTokens(corpus) as real) > threshold
                 then 0 else Count(corpus[i], t)
    {
      assert Count(r[i], t) == if t in removed then 0 else Count(corpus[i], t);
      assert t in removed <==>
             t in CorpusCounts(corpus)
             && IsHighFrequency(CorpusCounts(corpus)[t], TotalTokens(corpus), threshold);
      if Occurrences(corpus, t) == 0 {
        OccurrencesBound(corpus, i, t);
      }
    }
  }

  lemma {:induction false} OccurrencesBound(corpus: Corpus, i: nat, t: Token)
    requires i < |corpus|
    ensures Count(corpus[i], t) <= Occurrences(corpus, t)
  {
    if i > 0 {
      OccurrencesBound(corpus[1..], i - 1, t);
    }
  }

  lemma {:induction false} OccurrencesAtMostTotal(corpus: Corpus, t: Token)
    ensures Occurrences(corpus, t) <= TotalTokens(corpus)
  {
    if corpus != [] {
      OccurrencesAtMostTotal(corpus[1..], t);
      CountAtMostLength(corpus[0], t);
    }
  }

  lemma {:induction false} CountAtMostLength(s: seq<Token>, t: Token)
    ensures Count(s, t) <= |s|
  {
    if s != [] {
      CountAtMostLength(s[1..], t);
    }
  }

  /** A higher threshold removes less: each output list under the lower
      threshold is a subsequence of the one under the higher. */
  lemma {:induction false} PreprocessedThresholdMonotone(reviews: seq<string>, opts: PreprocessOptions, lower: real, higher: real)
    requires reviews != [] && OptionsError(opts).None?
    requires 0.0 <= lower <= higher <= 1.0
    ensures var lo := Preprocessed(reviews, opts.(highFreqTermThreshold := Some(lower)));
            var hi := Preprocessed(reviews, opts.(highFreqTermThreshold := Some(higher)));
            lo.Ok? && hi.Ok? && |lo.value| == |hi.value|
            && forall i :: 0 <= i < |lo.value| ==> IsSubsequence(lo.value[i], hi.value[i])
  {
    var lowOpts := opts.(highFreqTermThreshold := Some(lower));
    var highOpts := opts.(highFreqTermThreshold := Some(higher));
    var mid := IntermediateCorpus(reviews, opts);
    assert IntermediateCorpus(reviews, lowOpts) == mid;
    assert IntermediateCorpus(reviews, highOpts) == mid;
    if TotalTokens(mid) == 0 {
      forall i | 0 <= i < |mid| {
        SubsequenceReflexive(mid[i]);
      }
    } else {
      HighFreqMonotone(CorpusCounts(mid), TotalTokens(mid), lower, higher);
      forall i | 0 <= i < |mid| {
        FilterBySupersetIsSubsequence(mid[i], RemovedTokens(mid, higher), RemovedTokens(mid, lower));
      }
    }
  }

  /** Threshold 1.0 removes nothing: no token is more frequent than the
      whole corpus. */
  lemma {:induction false} PreprocessedThresholdOne(reviews: seq<string>, opts: PreprocessOptions)
    requires reviews != [] && OptionsError(opts).None?
    requires opts.highFreqTermThreshold == Some(1.0)
    ensures Preprocessed(reviews, opts) == Ok(IntermediateCorpus(reviews, opts))
  {
    var mid := IntermediateCorpus(reviews, opts);
    if TotalTokens(mid) > 0 {
      CorpusCountsCharacterized(mid);
      forall t | t in CorpusCounts(mid)
        ensures CorpusCounts(mid)[t] <= TotalTokens(mid)
      {
        OccurrencesAtMostTotal(mid, t);
      }
      HighFreqAtOne(CorpusCounts(mid), TotalTokens(mid));
    }
  }

  // ---------------------------------------------------------------------
  // Reviews of plain lowercase words

  /** A non-empty run of lowercase ASCII letters. */
  predicate IsLowerWord(t: Token) {
    t != [] && forall i :: 0 <= i < |t| ==> 'a' <= t[i] <= 'z'
  }

  predicate IsLowerOrSpace(c: char) {
    'a' <= c <= 'z' || c == ' '
  }

  /** A review of lowercase words separated by single spaces comes out of
      the per-review stages as exactly its words, whatever the options:
      nothing is non-printable, no tag, no capital, no punctuation and no
      number, and both tokenizers split it at the spaces. */
  lemma {:induction false} PlainReviewTokens(ts: seq<Token>, opts: PreprocessOptions)
    requires forall i :: 0 <= i < |ts| ==> IsLowerWord(ts[i])
    ensures ReviewTokens(JoinWithSpace(ts), opts) == ts
  {
    var s := JoinWithSpace(ts);
    JoinWithSpaceChars(ts, IsLowerOrSpace);
    PlainTextCleaned(s, opts);
    PlainWordsTokenized(ts, opts.tokenizeOnPunctuation);
    PlainWordsKept(ts, opts.removePunctuationTokens);
    PlainWordsNotNumbers(ts, opts.numberReplacementToken);
  }

  lemma {:induction false} PlainTextCleaned(s: string, opts: PreprocessOptions)
    requires forall i :: 0 <= i < |s| ==> IsLowerOrSpace(s[i])
    ensures CleanedText(s, opts) == s
  {
    if opts.removeNonPrintable {
      FilterKeepsAll(s, IsPrintable);
    }
    var text := if opts.removeNonPrintable then RemoveNonPrintable(s) else s;
    assert RemoveHtmlTags(text) == s;
    assert ToLowercaseIfNeeded(s, opts.toLowercase) == s;
  }

  lemma {:induction false} PlainWordsTokenized(ts: seq<Token>, tokenizeOnPunctuation: bool)
    requires forall i :: 0 <= i < |ts| ==> IsLowerWord(ts[i])
    ensures TokenizeText(JoinWithSpace(ts), tokenizeOnPunctuation) == ts
  {
    var s := JoinWithSpace(ts);
    assert forall i :: 0 <= i < |ts| ==> IsBareToken(ts[i]) && IsWordRun(ts[i]);
    SplitJoinRoundTrip(ts);
    TokenizeDropsNothing(s, tokenizeOnPunctuation);
    if tokenizeOnPunctuation {
      PunctuationTokensRefineSplit(s);
      PunctuationTokensOfWordRuns(ts);
    }
  }

  lemma {:induction false} PlainWordsKept(ts: seq<Token>, removePunctuation: bool)
    requires forall i :: 0 <= i < |ts| ==> IsLowerWord(ts[i])
    ensures RemovePunctuationTokensIfNeeded(ts, removePunctuation) == ts
  {
    if removePunctuation {
      forall i | 0 <= i < |ts|
        ensures KeptByPunctuationFilter(ts[i])
      {
        assert !IsPunctuation(ts[i][0]);
      }
      FilterKeepsAll(ts, KeptByPunctuationFilter);
    }
  }

  lemma {:induction false} PlainWordsNotNumbers(ts: seq<Token>, replacement: Option<Token>)
    requires forall i :: 0 <= i < |ts| ==> IsLowerWord(ts[i])
    ensures NumbersReplaced(ts, replacement) == ts
  {
    forall i | 0 <= i < |ts|
      ensures !IsNumberToken(ts[i])
    {
      LeadingOtherIsNotNumber(ts[i]);
    }
  }

  /** The three reviews of the frequency scenario, each three words joined
      by single spaces. */
  function ThreeReviews(w: seq<Token>): seq<string>
    requires |w| == 6
  {
    [JoinWithSpace([w[0], w[1], w[2]]), JoinWithSpace([w[0], w[3], w[2]]), JoinWithSpace([w[0], w[4], w[5]])]
  }

  lemma {:induction false} ThreeReviewsIntermediate(w: seq<Token>, opts: PreprocessOptions)
    requires |w| == 6 && forall i :: 0 <= i < 6 ==> IsLowerWord(w[i])
    ensures IntermediateCorpus(ThreeReviews(w), opts) == ThreeReviewCorpus(w)
  {
    var d0, d1, d2 := [w[0], w[1], w[2]], [w[0], w[3], w[2]], [w[0], w[4], w[5]];
    assert IsLowerWord(w[0]) && IsLowerWord(w[1]) && IsLowerWord(w[2]);
    assert IsLowerWord(w[3]) && IsLowerWord(w[4]) && IsLowerWord(w[5]);
    PlainThreeWordReview(w[0], w[1], w[2], opts);
    PlainThreeWordReview(w[0], w[3], w[2], opts);
    PlainThreeWordReview(w[0], w[4], w[5], opts);
    IntermediateOfThree(JoinWithSpace(d0), JoinWithSpace(d1), JoinWithSpace(d2), d0, d1, d2, opts);
  }

  lemma {:induction false} PlainThreeWordReview(a: Token, b: Token, c: Token, opts: PreprocessOptions)
    requires IsLowerWord(a) && IsLowerWord(b) && IsLowerWord(c)
    ensures ReviewTokens(JoinWithSpace([a, b, c]), opts) == [a, b, c]
  {
    var ts := [a, b, c];
    forall i | 0 <= i < |ts|
      ensures IsLowerWord(ts[i])
    {
    }
    PlainReviewTokens(ts, opts);
  }

  lemma {:induction false} IntermediateOfThree(r0: string, r1: string, r2: string,
                                               d0: seq<Token>, d1: seq<Token>, d2: seq<Token>,
                                               opts: PreprocessOptions)
    requires ReviewTokens(r0, opts) == d0 && ReviewTokens(r1, opts) == d1 && ReviewTokens(r2, opts) == d2
    ensures IntermediateCorpus([r0, r1, r2], opts) == [d0, d1, d2]
  {
  }

  /** `preprocess` of the three reviews with thresholds 0.3 and 0.2, for
      any six distinct lowercase words and any otherwise valid options. */
  lemma {:induction false} PreprocessedThreeReviews(w: seq<Token>, opts: PreprocessOptions)
    requires |w| == 6 && forall i :: 0 <= i < 6 ==> IsLowerWord(w[i])
    requires forall i, j :: 0 <= i < j < 6 ==> w[i] != w[j]
    requires ReplacementAllowed(opts.numberReplacementToken)
    ensures Preprocessed(ThreeReviews(w), opts.(highFreqTermThreshold := Some(0.3)))
            == Ok([[w[1], w[2]], [w[3], w[2]], [w[4], w[5]]])
    ensures Preprocessed(ThreeReviews(w), opts.(highFreqTermThreshold := Some(0.2)))
            == Ok([[w[1]], [w[3]], [w[4], w[5]]])
  {
    ThreeReviewRemoved(w);
    FrequencyFilterScenario(w);
    PreprocessedThreeReviewsAt(w, opts.(highFreqTermThreshold := Some(0.3)));
    PreprocessedThreeReviewsAt(w, opts.(highFreqTermThreshold := Some(0.2)));
  }

  lemma {:induction false} PreprocessedThreeReviewsAt(w: seq<Token>, opts: PreprocessOptions)
    requires |w| == 6 && forall i :: 0 <= i < 6 ==> IsLowerWord(w[i])
    requires TotalTokens(ThreeReviewCorpus(w)) > 0
    requires OptionsError(opts).None? && opts.highFreqTermThreshold.Some?
    ensures Preprocessed(ThreeReviews(w), opts)
            == Ok(FilterTokensBySet(ThreeReviewCorpus(w),
                                    RemovedTokens(ThreeReviewCorpus(w), opts.highFreqTermThreshold.value)))
  {
    ThreeReviewsIntermediate(w, opts);
  }

  /** Scenario 5 of the inline tests, on its literal reviews. */
  lemma {:induction false} PreprocessScenarioFive()
    ensures Preprocessed(["the cat sat", "the dog sat", "the bird flew"],
                         DefaultOptions.(toLowercase := true, highFreqTermThreshold := Some(0.3)))
            == Ok([["cat", "sat"], ["dog", "sat"], ["bird", "flew"]])
    ensures Preprocessed(["the cat sat", "the dog sat", "the bird flew"],
                         DefaultOptions.(toLowercase := true, highFreqTermThreshold := Some(0.2)))
            == Ok([["cat"], ["dog"], ["bird", "flew"]])
  {
    var w: seq<Token> := ["the", "cat", "sat", "dog", "bird", "flew"];
    ScenarioFiveWords(w);
    ScenarioFiveReviews(w);
    PreprocessedThreeReviews(w, DefaultOptions.(toLowercase := true));
  }

  lemma {:induction false} ScenarioFiveWords(w: seq<Token>)
    requires w == ["the", "cat", "sat", "dog", "bird", "flew"]
    ensures |w| == 6 && forall i :: 0 <= i < 6 ==> IsLowerWord(w[i])
    ensures forall i, j :: 0 <= i < j < 6 ==> w[i] != w[j]
  {
    assert IsLowerWord("the") && IsLowerWord("cat") && IsLowerWord("sat");
    assert IsLowerWord("dog") && IsLowerWord("bird") && IsLowerWord("flew");
    assert "the"[0] == 't' && "cat"[0] == 'c' && "sat"[0] == 's' && "dog"[0] == 'd' && "bird"[0] == 'b';
  }

  lemma {:induction false} ScenarioFiveReviews(w: seq<Token>)
    requires w == ["the", "cat", "sat", "dog", "bird", "flew"]
    ensures ThreeReviews(w) == ["the cat sat", "the dog sat", "the bird flew"]
  {
    JoinThree("the", "cat", "sat");
    JoinThree("the", "dog", "sat");
    JoinThree("the", "bird", "flew");
    assert "the" + " " + ("cat" + " " + "sat") == "the cat sat";
    assert "the" + " " + ("dog" + " " + "sat") == "the dog sat";
    assert "the" + " " + ("bird" + " " + "flew") == "the bird flew";
  }

  lemma {:induction false} JoinThree(a: Token, b: Token, c: Token)
    ensures JoinWithSpace([a, b, c]) == a + " " + (b + " " + c)
  {
    var ts := [a, b, c];
    assert ts[1..] == [b, c] && ts[1..][1..] == [c];
    assert JoinWithSpace([b, c]) == b + " " + JoinWithSpace([c]);
  }

  /** The shape of the three reviews "the cat sat", "the dog sat" and
      "the bird flew", over any six distinct words `w`. */
  function ThreeReviewCorpus(w: seq<Token>): Corpus
    requires |w| == 6
  {
    [[w[0], w[1], w[2]], [w[0], w[3], w[2]], [w[0], w[4], w[5]]]
  }

  /** The first word occurs 3 times in 9 and the third twice: 0.3 selects
      the first, 0.2 selects both. */
  lemma {:induction false} ThreeReviewRemoved(w: seq<Token>)
    requires |w| == 6 && forall i, j :: 0 <= i < j < 6 ==> w[i] != w[j]
    ensures TotalTokens(ThreeReviewCorpus(w)) == 9
    ensures forall i :: 0 <= i < 6 ==>
      (w[i] in RemovedTokens(ThreeReviewCorpus(w), 0.3) <==> i == 0)
      && (w[i] in RemovedTokens(ThreeReviewCorpus(w), 0.2) <==> i == 0 || i == 2)
  {
    var corpus := ThreeReviewCorpus(w);
    ThreeDocumentTotals(corpus[0], corpus[1], corpus[2], w[0]);
    CorpusCountsCharacterized(corpus);
    forall i | 0 <= i < 6
      ensures (w[i] in RemovedTokens(corpus, 0.3) <==> i == 0)
      ensures (w[i] in RemovedTokens(corpus, 0.2) <==> i == 0 || i == 2)
    {
      var t := w[i];
      ThreeDocumentTotals(corpus[0], corpus[1], corpus[2], t);
      CountOfThree(w[0], w[1], w[2], t);
      CountOfThree(w[0], w[3], w[2], t);
      CountOfThree(w[0], w[4], w[5], t);
      assert Occurrences(corpus, t) == (if i == 0 then 3 else if i == 2 then 2 else 1);
    }
  }

  lemma {:induction false} FilterThreeDocumentTotals(d0: seq<Token>, d1: seq<Token>, d2: seq<Token>, remove: set<Token>)
    ensures FilterTokensBySet([d0, d1, d2], remove)
            == [Filter(d0, NotIn(remove)), Filter(d1, NotIn(remove)), Filter(d2, NotIn(remove))]
  {
    var r := FilterTokensBySet([d0, d1, d2], remove);
    assert r[0] == Filter(d0, NotIn(remove)) && r[1] == Filter(d1, NotIn(remove)) && r[2] == Filter(d2, NotIn(remove));
  }

  lemma {:induction false} ThreeReviewFilter(w: seq<Token>, remove: set<Token>, dropSecond: bool)
    requires |w| == 6
    requires forall i :: 0 <= i < 6 ==> (w[i] in remove <==> i == 0 || (dropSecond && i == 2))
    ensures FilterTokensBySet(ThreeReviewCorpus(w), remove)
            == if dropSecond then [[w[1]], [w[3]], [w[4], w[5]]]
               else [[w[1], w[2]], [w[3], w[2]], [w[4], w[5]]]
  {
    var keep := NotIn(remove);
    assert !keep(w[0]) && keep(w[1]) && keep(w[3]) && keep(w[4]) && keep(w[5]);
    assert keep(w[2]) <==> !dropSecond;
    FilterThreeDocumentTotals([w[0], w[1], w[2]], [w[0], w[3], w[2]], [w[0], w[4], w[5]], remove);
    FilterOfThree(w[0], w[1], w[2], keep);
    FilterOfThree(w[0], w[3], w[2], keep);
    FilterOfThree(w[0], w[4], w[5], keep);
    var tail := if dropSecond then [] else [w[2]];
    assert Filter([w[0], w[1], w[2]], keep) == [w[1]] + tail;
    assert Filter([w[0], w[3], w[2]], keep) == [w[3]] + tail;
    assert Filter([w[0], w[4], w[5]], keep) == [w[4], w[5]];
    assert ThreeReviewCorpus(w) == [[w[0], w[1], w[2]], [w[0], w[3], w[2]], [w[0], w[4], w[5]]];
    if dropSecond {
      assert [w[1]] + tail == [w[1]] && [w[3]] + tail == [w[3]];
    } else {
      assert [w[1]] + tail == [w[1], w[2]] && [w[3]] + tail == [w[3], w[2]];
    }
  }

  /** The two high-frequency scenarios: threshold 0.3 removes the word
      occurring in every review, 0.2 also removes the word occurring in
      two of them. */
  lemma {:induction false} FrequencyFilterScenario(w: seq<Token>)
    requires |w| == 6 && forall i, j :: 0 <= i < j < 6 ==> w[i] != w[j]
    ensures FilterTokensBySet(ThreeReviewCorpus(w), RemovedTokens(ThreeReviewCorpus(w), 0.3))
            == [[w[1], w[2]], [w[3], w[2]], [w[4], w[5]]]
    ensures FilterTokensBySet(ThreeReviewCorpus(w), RemovedTokens(ThreeReviewCorpus(w), 0.2))
            == [[w[1]], [w[3]], [w[4], w[5]]]
  {
    ThreeReviewRemoved(w);
    ThreeReviewFilter(w, RemovedTokens(ThreeReviewCorpus(w), 0.3), false);
    ThreeReviewFilter(w, RemovedTokens(ThreeReviewCorpus(w), 0.2), true);
  }
}
