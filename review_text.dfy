/** The per-review stages of the review preprocessor in
    exercise_03/preprocessing.py: tag removal, non-printable removal,
    optional lowercasing, tokenization, punctuation-token removal and
    number replacement. */
module ReviewText {
  import opened Text
  import opened TokenLists
  import opened Scanners

  // ---------------------------------------------------------------------
  // Character-level stages

  /** `_remove_html_tags`: deletes every match of `<[^>]+>`. */
  function RemoveHtmlTags(text: string): (r: string)
    ensures IsSubsequence(r, text) && |r| <= |text|
    ensures (forall i :: 0 <= i < |text| ==> text[i] != '<') ==> r == text
  {
    StripTagsSubsequence(text, 1);
    if forall i :: 0 <= i < |text| ==> text[i] != '<' then
      StripTagsWithoutBrackets(text, 1);
      StripTags(text, 1)
    else
      StripTags(text, 1)
  }

  /** A tag with a non-empty inside is deleted and the scan resumes after
      it; an empty `<>` is not a match of `<[^>]+>` and stays. */
  lemma {:induction false} RemoveHtmlTagsOnTags(t: string, b: string)
    ensures t != [] && (forall i :: 0 <= i < |t| ==> t[i] != '>') ==>
      RemoveHtmlTags("<" + t + ">" + b) == RemoveHtmlTags(b)
    ensures RemoveHtmlTags("<>" + b) == "<>" + RemoveHtmlTags(b)
  {
    if t != [] && (forall i :: 0 <= i < |t| ==> t[i] != '>') {
      StripTagsRemovesTag(t, b, 1);
    }
    var s := "<>" + b;
    assert FirstGt(s[1..]) == Some(0);
    assert StripTags(s, 1) == "<" + StripTags(s[1..], 1);
    assert s[1..][1..] == b;
    assert StripTags(s[1..], 1) == ">" + StripTags(b, 1);
  }

  /** `_remove_non_printable`: keeps exactly the printable characters, in
      order and with their multiplicities. */
  function RemoveNonPrintable(text: string): (r: string)
    ensures forall i :: 0 <= i < |r| ==> IsPrintable(r[i])
    ensures IsSubsequence(r, text)
    ensures forall c :: IsPrintable(c) ==> Count(r, c) == Count(text, c)
  {
    FilterCharacterized(text, IsPrintable);
    Filter(text, IsPrintable)
  }

  /** A NUL or a tab between printable text is dropped and the text on
      both sides is joined. */
  lemma {:induction false} RemoveNonPrintableJoins(a: string, c: char, b: string)
    requires forall i :: 0 <= i < |a| ==> IsPrintable(a[i])
    requires forall i :: 0 <= i < |b| ==> IsPrintable(b[i])
    requires c == '\U{0}' || c == '\t'
    ensures RemoveNonPrintable(a + [c] + b) == a + b
  {
    var ac := a + [c];
    assert !IsPrintable(c);
    assert Filter([c], IsPrintable) == [];
    FilterAppend(a, [c], IsPrintable);
    FilterKeepsAll(a, IsPrintable);
    assert Filter(ac, IsPrintable) == a;
    FilterAppend(ac, b, IsPrintable);
    FilterKeepsAll(b, IsPrintable);
  }

  /** `_to_lowercase_if_needed`. */
  function ToLowercaseIfNeeded(text: string, toLowercase: bool): (r: string)
    ensures |r| == |text|
    ensures forall i :: 0 <= i < |text| ==>
              r[i] == (if toLowercase then LowerChar(text[i]) else text[i])
  {
    if toLowercase then Lower(text) else text
  }

  /** The inline tests of `_to_lowercase_if_needed`: each capital becomes
      its own lowercase letter, and everything else is kept. */
  lemma {:induction false} LowercaseExamples()
    ensures ToLowercaseIfNeeded("Hello World", true) == "hello world"
    ensures ToLowercaseIfNeeded("Hello World", false) == "Hello World"
    ensures ToLowercaseIfNeeded("ALREADY_LOWER", true) == "already_lower"
    ensures ToLowercaseIfNeeded("", true) == ""
    ensures ToLowercaseIfNeeded("With Numbers 123", true) == "with numbers 123"
  {
    LowercaseMatches("Hello World", "hello world");
    LowercaseMatches("ALREADY_LOWER", "already_lower");
    LowercaseMatches("With Numbers 123", "with numbers 123");
  }

  /** Lowercasing gives `t` when `t` agrees with `s` position by position. */
  lemma {:induction false} LowercaseMatches(s: string, t: string)
    requires |s| == |t| && forall i :: 0 <= i < |s| ==> LowerChar(s[i]) == t[i]
    ensures ToLowercaseIfNeeded(s, true) == t
  {
  }

  // ---------------------------------------------------------------------
  // The numeric pattern ^[+-]?(\d+(\.\d*)?|\.\d+)$ under re.fullmatch

  /** States of a left-to-right recogniser for the numeric pattern. */
  datatype NumberState =
    | Start       // nothing read
    | Signed      // read the optional sign
    | IntDigits   // read one or more integer digits (accepting)
    | IntDot      // read digits and a point (accepting)
    | FracDigits  // read digits after a point (accepting)
    | LeadDot     // read a point with no digits before it
    | Reject      // no continuation can match

  function NumberStep(q: NumberState, c: char): NumberState
  {
    match q
    case Start =>
      if c == '+' || c == '-' then Signed
      else if IsDigit(c) then IntDigits
      else if c == '.' then LeadDot
      else Reject
    case Signed =>
      if IsDigit(c) then IntDigits else if c == '.' then LeadDot else Reject
    case IntDigits =>
      if IsDigit(c) then IntDigits else if c == '.' then IntDot else Reject
    case IntDot => if IsDigit(c) then FracDigits else Reject
    case FracDigits => if IsDigit(c) then FracDigits else Reject
    case LeadDot => if IsDigit(c) then FracDigits else Reject
    case Reject => Reject
  }

  function NumberRun(q: NumberState, s: string): NumberState
    decreases |s|
  {
    if s == [] then q else NumberRun(NumberStep(q, s[0]), s[1..])
  }

  predicate IsAccepting(q: NumberState) {
    q == IntDigits || q == IntDot || q == FracDigits
  }

  /** `re.fullmatch(r"^[+-]?(\d+(\.\d*)?|\.\d+)$", token)` succeeds. */
  predicate IsNumberToken(token: string) {
    IsAccepting(NumberRun(Start, token))
  }

  // The pattern read as a grammar, independently of the recogniser.

  predicate AllDigits(s: string) {
    forall i :: 0 <= i < |s| ==> IsDigit(s[i])
  }

  /** `\d*(\.\d*)?`: what may follow the first integer digit. */
  predicate DigitsOptionalFraction(s: string) {
    AllDigits(s)
    || exists k :: 0 <= k < |s| && s[k] == '.' && AllDigits(s[..k]) && AllDigits(s[k + 1..])
  }

  /** `\d+(\.\d*)?|\.\d+`. */
  predicate IsUnsignedNumber(b: string) {
    (b != [] && IsDigit(b[0]) && DigitsOptionalFraction(b[1..]))
    || (|b| >= 2 && b[0] == '.' && AllDigits(b[1..]))
  }

  /** `[+-]?` followed by an unsigned number, the whole string. */
  predicate MatchesNumberPattern(s: string) {
    if s != [] && (s[0] == '+' || s[0] == '-') then IsUnsignedNumber(s[1..])
    else IsUnsignedNumber(s)
  }

  lemma {:induction false} RejectIsFinal(s: string)
    ensures NumberRun(Reject, s) == Reject
    decreases |s|
  {
    if s != [] {
      RejectIsFinal(s[1..]);
    }
  }

  lemma {:induction false} RunFromFraction(s: string)
    ensures IsAccepting(NumberRun(FracDigits, s)) <==> AllDigits(s)
    ensures IsAccepting(NumberRun(IntDot, s)) <==> AllDigits(s)
    decreases |s|
  {
    if s != [] {
      RunFromFraction(s[1..]);
      if !IsDigit(s[0]) {
        RejectIsFinal(s[1..]);
      }
    }
  }

  lemma {:induction false} DigitsOptionalFractionAfterDigit(s: string)
    requires s != [] && IsDigit(s[0])
    ensures DigitsOptionalFraction(s) <==> DigitsOptionalFraction(s[1..])
  {
    var t := s[1..];
    assert AllDigits(s) <==> AllDigits(t) by {
      assert forall i :: 0 <= i < |t| ==> t[i] == s[i + 1];
    }
    if DigitsOptionalFraction(s) && !AllDigits(s) {
      var k :| 0 <= k < |s| && s[k] == '.' && AllDigits(s[..k]) && AllDigits(s[k + 1..]);
      FractionShift(s, k);
    }
    if DigitsOptionalFraction(t) && !AllDigits(t) {
      var k :| 0 <= k < |t| && t[k] == '.' && AllDigits(t[..k]) && AllDigits(t[k + 1..]);
      FractionUnshift(s, k);
    }
  }

  lemma {:induction false} FractionShift(s: string, k: nat)
    requires 0 <= k < |s| && s != [] && IsDigit(s[0])
    requires s[k] == '.' && AllDigits(s[..k]) && AllDigits(s[k + 1..])
    ensures DigitsOptionalFraction(s[1..])
  {
    var t := s[1..];
    assert k > 0;
    assert t[k - 1] == '.';
    assert t[..k - 1] == s[1..k];
    assert t[k..] == s[k + 1..];
  }

  lemma {:induction false} FractionUnshift(s: string, k: nat)
    requires s != [] && IsDigit(s[0]) && 0 <= k < |s| - 1
    requires s[1..][k] == '.' && AllDigits(s[1..][..k]) && AllDigits(s[1..][k + 1..])
    ensures DigitsOptionalFraction(s)
  {
    var t := s[1..];
    assert s[k + 1] == '.';
    assert s[k + 2..] == t[k + 1..];
    assert AllDigits(s[..k + 1]);
  }

  lemma {:induction false} DigitsOptionalFractionAfterPoint(s: string)
    requires s != [] && s[0] == '.'
    ensures DigitsOptionalFraction(s) <==> AllDigits(s[1..])
  {
    assert s[..0] == [];
    assert !AllDigits(s);
  }

  lemma {:induction false} DigitsOptionalFractionAfterOther(s: string)
    requires s != [] && !IsDigit(s[0]) && s[0] != '.'
    ensures !DigitsOptionalFraction(s)
  {
  }

  lemma {:induction false} RunFromIntDigits(s: string)
    ensures IsAccepting(NumberRun(IntDigits, s)) <==> DigitsOptionalFraction(s)
    decreases |s|
  {
    if s != [] {
      if IsDigit(s[0]) {
        RunFromIntDigits(s[1..]);
        DigitsOptionalFractionAfterDigit(s);
      } else if s[0] == '.' {
        RunFromFraction(s[1..]);
        DigitsOptionalFractionAfterPoint(s);
      } else {
        RejectIsFinal(s[1..]);
        DigitsOptionalFractionAfterOther(s);
      }
    }
  }

  lemma {:induction false} RunFromUnsigned(b: string, q: NumberState)
    requires q == Start || q == Signed
    requires q == Start ==> b == [] || (b[0] != '+' && b[0] != '-')
    ensures IsAccepting(NumberRun(q, b)) <==> IsUnsignedNumber(b)
  {
    if b != [] {
      var t := b[1..];
      if IsDigit(b[0]) {
        RunFromIntDigits(t);
      } else if b[0] == '.' {
        assert NumberStep(q, b[0]) == LeadDot;
        if t == [] {
        } else if IsDigit(t[0]) {
          RunFromFraction(t[1..]);
          assert AllDigits(t) <==> AllDigits(t[1..]);
        } else {
          RejectIsFinal(t[1..]);
        }
      } else {
        RejectIsFinal(t);
      }
    }
  }

  /** The recogniser accepts exactly the strings the pattern fully matches. */
  lemma {:induction false} NumberRecogniserMatchesPattern(s: string)
    ensures IsNumberToken(s) <==> MatchesNumberPattern(s)
  {
    if s != [] && (s[0] == '+' || s[0] == '-') {
      RunFromUnsigned(s[1..], Signed);
    } else {
      RunFromUnsigned(s, Start);
    }
  }

  lemma {:induction false} NumberTokenExamples()
    ensures IsNumberToken("123") && IsNumberToken("45") && IsNumberToken("-3.14")
    ensures IsNumberToken("+7.") && IsNumberToken(".5")
  {
  }

  lemma {:induction false} NonNumberTokenExamples()
    ensures !IsNumberToken("") && !IsNumberToken(".") && !IsNumberToken("+") && !IsNumberToken("12a")
  {
    var a := "12a";
    assert a[1..] == "2a" && a[1..][1..] == "a";
  }

  /** A token that starts with anything but a sign, a digit or a point is
      not a number, whatever follows ("word123word", for one). */
  lemma {:induction false} LeadingOtherIsNotNumber(s: string)
    requires s != [] && s[0] != '+' && s[0] != '-' && s[0] != '.' && !IsDigit(s[0])
    ensures !IsNumberToken(s)
  {
    assert NumberRun(Start, s) == NumberRun(Reject, s[1..]);
    RejectIsFinal(s[1..]);
  }

  /** A second point ends every match. */
  lemma {:induction false} SecondPointIsNotNumber()
    ensures !IsNumberToken("1.2.3")
  {
    var p := "1.2.3";
    assert p[1..] == ".2.3" && p[2..] == "2.3" && p[3..] == ".3" && p[4..] == "3";
    assert NumberRun(Start, p) == NumberRun(IntDigits, p[1..]);
    assert NumberRun(IntDigits, p[1..]) == NumberRun(IntDot, p[2..]);
    assert NumberRun(IntDot, p[2..]) == NumberRun(FracDigits, p[3..]);
    assert NumberRun(FracDigits, p[3..]) == NumberRun(Reject, p[4..]);
    RejectIsFinal(p[4..]);
  }

  // ---------------------------------------------------------------------
  // _replace_numbers_if_needed

  /** The token list with every number token replaced, when a replacement
      token is given. */
  function NumbersReplaced(tokens: seq<Token>, replacement: Option<Token>): (r: seq<Token>)
    ensures |r| == |tokens|
    ensures forall i :: 0 <= i < |tokens| ==>
              r[i] == (if replacement.Some? && IsNumberToken(tokens[i])
                       then replacement.value else tokens[i])
  {
    if tokens == [] then []
    else
      [if replacement.Some? && IsNumberToken(tokens[0]) then replacement.value else tokens[0]]
      + NumbersReplaced(tokens[1..], replacement)
  }

  /** `_replace_numbers_if_needed`: `None` returns the list itself; otherwise
      a new list is built by appending, one token at a time, either the
      replacement or the token. */
  method ReplaceNumbersIfNeeded(tokens: seq<Token>, replacement: Option<Token>)
    returns (r: seq<Token>)
    ensures replacement.None? ==> r == tokens
    ensures |r| == |tokens|
    ensures forall i :: 0 <= i < |tokens| ==>
              (replacement.Some? && IsNumberToken(tokens[i]) ==> r[i] == replacement.value)
              && (!(replacement.Some? && IsNumberToken(tokens[i])) ==> r[i] == tokens[i])
    ensures r == NumbersReplaced(tokens, replacement)
  {
    if replacement.None? {
      return tokens;
    }
    r := [];
    for i := 0 to |tokens|
      invariant |r| == i
      invariant forall k :: 0 <= k < i ==>
                  r[k] == (if IsNumberToken(tokens[k]) then replacement.value else tokens[k])
    {
      if IsNumberToken(tokens[i]) {
        r := r + [replacement.value];
      } else {
        r := r + [tokens[i]];
      }
    }
  }

  // ---------------------------------------------------------------------
  // _tokenize_text

  /** Length of the longest prefix of `s` made of word characters. */
  function WordRun(s: string): (n: nat)
    ensures n <= |s|
    ensures forall i :: 0 <= i < n ==> IsWordChar(s[i])
    ensures n == |s| || !IsWordChar(s[n])
  {
    if s == [] || !IsWordChar(s[0]) then 0 else 1 + WordRun(s[1..])
  }

  /** `re.findall(r"\w+|[^\s\w]", s)`: scanning left to right, whitespace is
      skipped, a word character starts a token that takes the whole run of
      word characters, and any other character is a token by itself. */
  function PunctuationTokens(s: string): seq<Token>
    decreases |s|
  {
    if s == [] then []
    else if IsSpace(s[0]) then PunctuationTokens(s[1..])
    else if IsWordChar(s[0]) then
      var n := WordRun(s);
      [s[..n]] + PunctuationTokens(s[n..])
    else [[s[0]]] + PunctuationTokens(s[1..])
  }

  predicate IsWordRun(t: string) {
    t != [] && forall i :: 0 <= i < |t| ==> IsWordChar(t[i])
  }

  /** A single character that is neither a word character nor whitespace. */
  predicate IsSymbolToken(t: string) {
    |t| == 1 && !IsWordChar(t[0]) && !IsSpace(t[0])
  }

  /** Every token is a word run or a lone symbol, and the tokens joined give
      the input with its whitespace deleted. */
  lemma {:induction false} PunctuationTokensShape(s: string)
    ensures forall t :: t in PunctuationTokens(s) ==> IsWordRun(t) || IsSymbolToken(t)
    ensures Concat(PunctuationTokens(s)) == Filter(s, NotSpace)
  {
    PunctuationTokensKinds(s);
    PunctuationTokensJoin(s);
  }

  /** One step of the scan at a character that is not whitespace: the
      token it starts and what is left after it. */
  lemma PunctuationTokensStep(s: string, n: nat)
    requires s != [] && !IsSpace(s[0])
    requires n == if IsWordChar(s[0]) then WordRun(s) else 1
    ensures 0 < n <= |s|
    ensures PunctuationTokens(s) == [s[..n]] + PunctuationTokens(s[n..])
    ensures IsWordRun(s[..n]) || IsSymbolToken(s[..n])
    ensures forall i :: 0 <= i < n ==> NotSpace(s[i])
  {
    if IsWordChar(s[0]) {
      PunctuationTokensWordStep(s);
    } else {
      assert s[..n] == [s[0]];
      assert PunctuationTokens(s) == [[s[0]]] + PunctuationTokens(s[1..]);
    }
  }

  lemma PunctuationTokensWordStep(s: string)
    requires s != [] && IsWordChar(s[0])
    ensures 0 < WordRun(s) <= |s|
    ensures PunctuationTokens(s) == [s[..WordRun(s)]] + PunctuationTokens(s[WordRun(s)..])
    ensures IsWordRun(s[..WordRun(s)])
    ensures forall i :: 0 <= i < WordRun(s) ==> NotSpace(s[i])
  {
    PunctuationTokensAtWord(s);
    WordRunIsWordRun(s);
    WordRunHasNoSpace(s);
  }

  lemma PunctuationTokensAtWord(s: string)
    requires s != [] && IsWordChar(s[0])
    ensures PunctuationTokens(s) == [s[..WordRun(s)]] + PunctuationTokens(s[WordRun(s)..])
  {
  }

  lemma WordRunIsWordRun(s: string)
    requires s != [] && IsWordChar(s[0])
    ensures IsWordRun(s[..WordRun(s)])
  {
    var n := WordRun(s);
    var w := s[..n];
    assert forall i :: 0 <= i < n ==> w[i] == s[i];
  }

  lemma WordRunHasNoSpace(s: string)
    ensures forall i :: 0 <= i < WordRun(s) ==> NotSpace(s[i])
  {
  }

  lemma {:induction false} PunctuationTokensKinds(s: string)
    ensures forall t :: t in PunctuationTokens(s) ==> IsWordRun(t) || IsSymbolToken(t)
    decreases |s|
  {
    if s != [] {
      if IsSpace(s[0]) {
        PunctuationTokensKinds(s[1..]);
      } else {
        var n := if IsWordChar(s[0]) then WordRun(s) else 1;
        PunctuationTokensStep(s, n);
        PunctuationTokensKinds(s[n..]);
      }
    }
  }

  lemma {:induction false} PunctuationTokensJoin(s: string)
    ensures Concat(PunctuationTokens(s)) == Filter(s, NotSpace)
    decreases |s|
  {
    if s != [] {
      if IsSpace(s[0]) {
        PunctuationTokensJoin(s[1..]);
        assert Filter(s, NotSpace) == Filter(s[1..], NotSpace);
      } else {
        var n := if IsWordChar(s[0]) then WordRun(s) else 1;
        PunctuationTokensStep(s, n);
        var rest := PunctuationTokens(s[n..]);
        PunctuationTokensJoin(s[n..]);
        ConcatAppend([s[..n]], rest);
        assert Concat([s[..n]]) == s[..n] + Concat([]);
        assert s == s[..n] + s[n..];
        FilterAppend(s[..n], s[n..], NotSpace);
        FilterKeepsAll(s[..n], NotSpace);
      }
    }
  }

  /** The scan can be cut between two characters that are not both word
      characters. */
  lemma {:induction false} PunctuationTokensAppend(a: string, b: string)
    requires a == [] || b == [] || !IsWordChar(a[|a| - 1]) || !IsWordChar(b[0])
    ensures PunctuationTokens(a + b) == PunctuationTokens(a) + PunctuationTokens(b)
    decreases |a|, 1
  {
    if a == [] {
      assert a + b == b;
    } else if IsWordChar(a[0]) {
      PunctuationTokensAppendAtWord(a, b);
    } else {
      PunctuationTokensAppendAtOther(a, b);
    }
  }

  lemma {:induction false} PunctuationTokensAppendAtWord(a: string, b: string)
    requires a != [] && IsWordChar(a[0])
    requires b == [] || !IsWordChar(a[|a| - 1]) || !IsWordChar(b[0])
    ensures PunctuationTokens(a + b) == PunctuationTokens(a) + PunctuationTokens(b)
    decreases |a|, 0
  {
    var s := a + b;
    var n := WordRun(a);
    WordRunAppend(a, b);
    assert s[0] == a[0];
    assert s[..n] == a[..n];
    assert s[n..] == a[n..] + b;
    PunctuationTokensAtWord(a);
    PunctuationTokensAtWord(s);
    assert a[n..] == [] || a[n..][|a[n..]| - 1] == a[|a| - 1];
    PunctuationTokensAppend(a[n..], b);
    PrefixJoin([a[..n]], PunctuationTokens(a[n..]), PunctuationTokens(a[n..] + b), PunctuationTokens(b),
               PunctuationTokens(s), PunctuationTokens(a));
  }

  lemma {:induction false} PunctuationTokensAppendAtOther(a: string, b: string)
    requires a != [] && !IsWordChar(a[0])
    requires b == [] || !IsWordChar(a[|a| - 1]) || !IsWordChar(b[0])
    ensures PunctuationTokens(a + b) == PunctuationTokens(a) + PunctuationTokens(b)
    decreases |a|, 0
  {
    var s := a + b;
    assert s[0] == a[0] && s[1..] == a[1..] + b;
    assert a[1..] == [] || a[1..][|a[1..]| - 1] == a[|a| - 1];
    PunctuationTokensAppend(a[1..], b);
    if IsSpace(a[0]) {
      assert PunctuationTokens(s) == PunctuationTokens(s[1..]);
      assert PunctuationTokens(a) == PunctuationTokens(a[1..]);
    } else {
      PrefixJoin([[a[0]]], PunctuationTokens(a[1..]), PunctuationTokens(a[1..] + b), PunctuationTokens(b),
                 PunctuationTokens(s), PunctuationTokens(a));
    }
  }

  lemma {:induction false} WordRunAppend(a: string, b: string)
    requires a != []
    requires b == [] || !IsWordChar(a[|a| - 1]) || !IsWordChar(b[0])
    ensures WordRun(a + b) == WordRun(a)
    decreases |a|
  {
    if IsWordChar(a[0]) {
      assert (a + b)[1..] == a[1..] + b;
      if |a| > 1 {
        WordRunAppend(a[1..], b);
      } else {
        assert a[1..] + b == b;
      }
    }
  }

  /** Punctuation tokens of each whitespace token, in order. */
  function PunctuationTokensOfEach(ts: seq<Token>): seq<Token>
  {
    if ts == [] then [] else PunctuationTokens(ts[0]) + PunctuationTokensOfEach(ts[1..])
  }

  lemma {:induction false} WordRunOfWordRun(t: string)
    requires forall i :: 0 <= i < |t| ==> IsWordChar(t[i])
    ensures WordRun(t) == |t|
    decreases |t|
  {
    if t != [] {
      WordRunOfWordRun(t[1..]);
    }
  }

  /** A word run alone is a single token. */
  lemma {:induction false} PunctuationTokensOfWordRun(t: string)
    requires IsWordRun(t)
    ensures PunctuationTokens(t) == [t]
  {
    WordRunOfWordRun(t);
    assert t[..|t|] == t && t[|t|..] == [];
    assert PunctuationTokens(t) == [t[..|t|]] + PunctuationTokens(t[|t|..]);
  }

  /** Whitespace tokens that are word runs are not split further. */
  lemma {:induction false} PunctuationTokensOfWordRuns(ts: seq<Token>)
    requires forall i :: 0 <= i < |ts| ==> IsWordRun(ts[i])
    ensures PunctuationTokensOfEach(ts) == ts
  {
    if ts != [] {
      PunctuationTokensOfWordRun(ts[0]);
      PunctuationTokensOfWordRuns(ts[1..]);
    }
  }

  /** Punctuation mode refines whitespace mode: it splits each whitespace
      token further and never joins across whitespace. */
  lemma {:induction false} PunctuationTokensRefineSplit(s: string)
    ensures PunctuationTokens(s) == PunctuationTokensOfEach(SplitWhitespace(s))
    decreases |s|
  {
    if s != [] {
      if IsSpace(s[0]) {
        PunctuationTokensRefineSplit(s[1..]);
      } else {
        var n := NonSpaceRun(s);
        PunctuationTokensRefineSplit(s[n..]);
        assert s == s[..n] + s[n..];
        PunctuationTokensAppend(s[..n], s[n..]);
        var ts := SplitWhitespace(s);
        assert ts == [s[..n]] + SplitWhitespace(s[n..]);
        assert ts[1..] == SplitWhitespace(s[n..]);
      }
    }
  }

  /** Within a whitespace-free string, word runs are maximal: two word-run
      tokens are never adjacent. */
  lemma {:induction false} PunctuationTokensMaximal(w: string)
    requires forall i :: 0 <= i < |w| ==> !IsSpace(w[i])
    ensures forall i :: 0 <= i < |PunctuationTokens(w)| - 1 ==>
              !(IsWordRun(PunctuationTokens(w)[i]) && IsWordRun(PunctuationTokens(w)[i + 1]))
    decreases |w|
  {
    if w != [] {
      var r := PunctuationTokens(w);
      var n := if IsWordChar(w[0]) then WordRun(w) else 1;
      assert !IsWordChar(w[0]) ==> w[..n] == [w[0]];
      var rest := PunctuationTokens(w[n..]);
      PunctuationTokensMaximal(w[n..]);
      assert r == [w[..n]] + rest;
      if IsWordChar(w[0]) && n < |w| {
        assert w[n..][0] == w[n] && !IsSpace(w[n]) && !IsWordChar(w[n]);
        assert w[n..][..1] == [w[n]];
        assert rest == [[w[n]]] + PunctuationTokens(w[n..][1..]);
        assert !IsWordRun(rest[0]);
      }
      forall i | 0 <= i < |r| - 1
        ensures !(IsWordRun(r[i]) && IsWordRun(r[i + 1]))
      {
        if i > 0 {
          assert r[i] == rest[i - 1] && r[i + 1] == rest[i];
        }
      }
    }
  }

  /** In punctuation mode a sign or a decimal point is always a token of its
      own, so a token is a number token exactly when it is all digits. */
  lemma {:induction false} PunctuationModeNumbersAreDigitRuns(s: string)
    ensures forall t :: t in PunctuationTokens(s) ==>
              (IsNumberToken(t) <==> t != [] && AllDigits(t))
  {
    PunctuationTokensShape(s);
    forall t | t in PunctuationTokens(s)
      ensures IsNumberToken(t) <==> t != [] && AllDigits(t)
    {
      NumberRecogniserMatchesPattern(t);
      if IsWordRun(t) {
        WordRunHasNoPoint(t[1..]);
        assert forall i :: 0 <= i < |t[1..]| ==> t[1..][i] == t[i + 1];
        assert AllDigits(t) <==> IsDigit(t[0]) && AllDigits(t[1..]);
      }
    }
  }

  lemma {:induction false} WordRunHasNoPoint(s: string)
    requires forall i :: 0 <= i < |s| ==> IsWordChar(s[i])
    ensures DigitsOptionalFraction(s) <==> AllDigits(s)
  {
  }

  /** Whitespace or punctuation tokenization, with empty tokens dropped. */
  function TokenizeText(text: string, tokenizeOnPunctuation: bool): (r: seq<Token>)
    ensures forall i :: 0 <= i < |r| ==> IsBareToken(r[i])
    ensures Concat(r) == Filter(text, NotSpace)
  {
    TokenizeDropsNothing(text, tokenizeOnPunctuation);
    if tokenizeOnPunctuation then
      PunctuationTokensShape(text);
      PunctuationTokensAreBare(text);
      Filter(PunctuationTokens(text), NonEmpty)
    else
      SplitWhitespaceTokens(text);
      SplitTokensAreBare(text);
      Filter(SplitWhitespace(text), NonEmpty)
  }

  lemma {:induction false} PunctuationTokensAreBare(s: string)
    ensures forall i :: 0 <= i < |PunctuationTokens(s)| ==> IsBareToken(PunctuationTokens(s)[i])
  {
    PunctuationTokensShape(s);
    forall i | 0 <= i < |PunctuationTokens(s)|
      ensures IsBareToken(PunctuationTokens(s)[i])
    {
      assert PunctuationTokens(s)[i] in PunctuationTokens(s);
    }
  }

  lemma {:induction false} SplitTokensAreBare(s: string)
    ensures forall i :: 0 <= i < |SplitWhitespace(s)| ==> IsBareToken(SplitWhitespace(s)[i])
  {
    SplitWhitespaceTokens(s);
    forall i | 0 <= i < |SplitWhitespace(s)|
      ensures IsBareToken(SplitWhitespace(s)[i])
    {
      assert SplitWhitespace(s)[i] in SplitWhitespace(s);
    }
  }

  /** The scanners produce no empty token, so the final filter of
      `_tokenize_text` keeps everything. */
  lemma TokenizeDropsNothing(text: string, tokenizeOnPunctuation: bool)
    ensures tokenizeOnPunctuation ==>
              Filter(PunctuationTokens(text), NonEmpty) == PunctuationTokens(text)
    ensures !tokenizeOnPunctuation ==>
              Filter(SplitWhitespace(text), NonEmpty) == SplitWhitespace(text)
  {
    if tokenizeOnPunctuation {
      PunctuationTokensShape(text);
      FilterKeepsAll(PunctuationTokens(text), NonEmpty);
    } else {
      SplitWhitespaceTokens(text);
      FilterKeepsAll(SplitWhitespace(text), NonEmpty);
    }
  }

  // ---------------------------------------------------------------------
  // _remove_punctuation_tokens_if_needed

  /** Non-empty and made only of `string.punctuation` characters. */
  predicate IsPunctuationOnly(t: Token) {
    t != [] && forall i :: 0 <= i < |t| ==> IsPunctuation(t[i])
  }

  predicate KeptByPunctuationFilter(t: Token) {
    !IsPunctuationOnly(t)
  }

  /** `_remove_punctuation_tokens_if_needed`: with the flag, exactly the
      tokens that are empty or hold a non-punctuation character survive,
      in order and as often as they occur. */
  function RemovePunctuationTokensIfNeeded(tokens: seq<Token>, removePunctuation: bool)
    : (r: seq<Token>)
    ensures !removePunctuation ==> r == tokens
    ensures IsSubsequence(r, tokens)
    ensures removePunctuation ==> forall i :: 0 <= i < |r| ==> !IsPunctuationOnly(r[i])
    ensures removePunctuation ==> forall t :: !IsPunctuationOnly(t) ==> Count(r, t) == Count(tokens, t)
  {
    if !removePunctuation then
      SubsequenceReflexive(tokens);
      tokens
    else
      FilterCharacterized(tokens, KeptByPunctuationFilter);
      Filter(tokens, KeptByPunctuationFilter)
  }

  /** From a state that has read no digit, a digit-free rest is rejected. */
  lemma {:induction false} DigitFreeRunRejects(q: NumberState, s: string)
    requires q == Start || q == Signed || q == LeadDot || q == Reject
    requires forall i :: 0 <= i < |s| ==> !IsDigit(s[i])
    ensures !IsAccepting(NumberRun(q, s))
    decreases |s|
  {
    if s != [] {
      DigitFreeRunRejects(NumberStep(q, s[0]), s[1..]);
    }
  }

  /** A number token holds a digit, so it is never punctuation-only: the
      punctuation filter keeps every number token. */
  lemma {:induction false} NumberTokenIsNotPunctuation(t: Token)
    requires IsNumberToken(t)
    ensures !IsPunctuationOnly(t)
  {
    if IsPunctuationOnly(t) {
      DigitFreeRunRejects(Start, t);
    }
  }

  lemma {:induction false} PunctuationFilterExamples()
    ensures !IsPunctuationOnly("a-b") && !IsPunctuationOnly("word.") && !IsPunctuationOnly("")
    ensures IsPunctuationOnly("--") && IsPunctuationOnly("...") && IsPunctuationOnly("!")
  {
    assert "a-b"[0] == 'a';
    assert "word."[0] == 'w';
  }
}
