/** Left-to-right scanners for the string operations both pipelines use:
    `str.split()` with no argument, `str.replace`, and removal of the
    tag-shaped matches of `<[^>]+>` and `<[^>]*>` by `re.sub`. */
module Scanners {
  import opened Text
  import opened TokenLists

  // ---------------------------------------------------------------------
  // str.split()

  /** A token as `str.split()` produces one: non-empty, no whitespace. */
  predicate IsBareToken(t: string) {
    t != [] && forall i :: 0 <= i < |t| ==> !IsSpace(t[i])
  }

  /** Length of the longest prefix of `s` holding no whitespace. */
  function NonSpaceRun(s: string): (n: nat)
    ensures n <= |s|
    ensures forall i :: 0 <= i < n ==> !IsSpace(s[i])
    ensures n == |s| || IsSpace(s[n])
  {
    if s == [] || IsSpace(s[0]) then 0 else 1 + NonSpaceRun(s[1..])
  }

  /** `s.split()`: the maximal runs of non-whitespace characters of `s`. */
  function SplitWhitespace(s: string): seq<Token>
    decreases |s|
  {
    if s == [] then []
    else if IsSpace(s[0]) then SplitWhitespace(s[1..])
    else
      var n := NonSpaceRun(s);
      [s[..n]] + SplitWhitespace(s[n..])
  }

  /** The tokens are bare and, joined, give `s` without its whitespace. */
  lemma {:induction false} SplitWhitespaceTokens(s: string)
    ensures forall t :: t in SplitWhitespace(s) ==> IsBareToken(t)
    ensures Concat(SplitWhitespace(s)) == Filter(s, NotSpace)
    decreases |s|
  {
    if s != [] {
      if IsSpace(s[0]) {
        SplitWhitespaceTokens(s[1..]);
      } else {
        var n := NonSpaceRun(s);
        SplitWhitespaceTokens(s[n..]);
        assert s == s[..n] + s[n..];
        FilterAppend(s[..n], s[n..], NotSpace);
        FilterKeepsAll(s[..n], NotSpace);
        var r := SplitWhitespace(s);
        assert r == [s[..n]] + SplitWhitespace(s[n..]);
        assert r[1..] == SplitWhitespace(s[n..]);
      }
    }
  }

  /** `" ".join(ts)`. */
  function JoinWithSpace(ts: seq<Token>): string
  {
    if ts == [] then []
    else if |ts| == 1 then ts[0]
    else ts[0] + " " + JoinWithSpace(ts[1..])
  }

  lemma {:induction false} SplitSkipsLeadingSpace(s: string)
    requires s != [] && IsSpace(s[0])
    ensures SplitWhitespace(s) == SplitWhitespace(s[1..])
  {
  }

  lemma {:induction false} SplitTakesBareToken(t: string, rest: string)
    requires IsBareToken(t)
    requires rest == [] || IsSpace(rest[0])
    ensures SplitWhitespace(t + rest) == [t] + SplitWhitespace(rest)
  {
    var s := t + rest;
    NonSpaceRunOfBare(t, rest);
    assert s[..|t|] == t;
    assert s[|t|..] == rest;
  }

  lemma {:induction false} NonSpaceRunOfBare(t: string, rest: string)
    requires forall i :: 0 <= i < |t| ==> !IsSpace(t[i])
    requires rest == [] || IsSpace(rest[0])
    ensures NonSpaceRun(t + rest) == |t|
    decreases |t|
  {
    if t != [] {
      assert (t + rest)[1..] == t[1..] + rest;
      NonSpaceRunOfBare(t[1..], rest);
    } else {
      assert t + rest == rest;
    }
  }

  /** Every character of a single-space join is the space or a character
      of one of the tokens, so it has any property they all share. */
  lemma {:induction false} JoinWithSpaceChars(ts: seq<Token>, p: char -> bool)
    requires p(' ')
    requires forall k, j :: 0 <= k < |ts| && 0 <= j < |ts[k]| ==> p(ts[k][j])
    ensures forall i :: 0 <= i < |JoinWithSpace(ts)| ==> p(JoinWithSpace(ts)[i])
  {
    if |ts| > 1 {
      var rest := JoinWithSpace(ts[1..]);
      JoinWithSpaceChars(ts[1..], p);
      var s := JoinWithSpace(ts);
      assert s == ts[0] + " " + rest;
      forall i | 0 <= i < |s|
        ensures p(s[i])
      {
        if i > |ts[0]| {
          assert s[i] == rest[i - |ts[0]| - 1];
        }
      }
    }
  }

  /** Splitting undoes joining bare tokens with single spaces. */
  lemma {:induction false} SplitJoinRoundTrip(ts: seq<Token>)
    requires forall i :: 0 <= i < |ts| ==> IsBareToken(ts[i])
    ensures SplitWhitespace(JoinWithSpace(ts)) == ts
  {
    if |ts| == 1 {
      SplitTakesBareToken(ts[0], []);
      assert ts[0] + [] == ts[0];
    } else if |ts| > 1 {
      var rest := " " + JoinWithSpace(ts[1..]);
      assert JoinWithSpace(ts) == ts[0] + rest;
      SplitTakesBareToken(ts[0], rest);
      SplitSkipsLeadingSpace(rest);
      assert rest[1..] == JoinWithSpace(ts[1..]);
      SplitJoinRoundTrip(ts[1..]);
    }
  }

  // ---------------------------------------------------------------------
  // str.replace

  /** `pat` occurs in `s` as a substring. */
  predicate Contains(s: string, pat: string)
    decreases |s|
  {
    |pat| <= |s| && (s[..|pat|] == pat || (s != [] && Contains(s[1..], pat)))
  }

  /** `s.replace(pat, rep)`: every non-overlapping occurrence of `pat`,
      found left to right, is replaced by `rep`; an empty `pat` inserts
      `rep` before every character and at the end. */
  function Replace(s: string, pat: string, rep: string): string
    decreases |s|
  {
    if pat == [] then
      (if s == [] then rep else rep + [s[0]] + Replace(s[1..], pat, rep))
    else if |s| < |pat| then s
    else if s[..|pat|] == pat then rep + Replace(s[|pat|..], pat, rep)
    else [s[0]] + Replace(s[1..], pat, rep)
  }

  /** A string without occurrences of the pattern is returned unchanged. */
  lemma {:induction false} ReplaceAbsent(s: string, pat: string, rep: string)
    requires pat != [] && !Contains(s, pat)
    ensures Replace(s, pat, rep) == s
    decreases |s|
  {
    if |s| >= |pat| {
      ReplaceAbsent(s[1..], pat, rep);
    }
  }

  /** Replacing one character by one character acts position by position. */
  lemma {:induction false} ReplaceOneChar(s: string, c: char, d: char)
    ensures |Replace(s, [c], [d])| == |s|
    ensures forall i :: 0 <= i < |s| ==>
      Replace(s, [c], [d])[i] == (if s[i] == c then d else s[i])
    decreases |s|
  {
    if s != [] {
      ReplaceOneChar(s[1..], c, d);
      assert s[..1] == [s[0]];
    }
  }

  /** No proper prefix of `pat` is also a suffix of it, so two occurrences
      of `pat` can never overlap. */
  predicate BorderFree(pat: string) {
    forall k :: 0 < k < |pat| ==> pat[..k] != pat[|pat| - k..]
  }

  /** A pattern whose last character occurs nowhere else is border-free. */
  lemma {:induction false} LastCharUniqueBorderFree(pat: string)
    requires pat != []
    requires forall i :: 0 <= i < |pat| - 1 ==> pat[i] != pat[|pat| - 1]
    ensures BorderFree(pat)
  {
    forall k | 0 < k < |pat|
      ensures pat[..k] != pat[|pat| - k..]
    {
      assert pat[..k][k - 1] == pat[k - 1];
      assert pat[|pat| - k..][k - 1] == pat[|pat| - 1];
    }
  }

  /** An occurrence of a border-free pattern is always replaced, whatever
      precedes and follows it, and the text on either side is replaced on
      its own. */
  lemma {:induction false} ReplaceAroundPattern(s: string, pat: string, rep: string, b: string)
    requires pat != [] && BorderFree(pat)
    ensures Replace(s + pat + b, pat, rep) == Replace(s, pat, rep) + rep + Replace(b, pat, rep)
    decreases |s|, 1
  {
    if s == [] {
      ReplaceAroundEmpty(pat, rep, b);
    } else if |s| >= |pat| && s[..|pat|] == pat {
      ReplaceAroundLeadingMatch(s, pat, rep, b);
    } else {
      ReplaceAroundLeadingOther(s, pat, rep, b);
    }
  }

  lemma {:induction false} ReplaceAroundEmpty(pat: string, rep: string, b: string)
    requires pat != []
    ensures Replace([] + pat + b, pat, rep) == Replace([], pat, rep) + rep + Replace(b, pat, rep)
  {
    var e: string := [];
    assert Replace(e, pat, rep) == e;
    assert e + pat + b == pat + b;
    ReplaceAtStart(pat, rep, b);
    JoinAfterPrefix(e, Replace(pat + b, pat, rep), rep, [], Replace(b, pat, rep));
  }

  lemma {:induction false} ReplaceAroundLeadingMatch(s: string, pat: string, rep: string, b: string)
    requires pat != [] && BorderFree(pat)
    requires |s| >= |pat| && s[..|pat|] == pat
    ensures Replace(s + pat + b, pat, rep) == Replace(s, pat, rep) + rep + Replace(b, pat, rep)
    decreases |s|, 0
  {
    var rest := s[|pat|..];
    assert s == pat + rest;
    assert s + pat + b == pat + rest + pat + b;
    ReplaceAtMatch(rest, pat, rep, b);
    ReplaceAroundPattern(rest, pat, rep, b);
    JoinAfterPrefix(rep, Replace(rest + pat + b, pat, rep), Replace(rest, pat, rep), rep, Replace(b, pat, rep));
  }

  lemma {:induction false} ReplaceAroundLeadingOther(s: string, pat: string, rep: string, b: string)
    requires pat != [] && BorderFree(pat)
    requires s != [] && !(|s| >= |pat| && s[..|pat|] == pat)
    ensures Replace(s + pat + b, pat, rep) == Replace(s, pat, rep) + rep + Replace(b, pat, rep)
    decreases |s|, 0
  {
    var tail := s[1..];
    ReplaceStepsOverFirst(s, pat, rep, b);
    ReplaceAroundPattern(tail, pat, rep, b);
    JoinAfterPrefix([s[0]], Replace(tail + pat + b, pat, rep), Replace(tail, pat, rep), rep, Replace(b, pat, rep));
  }

  /** Prefixing both sides of `x == y + r + z` by `p`. */
  lemma {:induction false} JoinAfterPrefix(p: string, x: string, y: string, r: string, z: string)
    requires x == y + r + z
    ensures p + x == (p + y) + r + z
  {
  }

  /** A scan that starts on an occurrence replaces it and resumes after it. */
  lemma {:induction false} ReplaceAtStart(pat: string, rep: string, s: string)
    requires pat != []
    ensures Replace(pat + s, pat, rep) == rep + Replace(s, pat, rep)
  {
    assert (pat + s)[..|pat|] == pat;
    assert (pat + s)[|pat|..] == s;
  }

  lemma {:induction false} ReplaceAtMatch(s: string, pat: string, rep: string, b: string)
    requires pat != []
    ensures Replace(pat + s + pat + b, pat, rep) == rep + Replace(s + pat + b, pat, rep)
    ensures Replace(pat + s, pat, rep) == rep + Replace(s, pat, rep)
  {
    assert (pat + s + pat + b)[..|pat|] == pat;
    assert (pat + s + pat + b)[|pat|..] == s + pat + b;
    assert (pat + s)[..|pat|] == pat;
    assert (pat + s)[|pat|..] == s;
  }

  /** When `s` does not start with the pattern, neither does `s + pat + b`,
      and both scans move past the first character. */
  lemma {:induction false} ReplaceStepsOverFirst(s: string, pat: string, rep: string, b: string)
    requires pat != [] && BorderFree(pat)
    requires s != [] && !(|s| >= |pat| && s[..|pat|] == pat)
    ensures Replace(s + pat + b, pat, rep) == [s[0]] + Replace(s[1..] + pat + b, pat, rep)
    ensures Replace(s, pat, rep) == [s[0]] + Replace(s[1..], pat, rep)
  {
    var t := s + pat + b;
    if |s| < |pat| {
      assert t[..|pat|] == (s + pat)[..|pat|];
      if t[..|pat|] == pat {
        OverlapIsBorder(s, pat);
      }
    } else {
      assert t[..|pat|] == s[..|pat|];
    }
    assert t[1..] == s[1..] + pat + b;
  }

  /** The case of an occurrence at the very end. */
  lemma {:induction false} ReplaceAppendedPattern(s: string, pat: string, rep: string)
    requires pat != [] && BorderFree(pat)
    ensures Replace(s + pat, pat, rep) == Replace(s, pat, rep) + rep
  {
    ReplaceAroundPattern(s, pat, rep, []);
    assert s + pat + [] == s + pat;
    assert Replace([], pat, rep) == [];
  }

  /** An occurrence of `pat` starting inside a shorter `s` and running into
      an appended `pat` would be a border of `pat`. */
  lemma {:induction false} OverlapIsBorder(s: string, pat: string)
    requires 0 < |s| < |pat|
    requires (s + pat)[..|pat|] == pat
    ensures !BorderFree(pat)
  {
    var t := s + pat;
    var k := |pat| - |s|;
    forall i | 0 <= i < k
      ensures pat[..k][i] == pat[|pat| - k..][i]
    {
      assert t[|s| + i] == pat[i];
      assert t[|s| + i] == t[..|pat|][|s| + i];
    }
    assert pat[..k] == pat[|pat| - k..];
  }

  lemma {:induction false} ReplaceShort(s: string, pat: string, rep: string)
    requires pat != [] && |s| < |pat|
    ensures Replace(s, pat, rep) == s
  {
  }

  // ---------------------------------------------------------------------
  // re.sub(r"<[^>]+>", "", s) and re.sub(r"<[^>]*>", "", s)

  /** Index of the first `>` in `s`, if there is one. */
  function FirstGt(s: string): (r: Option<nat>)
    ensures r.Some? ==> r.value < |s| && s[r.value] == '>'
    ensures r.Some? ==> forall i :: 0 <= i < r.value ==> s[i] != '>'
    ensures r.None? ==> forall i :: 0 <= i < |s| ==> s[i] != '>'
  {
    if s == [] then None
    else if s[0] == '>' then Some(0)
    else match FirstGt(s[1..])
      case None => None
      case Some(j) => Some(j + 1)
  }

  /** Removes every match of `<[^>]{minInner,}>`, scanning left to right as
      `re.sub` does: a `<` starts a match exactly when the first `>` after
      it has at least `minInner` characters before it; the match ends at
      that `>` and scanning resumes after it. Any other character is
      copied. `minInner` is 1 for `+` and 0 for `*`. */
  function StripTags(s: string, minInner: nat): string
    decreases |s|
  {
    if s == [] then []
    else if s[0] == '<' then
      match FirstGt(s[1..])
      case Some(j) =>
        if j >= minInner then StripTags(s[j + 2..], minInner)
        else [s[0]] + StripTags(s[1..], minInner)
      case None => [s[0]] + StripTags(s[1..], minInner)
    else [s[0]] + StripTags(s[1..], minInner)
  }

  /** One step of the scan at a `<` that opens a tag. */
  lemma {:induction false} StripTagsAtTag(s: string, j: nat, minInner: nat)
    requires s != [] && s[0] == '<' && FirstGt(s[1..]) == Some(j) && j >= minInner
    ensures StripTags(s, minInner) == StripTags(s[j + 2..], minInner)
  {
  }

  /** One step of the scan that copies the first character. */
  lemma {:induction false} StripTagsCopiesFirst(s: string, minInner: nat)
    requires s != []
    requires !(s[0] == '<' && FirstGt(s[1..]).Some? && FirstGt(s[1..]).value >= minInner)
    ensures StripTags(s, minInner) == [s[0]] + StripTags(s[1..], minInner)
  {
  }

  /** The result keeps characters of the input, in order, and drops some. */
  lemma {:induction false} StripTagsSubsequence(s: string, minInner: nat)
    ensures IsSubsequence(StripTags(s, minInner), s)
    ensures |StripTags(s, minInner)| <= |s|
    ensures forall c :: c in StripTags(s, minInner) ==> c in s
    decreases |s|
  {
    var r := StripTags(s, minInner);
    if s != [] {
      var rest := StripTags(s[1..], minInner);
      if s[0] == '<' && FirstGt(s[1..]).Some? && FirstGt(s[1..]).value >= minInner {
        var j := FirstGt(s[1..]).value;
        StripTagsSubsequence(s[j + 2..], minInner);
        SubsequenceSuffix(r, s, j + 2);
      } else {
        StripTagsSubsequence(s[1..], minInner);
        assert r == [s[0]] + rest;
        assert r[1..] == rest;
      }
      SubsequenceProperties(r, s);
    }
  }

  /** A string without `<`, or without `>`, has no tag to remove and is
      returned unchanged. */
  lemma {:induction false} StripTagsWithoutBrackets(s: string, minInner: nat)
    requires (forall i :: 0 <= i < |s| ==> s[i] != '<') || (forall i :: 0 <= i < |s| ==> s[i] != '>')
    ensures StripTags(s, minInner) == s
    decreases |s|
  {
    if s != [] {
      StripTagsWithoutBrackets(s[1..], minInner);
    }
  }

  /** Text before any `<` is copied. */
  lemma {:induction false} StripTagsKeepsLeadingText(x: string, b: string, minInner: nat)
    requires forall i :: 0 <= i < |x| ==> x[i] != '<'
    ensures StripTags(x + b, minInner) == x + StripTags(b, minInner)
    decreases |x|
  {
    if x != [] {
      assert (x + b)[1..] == x[1..] + b;
      StripTagsKeepsLeadingText(x[1..], b, minInner);
    } else {
      assert x + b == b;
    }
  }

  /** A tag whose inside has no `>` and at least `minInner` characters is
      removed entirely, and scanning resumes right after it. */
  lemma {:induction false} StripTagsRemovesTag(t: string, b: string, minInner: nat)
    requires forall i :: 0 <= i < |t| ==> t[i] != '>'
    requires |t| >= minInner
    ensures StripTags("<" + t + ">" + b, minInner) == StripTags(b, minInner)
  {
    var s := "<" + t + ">" + b;
    FirstGtAfter(t, b);
    assert s[1..] == t + ">" + b;
    assert s[|t| + 2..] == b;
  }

  lemma {:induction false} FirstGtAfter(t: string, b: string)
    requires forall i :: 0 <= i < |t| ==> t[i] != '>'
    ensures FirstGt(t + ">" + b) == Some(|t|)
    decreases |t|
  {
    if t != [] {
      assert (t + ">" + b)[1..] == t[1..] + ">" + b;
      FirstGtAfter(t[1..], b);
    } else {
      assert t + ">" + b == ">" + b;
    }
  }

  lemma {:induction false} FirstGtAppend(t: string, x: string)
    requires forall i :: 0 <= i < |x| ==> x[i] != '>'
    ensures FirstGt(t + x) == FirstGt(t)
    decreases |t|
  {
    if t != [] {
      assert (t + x)[1..] == t[1..] + x;
      FirstGtAppend(t[1..], x);
    } else {
      assert t + x == x;
    }
  }

  /** Text without `>` appended after anything is kept intact: no tag can
      swallow it because no tag can close inside it. */
  lemma {:induction false} StripTagsKeepsTrailingText(t: string, x: string, minInner: nat)
    requires forall i :: 0 <= i < |x| ==> x[i] != '>'
    ensures StripTags(t + x, minInner) == StripTags(t, minInner) + x
    decreases |t|
  {
    var s := t + x;
    if t == [] {
      assert s == x;
      StripTagsWithoutBrackets(x, minInner);
    } else {
      assert s[0] == t[0] && s[1..] == t[1..] + x;
      FirstGtAppend(t[1..], x);
      if t[0] == '<' && FirstGt(t[1..]).Some? && FirstGt(t[1..]).value >= minInner {
        var j := FirstGt(t[1..]).value;
        assert s[j + 2..] == t[j + 2..] + x;
        StripTagsAtTag(t, j, minInner);
        StripTagsAtTag(s, j, minInner);
        StripTagsKeepsTrailingText(t[j + 2..], x, minInner);
      } else {
        StripTagsCopiesFirst(t, minInner);
        StripTagsCopiesFirst(s, minInner);
        StripTagsKeepsTrailingText(t[1..], x, minInner);
        PrefixJoin([t[0]], StripTags(t[1..], minInner), StripTags(t[1..] + x, minInner), x,
                   StripTags(s, minInner), StripTags(t, minInner));
      }
    }
  }

  /** With `*` (minInner 0) no `<` is left that has a `>` anywhere after
      it: the first `>` after a `<` always closes a match. */
  lemma {:induction false} StripTagsStarLeavesNoTag(s: string)
    ensures forall i, j ::
              0 <= i < j < |StripTags(s, 0)| && StripTags(s, 0)[i] == '<' ==> StripTags(s, 0)[j] != '>'
    decreases |s|
  {
    var r := StripTags(s, 0);
    if s != [] {
      if s[0] == '<' && FirstGt(s[1..]).Some? {
        var j := FirstGt(s[1..]).value;
        StripTagsStarLeavesNoTag(s[j + 2..]);
      } else {
        var rest := StripTags(s[1..], 0);
        StripTagsStarLeavesNoTag(s[1..]);
        assert r == [s[0]] + rest;
        if s[0] == '<' {
          StripTagsSubsequence(s[1..], 0);
          forall j | 0 < j < |r|
            ensures r[j] != '>'
          {
            assert r[j] == rest[j - 1];
            assert rest[j - 1] in s[1..];
          }
        }
        forall i, j | 0 <= i < j < |r| && r[i] == '<'
          ensures r[j] != '>'
        {
          if i > 0 {
            assert rest[i - 1] == '<' && r[j] == rest[j - 1];
          }
        }
      }
    }
  }
}
