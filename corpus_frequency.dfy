/** The corpus-wide high-frequency filter of exercise_03/preprocessing.py:
    token counting, selection by relative frequency, and removal. */
module CorpusFrequency {
  import opened Text
  import opened TokenLists

  /** A `collections.Counter[str]`: a token is a key exactly when it has
      been counted at least once. */
  type Counts = map<Token, nat>

  /** Occurrences of `t` across all documents of the corpus. */
  function Occurrences(corpus: Corpus, t: Token): nat
  {
    if corpus == [] then 0 else Count(corpus[0], t) + Occurrences(corpus[1..], t)
  }

  /** Sum of the document lengths. */
  function TotalTokens(corpus: Corpus): nat
  {
    if corpus == [] then 0 else |corpus[0]| + TotalTokens(corpus[1..])
  }

  /** Every token that occurs somewhere in the corpus. */
  function TokensOf(corpus: Corpus): set<Token>
  {
    set d, t | d in corpus && t in d :: t
  }

  /** The counter `_get_corpus_token_frequencies` builds, by definition. */
  function CorpusCounts(corpus: Corpus): Counts
  {
    map t | t in TokensOf(corpus) :: Occurrences(corpus, t)
  }

  /** The sum of the values of a counter. */
  ghost function SumCounts(m: Counts): nat
    decreases |m|
  {
    if m == map[] then 0
    else
      var k :| k in m;
      m[k] + SumCounts(m - {k})
  }

  /** `Counter.update` with a single token. */
  function Bump(m: Counts, t: Token): (r: Counts)
    ensures r.Keys == m.Keys + {t}
    ensures r[t] == (if t in m then m[t] else 0) + 1
    ensures forall u :: u in m && u != t ==> r[u] == m[u]
  {
    m[t := (if t in m then m[t] else 0) + 1]
  }

  lemma {:induction false} OccurrencesAppend(corpus: Corpus, doc: seq<Token>, t: Token)
    ensures Occurrences(corpus + [doc], t) == Occurrences(corpus, t) + Count(doc, t)
  {
    if corpus == [] {
      assert corpus + [doc] == [doc];
    } else {
      assert (corpus + [doc])[1..] == corpus[1..] + [doc];
      OccurrencesAppend(corpus[1..], doc, t);
    }
  }

  lemma {:induction false} TotalTokensAppend(corpus: Corpus, doc: seq<Token>)
    ensures TotalTokens(corpus + [doc]) == TotalTokens(corpus) + |doc|
  {
    if corpus == [] {
      assert corpus + [doc] == [doc];
    } else {
      assert (corpus + [doc])[1..] == corpus[1..] + [doc];
      TotalTokensAppend(corpus[1..], doc);
    }
  }

  lemma {:induction false} OccurrencesPositive(corpus: Corpus, t: Token)
    ensures Occurrences(corpus, t) > 0 <==> t in TokensOf(corpus)
  {
    if corpus != [] {
      OccurrencesPositive(corpus[1..], t);
      CountPositive(corpus[0], t);
      assert t in TokensOf(corpus) <==> t in corpus[0] || t in TokensOf(corpus[1..]) by {
        assert forall d :: d in corpus <==> d == corpus[0] || d in corpus[1..];
      }
    }
  }

  /** Taking any key out first gives the same sum. */
  lemma {:induction false} SumCountsRemove(m: Counts, k: Token)
    requires k in m
    ensures SumCounts(m) == m[k] + SumCounts(m - {k})
    decreases |m|
  {
    var j :| j in m && SumCounts(m) == m[j] + SumCounts(m - {j});
    if j != k {
      SumCountsRemove(m - {j}, k);
      SumCountsRemove(m - {k}, j);
      assert m - {j} - {k} == m - {k} - {j};
    }
  }

  lemma {:induction false} SumCountsBump(m: Counts, t: Token)
    ensures SumCounts(Bump(m, t)) == SumCounts(m) + 1
  {
    var b := Bump(m, t);
    SumCountsRemove(b, t);
    assert b - {t} == m - {t};
    if t in m {
      SumCountsRemove(m, t);
    } else {
      assert m - {t} == m;
    }
  }

  /** The counter after the first `j` tokens of a list were added to `counts`. */
  ghost predicate CountedPrefix(counts: Counts, tokens: seq<Token>, j: nat, r: Counts)
    requires j <= |tokens|
  {
    && (forall t :: t in r <==> t in counts || t in tokens[..j])
    && (forall t :: t in r ==> r[t] == (if t in counts then counts[t] else 0) + Count(tokens[..j], t))
  }

  /** Counting one more token extends the counted prefix by one. */
  lemma {:induction false} CountedPrefixStep(counts: Counts, tokens: seq<Token>, j: nat, r: Counts)
    requires j < |tokens| && CountedPrefix(counts, tokens, j, r)
    ensures CountedPrefix(counts, tokens, j + 1, Bump(r, tokens[j]))
  {
    var b := Bump(r, tokens[j]);
    assert tokens[..j + 1] == tokens[..j] + [tokens[j]];
    forall t
      ensures Count(tokens[..j + 1], t) == Count(tokens[..j], t) + (if tokens[j] == t then 1 else 0)
      ensures t in tokens[..j + 1] <==> t in tokens[..j] || t == tokens[j]
    {
      CountAppend(tokens[..j], [tokens[j]], t);
      assert [tokens[j]][1..] == [];
    }
    forall t | t in b
      ensures b[t] == (if t in counts then counts[t] else 0) + Count(tokens[..j + 1], t)
    {
      if t == tokens[j] && t !in r {
        CountPositive(tokens[..j], t);
      }
    }
  }

  /** `Counter.update(tokens)`: every token of the list counted once more. */
  method UpdateCounts(counts: Counts, tokens: seq<Token>) returns (r: Counts)
    ensures forall t :: t in r <==> t in counts || t in tokens
    ensures forall t :: t in r ==> r[t] == (if t in counts then counts[t] else 0) + Count(tokens, t)
    ensures SumCounts(r) == SumCounts(counts) + |tokens|
  {
    r := counts;
    assert tokens[..0] == [];
    for j := 0 to |tokens|
      invariant SumCounts(r) == SumCounts(counts) + j
      invariant CountedPrefix(counts, tokens, j, r)
    {
      CountedPrefixStep(counts, tokens, j, r);
      SumCountsBump(r, tokens[j]);
      r := Bump(r, tokens[j]);
    }
    assert tokens[..|tokens|] == tokens;
  }

  /** `_get_corpus_token_frequencies`: one pass over the documents, each
      document's tokens added to the counter and its length to the total. */
  method GetCorpusTokenFrequencies(corpus: Corpus) returns (counts: Counts, total: nat)
    ensures total == TotalTokens(corpus)
    ensures forall t :: t in counts <==> Occurrences(corpus, t) > 0
    ensures forall t :: t in counts ==> counts[t] == Occurrences(corpus, t)
    ensures SumCounts(counts) == total
    ensures counts == CorpusCounts(corpus)
  {
    counts := map[];
    total := 0;
    for i := 0 to |corpus|
      invariant total == TotalTokens(corpus[..i])
      invariant SumCounts(counts) == total
      invariant forall t :: t in counts <==> Occurrences(corpus[..i], t) > 0
      invariant forall t :: t in counts ==> counts[t] == Occurrences(corpus[..i], t)
    {
      var tokens := corpus[i];
      assert corpus[..i + 1] == corpus[..i] + [tokens];
      forall t
        ensures Occurrences(corpus[..i + 1], t) == Occurrences(corpus[..i], t) + Count(tokens, t)
        ensures Count(tokens, t) > 0 <==> t in tokens
      {
        OccurrencesAppend(corpus[..i], tokens, t);
        CountPositive(tokens, t);
      }
      TotalTokensAppend(corpus[..i], tokens);
      counts := UpdateCounts(counts, tokens);
      total := total + |tokens|;
    }
    assert corpus[..|corpus|] == corpus;
    CorpusCountsCharacterized(corpus);
  }

  lemma {:induction false} CorpusCountsCharacterized(corpus: Corpus)
    ensures forall t :: t in CorpusCounts(corpus) <==> Occurrences(corpus, t) > 0
    ensures forall t :: t in CorpusCounts(corpus) ==> CorpusCounts(corpus)[t] == Occurrences(corpus, t)
  {
    forall t {
      OccurrencesPositive(corpus, t);
    }
  }

  /** `count / total_tokens > threshold`, in exact arithmetic. */
  predicate IsHighFrequency(count: nat, total: nat, threshold: real)
    requires total > 0
  {
    (count as real) / (total as real) > threshold
  }

  /** The tokens of the counter whose relative frequency strictly exceeds
      the threshold. */
  function HighFreqTokens(counts: Counts, total: nat, threshold: real): set<Token>
    requires total > 0
  {
    set t | t in counts && IsHighFrequency(counts[t], total, threshold)
  }

  /** `_identify_high_freq_tokens`, whose two `assert`s are its
      preconditions: visits every counter entry once and collects the
      tokens above the threshold. */
  method IdentifyHighFreqTokens(counts: Counts, total: nat, threshold: real)
    returns (high: set<Token>)
    requires total > 0
    requires 0.0 <= threshold <= 1.0
    ensures forall t :: t in high <==>
              t in counts && (counts[t] as real) / (total as real) > threshold
    ensures high == HighFreqTokens(counts, total, threshold)
  {
    high := {};
    var remaining := counts.Keys;
    while remaining != {}
      invariant remaining <= counts.Keys
      invariant forall t :: t in high <==>
                  t in counts && t !in remaining && IsHighFrequency(counts[t], total, threshold)
      decreases |remaining|
    {
      var t :| t in remaining;
      if (counts[t] as real) / (total as real) > threshold {
        high := high + {t};
      }
      remaining := remaining - {t};
    }
  }

  /** A lower threshold selects at least the tokens a higher one selects. */
  lemma {:induction false} HighFreqMonotone(counts: Counts, total: nat, lower: real, higher: real)
    requires total > 0 && lower <= higher
    ensures HighFreqTokens(counts, total, higher) <= HighFreqTokens(counts, total, lower)
  {
  }

  /** Threshold 0 selects every token counted at least once. */
  lemma {:induction false} HighFreqAtZero(counts: Counts, total: nat)
    requires total > 0
    ensures HighFreqTokens(counts, total, 0.0) == set t | t in counts && counts[t] > 0
  {
    forall t | t in counts
      ensures IsHighFrequency(counts[t], total, 0.0) <==> counts[t] > 0
    {
      RatioPositive(counts[t], total);
    }
  }

  lemma {:induction false} RatioPositive(count: nat, total: nat)
    requires total > 0
    ensures (count as real) / (total as real) > 0.0 <==> count > 0
  {
    if count > 0 {
      assert (count as real) / (total as real) * (total as real) == count as real;
    }
  }

  /** Threshold 1 selects nothing from the counter of a corpus: no token
      occurs more often than there are tokens. */
  lemma {:induction false} HighFreqAtOne(counts: Counts, total: nat)
    requires total > 0
    requires forall t :: t in counts ==> counts[t] <= total
    ensures HighFreqTokens(counts, total, 1.0) == {}
  {
    forall t | t in counts
      ensures !IsHighFrequency(counts[t], total, 1.0)
    {
      RatioAtMostOne(counts[t], total);
    }
  }

  lemma {:induction false} RatioAtMostOne(count: nat, total: nat)
    requires 0 < total && count <= total
    ensures (count as real) / (total as real) <= 1.0
  {
    assert (count as real) / (total as real) * (total as real) == count as real;
  }

  /** Selection is strict: 5 of 10 is not above one half, 6 of 10 is. */
  lemma {:induction false} HighFreqStrictExamples()
    ensures HighFreqTokens(map["a" := 5], 10, 0.5) == {}
    ensures HighFreqTokens(map["a" := 6], 10, 0.5) == {"a"}
  {
    assert !IsHighFrequency(5, 10, 0.5);
    assert IsHighFrequency(6, 10, 0.5);
  }

  /** The counts of a two-document corpus, and the selections at four
      thresholds over a counter of 100 tokens. */
  lemma {:induction false} FrequencyExamples()
    ensures Occurrences([["a", "b", "a"], ["b", "c"]], "a") == 2
    ensures Occurrences([["a", "b", "a"], ["b", "c"]], "c") == 1
    ensures TotalTokens([["a", "b", "a"], ["b", "c"]]) == 5
    ensures HighFreqTokens(map["a" := 50, "b" := 30, "c" := 20], 100, 0.4) == {"a"}
    ensures HighFreqTokens(map["a" := 50, "b" := 30, "c" := 20], 100, 0.25) == {"a", "b"}
    ensures HighFreqTokens(map["a" := 50, "b" := 30, "c" := 20], 100, 0.5) == {}
    ensures HighFreqTokens(map["a" := 50, "b" := 30, "c" := 20], 100, 0.0) == {"a", "b", "c"}
  {
    var corpus: Corpus := [["a", "b", "a"], ["b", "c"]];
    assert corpus[1..][1..] == [];
    assert corpus[0][1..][1..][1..] == [];
    assert corpus[1][1..][1..] == [];
    var m: Counts := map["a" := 50, "b" := 30, "c" := 20];
    assert m.Keys == {"a", "b", "c"};
    assert IsHighFrequency(50, 100, 0.4) && !IsHighFrequency(30, 100, 0.4);
    assert IsHighFrequency(30, 100, 0.25) && !IsHighFrequency(20, 100, 0.25);
    assert !IsHighFrequency(50, 100, 0.5);
    assert IsHighFrequency(20, 100, 0.0);
  }

  /** The whole counters and totals of the four test corpora of
      `_get_corpus_token_frequencies`. */
  lemma {:induction false} CorpusCountsExample()
    ensures CorpusCounts([["a", "b", "a"], ["b", "c"]]) == map["a" := 2, "b" := 2, "c" := 1]
    ensures TotalTokens([["a", "b", "a"], ["b", "c"]]) == 5
    ensures CorpusCounts([["hello", "world"], ["hello", "python"]]) == map["hello" := 2, "world" := 1, "python" := 1]
    ensures TotalTokens([["hello", "world"], ["hello", "python"]]) == 4
    ensures CorpusCounts([]) == map[] && TotalTokens([]) == 0
    ensures CorpusCounts([["token"]]) == map["token" := 1] && TotalTokens([["token"]]) == 1
  {
    CorpusCountsOfTwo("a", "b", "c");
    CorpusCountsOfPairs("hello", "world", "python");
    CorpusCountsOfOne("token");
    CorpusCountsCharacterized([]);
  }

  /** The counter of a corpus shaped as in the example, for any three
      distinct tokens. */
  lemma {:induction false} CorpusCountsOfTwo(x: Token, y: Token, z: Token)
    requires x != y && y != z && x != z
    ensures CorpusCounts([[x, y, x], [y, z]]) == map[x := 2, y := 2, z := 1]
  {
    var corpus: Corpus := [[x, y, x], [y, z]];
    var m := CorpusCounts(corpus);
    var expected: Counts := map[x := 2, y := 2, z := 1];
    CorpusCountsCharacterized(corpus);
    var rest := corpus[1..];
    assert rest == [[y, z]] && rest[1..] == [];
    forall t
      ensures Occurrences(corpus, t) == (if t in expected then expected[t] else 0)
    {
      CountOfThree(x, y, x, t);
      CountOfTwo(y, z, t);
      assert Occurrences(rest, t) == Count([y, z], t) + Occurrences(rest[1..], t);
    }
    assert m.Keys == expected.Keys;
  }

  /** The counter of two two-token documents sharing their first token. */
  lemma {:induction false} CorpusCountsOfPairs(x: Token, y: Token, z: Token)
    requires x != y && y != z && x != z
    ensures CorpusCounts([[x, y], [x, z]]) == map[x := 2, y := 1, z := 1]
    ensures TotalTokens([[x, y], [x, z]]) == 4
  {
    var corpus: Corpus := [[x, y], [x, z]];
    var m := CorpusCounts(corpus);
    var expected: Counts := map[x := 2, y := 1, z := 1];
    CorpusCountsCharacterized(corpus);
    var rest := corpus[1..];
    assert rest == [[x, z]] && rest[1..] == [];
    forall t
      ensures Occurrences(corpus, t) == (if t in expected then expected[t] else 0)
    {
      CountOfTwo(x, y, t);
      CountOfTwo(x, z, t);
      assert Occurrences(rest, t) == Count([x, z], t) + Occurrences(rest[1..], t);
    }
    assert m.Keys == expected.Keys;
    assert TotalTokens(rest) == 2 + TotalTokens(rest[1..]);
  }

  /** The counter of a single one-token document. */
  lemma {:induction false} CorpusCountsOfOne(x: Token)
    ensures CorpusCounts([[x]]) == map[x := 1]
    ensures TotalTokens([[x]]) == 1
  {
    var corpus: Corpus := [[x]];
    var m := CorpusCounts(corpus);
    CorpusCountsCharacterized(corpus);
    assert corpus[1..] == [] && [x][1..] == [];
    forall t
      ensures Occurrences(corpus, t) == (if t == x then 1 else 0)
    {
      assert Count([x], t) == (if x == t then 1 else 0) + Count([x][1..], t);
    }
    assert m.Keys == {x};
  }

  lemma {:induction false} CountOfTwo(x: Token, y: Token, t: Token)
    ensures Count([x, y], t) == (if x == t then 1 else 0) + (if y == t then 1 else 0)
  {
    var d := [x, y];
    assert d[1..] == [y] && d[1..][1..] == [];
    assert Count(d[1..], t) == (if y == t then 1 else 0) + Count(d[1..][1..], t);
  }

  // Unfoldings for three-token documents and three-document corpora.

  lemma {:induction false} CountOfThree(x: Token, y: Token, z: Token, t: Token)
    ensures Count([x, y, z], t) == (if x == t then 1 else 0) + (if y == t then 1 else 0) + (if z == t then 1 else 0)
  {
    var d := [x, y, z];
    assert d[1..] == [y, z] && d[1..][1..] == [z] && d[1..][1..][1..] == [];
    assert Count(d[1..][1..], t) == (if z == t then 1 else 0);
    assert Count(d[1..], t) == (if y == t then 1 else 0) + Count(d[1..][1..], t);
  }

  lemma {:induction false} FilterOfThree(x: Token, y: Token, z: Token, keep: Token -> bool)
    ensures Filter([x, y, z], keep) == (if keep(x) then [x] else []) + (if keep(y) then [y] else []) + (if keep(z) then [z] else [])
  {
    var d := [x, y, z];
    assert d[1..] == [y, z] && d[1..][1..] == [z] && d[1..][1..][1..] == [];
    assert Filter(d[1..][1..], keep) == (if keep(z) then [z] else []);
    assert Filter(d[1..], keep) == (if keep(y) then [y] else []) + Filter(d[1..][1..], keep);
  }

  lemma {:induction false} ThreeDocumentTotals(d0: seq<Token>, d1: seq<Token>, d2: seq<Token>, t: Token)
    ensures Occurrences([d0, d1, d2], t) == Count(d0, t) + Count(d1, t) + Count(d2, t)
    ensures TotalTokens([d0, d1, d2]) == |d0| + |d1| + |d2|
  {
    var corpus := [d0, d1, d2];
    var c1 := corpus[1..];
    var c2 := c1[1..];
    assert c1 == [d1, d2] && c2 == [d2] && c2[1..] == [];
    assert Occurrences(c2, t) == Count(d2, t);
    assert Occurrences(c1, t) == Count(d1, t) + Occurrences(c2, t);
    assert TotalTokens(c2) == |d2|;
    assert TotalTokens(c1) == |d1| + TotalTokens(c2);
  }

  // ---------------------------------------------------------------------
  // _filter_tokens_by_set

  /** `_filter_tokens_by_set`: each document keeps, in order and with their
      multiplicities, exactly its tokens outside the set. */
  function FilterTokensBySet(corpus: Corpus, remove: set<Token>): (r: Corpus)
    ensures |r| == |corpus|
    ensures forall i :: 0 <= i < |r| ==> r[i] == Filter(corpus[i], NotIn(remove))
    ensures forall i :: 0 <= i < |r| ==> IsSubsequence(r[i], corpus[i])
    ensures forall i, t :: 0 <= i < |r| ==>
              Count(r[i], t) == (if t in remove then 0 else Count(corpus[i], t))
    ensures remove == {} ==> r == corpus
  {
    FilterCorpusCharacterized(corpus, remove);
    seq(|corpus|, i requires 0 <= i < |corpus| => Filter(corpus[i], NotIn(remove)))
  }

  lemma {:induction false} FilterCorpusCharacterized(corpus: Corpus, remove: set<Token>)
    ensures forall i :: 0 <= i < |corpus| ==>
              IsSubsequence(Filter(corpus[i], NotIn(remove)), corpus[i])
    ensures forall i, t :: 0 <= i < |corpus| ==>
              Count(Filter(corpus[i], NotIn(remove)), t)
              == (if t in remove then 0 else Count(corpus[i], t))
    ensures remove == {} ==> forall i :: 0 <= i < |corpus| ==>
              Filter(corpus[i], NotIn(remove)) == corpus[i]
  {
    forall i | 0 <= i < |corpus|
      ensures IsSubsequence(Filter(corpus[i], NotIn(remove)), corpus[i])
      ensures forall t :: Count(Filter(corpus[i], NotIn(remove)), t)
                          == (if t in remove then 0 else Count(corpus[i], t))
      ensures remove == {} ==> Filter(corpus[i], NotIn(remove)) == corpus[i]
    {
      FilterCharacterized(corpus[i], NotIn(remove));
      if remove == {} {
        FilterKeepsAll(corpus[i], NotIn(remove));
      }
    }
  }

  /** Removing a larger set leaves a subsequence of what removing a smaller
      set leaves. */
  lemma {:induction false} FilterBySupersetIsSubsequence(doc: seq<Token>, smaller: set<Token>, larger: set<Token>)
    requires smaller <= larger
    ensures IsSubsequence(Filter(doc, NotIn(larger)), Filter(doc, NotIn(smaller)))
  {
    if doc != [] {
      FilterBySupersetIsSubsequence(doc[1..], smaller, larger);
      var a := Filter(doc[1..], NotIn(larger));
      var b := Filter(doc[1..], NotIn(smaller));
      if doc[0] !in larger {
        assert ([doc[0]] + a)[1..] == a && ([doc[0]] + b)[1..] == b;
      } else if doc[0] !in smaller {
        SubsequenceSkip(a, b, doc[0]);
      }
    }
  }

  lemma {:induction false} FilterTokensBySetExample()
    ensures FilterTokensBySet([["a", "b", "c"], ["b", "d", "a"]], {"a", "d"}) == [["b", "c"], ["b"]]
    ensures FilterTokensBySet([[]], {"a"}) == [[]]
  {
    var d0: seq<Token> := ["a", "b", "c"];
    var d1: seq<Token> := ["b", "d", "a"];
    assert d0[1..] == ["b", "c"] && d0[1..][1..] == ["c"] && d0[1..][1..][1..] == [];
    assert d1[1..] == ["d", "a"] && d1[1..][1..] == ["a"] && d1[1..][1..][1..] == [];
    var keep := NotIn({"a", "d"});
    assert Filter(d0, keep) == ["b", "c"] by {
      assert !keep("a") && keep("b") && keep("c");
      assert Filter(d0[1..][1..], keep) == ["c"];
    }
    assert Filter(d1, keep) == ["b"] by {
      assert !keep("d") && !keep("a");
      assert Filter(d1[1..], keep) == [];
    }
    var r := FilterTokensBySet([d0, d1], {"a", "d"});
    assert r[0] == Filter(d0, keep) && r[1] == Filter(d1, keep);
  }
}
