/** Order-preserving selection, occurrence counting, subsequences and
    concatenation: the list comprehensions and joins the pipelines are
    built from. */
module TokenLists {

  /** Number of occurrences of `x` in `s` (what `list.count` returns). */
  function Count<T(==)>(s: seq<T>, x: T): nat
  {
    if s == [] then 0 else (if s[0] == x then 1 else 0) + Count(s[1..], x)
  }

  lemma {:induction false} CountAppend<T>(a: seq<T>, b: seq<T>, x: T)
    ensures Count(a + b, x) == Count(a, x) + Count(b, x)
  {
    if a != [] {
      assert (a + b)[1..] == a[1..] + b;
      CountAppend(a[1..], b, x);
    } else {
      assert a + b == b;
    }
  }

  lemma {:induction false} CountPositive<T>(s: seq<T>, x: T)
    ensures Count(s, x) > 0 <==> x in s
  {
    if s != [] {
      CountPositive(s[1..], x);
      assert s == [s[0]] + s[1..];
    }
  }

  /** `[x for x in s if keep(x)]`. */
  function Filter<T>(s: seq<T>, keep: T -> bool): (r: seq<T>)
    ensures |r| <= |s|
    ensures forall i :: 0 <= i < |r| ==> keep(r[i])
  {
    if s == [] then []
    else if keep(s[0]) then [s[0]] + Filter(s[1..], keep)
    else Filter(s[1..], keep)
  }

  /** `a` is obtained from `b` by deleting elements, order kept. */
  predicate IsSubsequence<T(==)>(a: seq<T>, b: seq<T>)
    decreases |b|
  {
    if a == [] then true
    else if b == [] then false
    else if a[0] == b[0] then IsSubsequence(a[1..], b[1..])
    else IsSubsequence(a, b[1..])
  }

  lemma {:induction false} SubsequenceProperties<T>(a: seq<T>, b: seq<T>)
    requires IsSubsequence(a, b)
    ensures |a| <= |b|
    ensures forall x :: x in a ==> x in b
  {
    if a != [] && b != [] {
      if a[0] == b[0] {
        SubsequenceProperties(a[1..], b[1..]);
        assert forall x :: x in a ==> x == a[0] || x in a[1..];
      } else {
        SubsequenceProperties(a, b[1..]);
      }
    }
  }

  lemma {:induction false} SubsequenceDropFirst<T>(a: seq<T>, b: seq<T>)
    requires a != [] && IsSubsequence(a, b)
    ensures IsSubsequence(a[1..], b)
    decreases |b|, 0
  {
    if a[0] != b[0] {
      SubsequenceDropFirst(a, b[1..]);
      SubsequenceSkip(a[1..], b[1..], b[0]);
      assert [b[0]] + b[1..] == b;
    } else {
      SubsequenceSkip(a[1..], b[1..], b[0]);
      assert [b[0]] + b[1..] == b;
    }
  }

  /** Prepending an element to the longer sequence keeps a subsequence. */
  lemma {:induction false} SubsequenceSkip<T>(a: seq<T>, b: seq<T>, x: T)
    requires IsSubsequence(a, b)
    ensures IsSubsequence(a, [x] + b)
    decreases |b|, 1
  {
    assert ([x] + b)[1..] == b;
    if a != [] && a[0] == x {
      SubsequenceDropFirst(a, b);
    }
  }

  lemma {:induction false} SubsequenceSuffix<T>(a: seq<T>, b: seq<T>, k: nat)
    requires k <= |b| && IsSubsequence(a, b[k..])
    ensures IsSubsequence(a, b)
    decreases k
  {
    if k > 0 {
      assert b[k - 1..] == [b[k - 1]] + b[k..];
      SubsequenceSkip(a, b[k..], b[k - 1]);
      SubsequenceSuffix(a, b, k - 1);
    }
  }

  lemma {:induction false} SubsequenceReflexive<T>(s: seq<T>)
    ensures IsSubsequence(s, s)
  {
    if s != [] {
      SubsequenceReflexive(s[1..]);
    }
  }

  lemma {:induction false} SubsequenceTransitive<T>(a: seq<T>, b: seq<T>, c: seq<T>)
    requires IsSubsequence(a, b) && IsSubsequence(b, c)
    ensures IsSubsequence(a, c)
    decreases |c|
  {
    if a != [] && b != [] && c != [] {
      if b[0] == c[0] {
        if a[0] == b[0] {
          SubsequenceTransitive(a[1..], b[1..], c[1..]);
        } else {
          SubsequenceTransitive(a, b[1..], c[1..]);
        }
      } else {
        SubsequenceTransitive(a, b, c[1..]);
        SubsequenceSkip(a, c[1..], c[0]);
        assert [c[0]] + c[1..] == c;
      }
    }
  }

  /** `Filter` keeps exactly the selected elements, each as often as it
      occurs, in their original order. */
  lemma {:induction false} FilterCharacterized<T>(s: seq<T>, keep: T -> bool)
    ensures IsSubsequence(Filter(s, keep), s)
    ensures forall x :: Count(Filter(s, keep), x) == (if keep(x) then Count(s, x) else 0)
    ensures forall x :: x in Filter(s, keep) <==> x in s && keep(x)
  {
    if s != [] {
      FilterCharacterized(s[1..], keep);
      var rest := Filter(s[1..], keep);
      if keep(s[0]) {
        assert Filter(s, keep) == [s[0]] + rest;
        assert ([s[0]] + rest)[1..] == rest;
      } else {
        SubsequenceSkip(rest, s[1..], s[0]);
        assert [s[0]] + s[1..] == s;
      }
      forall x
        ensures x in Filter(s, keep) <==> x in s && keep(x)
      {
        assert x in s <==> x == s[0] || x in s[1..];
      }
    }
  }

  lemma {:induction false} FilterKeepsAll<T>(s: seq<T>, keep: T -> bool)
    requires forall i :: 0 <= i < |s| ==> keep(s[i])
    ensures Filter(s, keep) == s
  {
    if s != [] {
      FilterKeepsAll(s[1..], keep);
    }
  }

  lemma {:induction false} FilterAppend<T>(a: seq<T>, b: seq<T>, keep: T -> bool)
    ensures Filter(a + b, keep) == Filter(a, keep) + Filter(b, keep)
  {
    if a != [] {
      assert (a + b)[1..] == a[1..] + b;
      FilterAppend(a[1..], b, keep);
    } else {
      assert a + b == b;
    }
  }

  /** `p + (a + b)` regrouped. */
  lemma PrefixJoin<T>(p: seq<T>, a: seq<T>, ab: seq<T>, b: seq<T>, full: seq<T>, part: seq<T>)
    requires full == p + ab && part == p + a && ab == a + b
    ensures full == part + b
  {
  }

  /** The membership part of `FilterCharacterized` on its own. */
  lemma {:induction false} FilterMembership<T>(s: seq<T>, keep: T -> bool)
    ensures forall x :: x in Filter(s, keep) <==> x in s && keep(x)
  {
    FilterCharacterized(s, keep);
  }

  /** Filtering a list extended by one element. */
  lemma {:induction false} FilterSnoc<T>(s: seq<T>, x: T, keep: T -> bool)
    ensures Filter(s + [x], keep) == Filter(s, keep) + (if keep(x) then [x] else [])
  {
    FilterAppend(s, [x], keep);
    assert [x][1..] == [];
  }

  /** Membership test against a removal set, as a filter predicate. */
  function NotIn<T(==)>(remove: set<T>): T -> bool
  {
    x => x !in remove
  }

  /** `"".join(ts)`. */
  function Concat(ts: seq<string>): string
  {
    if ts == [] then [] else ts[0] + Concat(ts[1..])
  }

  lemma {:induction false} ConcatAppend(a: seq<string>, b: seq<string>)
    ensures Concat(a + b) == Concat(a) + Concat(b)
  {
    if a != [] {
      assert (a + b)[1..] == a[1..] + b;
      ConcatAppend(a[1..], b);
    } else {
      assert a + b == b;
    }
  }

  lemma {:induction false} ConcatHoldsTokenChars(ts: seq<string>, i: nat, j: nat)
    requires i < |ts| && j < |ts[i]|
    ensures ts[i][j] in Concat(ts)
  {
    if i > 0 {
      ConcatHoldsTokenChars(ts[1..], i - 1, j);
    }
  }
}
