/** Python's ordering of `str` values and `sorted(set(...))` over strings. */
module Order {

  /** Python `a < b` on strings: lexicographic by code point, with a proper
      prefix ordered before the longer string. */
  predicate StrLt(a: string, b: string)
    decreases |a|
  {
    |b| > 0 && (|a| == 0 || a[0] < b[0] || (a[0] == b[0] && StrLt(a[1..], b[1..])))
  }

  /** Python `a <= b` on strings. */
  predicate StrLe(a: string, b: string) {
    a == b || StrLt(a, b)
  }

  lemma {:induction false} StrLtIrreflexive(a: string)
    ensures !StrLt(a, a)
    decreases |a|
  {
    if |a| > 0 {
      StrLtIrreflexive(a[1..]);
    }
  }

  lemma {:induction false} StrLtAsymmetric(a: string, b: string)
    requires StrLt(a, b)
    ensures !StrLt(b, a)
    decreases |a|
  {
    if |a| > 0 && a[0] == b[0] {
      StrLtAsymmetric(a[1..], b[1..]);
    }
  }

  lemma {:induction false} StrLtTransitive(a: string, b: string, c: string)
    requires StrLt(a, b) && StrLt(b, c)
    ensures StrLt(a, c)
    decreases |a|
  {
    if |a| > 0 && a[0] == b[0] && b[0] == c[0] {
      StrLtTransitive(a[1..], b[1..], c[1..]);
    }
  }

  /** Any two distinct strings are ordered one way or the other. */
  lemma {:induction false} StrLtTotal(a: string, b: string)
    ensures a == b || StrLt(a, b) || StrLt(b, a)
    decreases |a|
  {
    if |a| > 0 && |b| > 0 && a[0] == b[0] {
      StrLtTotal(a[1..], b[1..]);
      if a[1..] == b[1..] {
        assert a == [a[0]] + a[1..] && b == [b[0]] + b[1..];
      }
    }
  }

  /** The string order facts in universally quantified form. */
  lemma StrLtIsStrictTotalOrder()
    ensures forall a :: !StrLt(a, a)
    ensures forall a, b, c :: StrLt(a, b) && StrLt(b, c) ==> StrLt(a, c)
    ensures forall a, b :: a == b || StrLt(a, b) || StrLt(b, a)
  {
    forall a ensures !StrLt(a, a) {
      StrLtIrreflexive(a);
    }
    forall a, b, c | StrLt(a, b) && StrLt(b, c) ensures StrLt(a, c) {
      StrLtTransitive(a, b, c);
    }
    forall a, b ensures a == b || StrLt(a, b) || StrLt(b, a) {
      StrLtTotal(a, b);
    }
  }

  /** Increasing and therefore free of duplicates. */
  predicate StrictlySorted(s: seq<string>) {
    forall i, j :: 0 <= i < j < |s| ==> StrLt(s[i], s[j])
  }

  /** Adds `x` to a strictly sorted list unless it is already there. */
  function Insert(x: string, s: seq<string>): (r: seq<string>)
    requires StrictlySorted(s)
    ensures StrictlySorted(r)
    ensures forall y :: y in r <==> y == x || y in s
    decreases |s|
  {
    StrLtIsStrictTotalOrder();
    if |s| == 0 then [x]
    else if x == s[0] then s
    else if StrLt(x, s[0]) then [x] + s
    else
      var tail := Insert(x, s[1..]);
      assert forall y :: y in tail ==> StrLt(s[0], y);
      [s[0]] + tail
  }

  /** Python `sorted(set(xs))` over strings: the strictly increasing listing
      of exactly the strings that occur in `xs`. */
  function SortedUnique(xs: seq<string>): (r: seq<string>)
    ensures StrictlySorted(r)
    ensures forall y :: y in r <==> y in xs
    ensures |r| <= |xs|
    decreases |xs|
  {
    if |xs| == 0 then []
    else
      var rest := SortedUnique(xs[1..]);
      assert xs == [xs[0]] + xs[1..];
      var r := Insert(xs[0], rest);
      InsertLength(xs[0], rest);
      r
  }

  lemma InsertLength(x: string, s: seq<string>)
    requires StrictlySorted(s)
    ensures |Insert(x, s)| <= |s| + 1
    decreases |s|
  {
  }

  /** Two strictly increasing lists holding the same strings are equal, so the
      sorted listing does not depend on the order in which the strings were
      found. */
  lemma {:induction false} SortedListingIsUnique(a: seq<string>, b: seq<string>)
    requires StrictlySorted(a) && StrictlySorted(b)
    requires forall y :: y in a <==> y in b
    ensures a == b
    decreases |a|
  {
    StrLtIsStrictTotalOrder();
    if |a| > 0 {
      assert a[0] in b;
    }
    if |b| > 0 {
      assert b[0] in a;
    }
    if |a| > 0 && |b| > 0 {
      var k :| 0 <= k < |b| && b[k] == a[0];
      FirstIsLeast(b, k);
      assert b[0] in a;
      var m :| 0 <= m < |a| && a[m] == b[0];
      FirstIsLeast(a, m);
      assert a[0] == b[0];
      forall y ensures y in a[1..] <==> y in b[1..] {
        if y in a[1..] {
          TailMember(a, b, y);
        }
        if y in b[1..] {
          TailMember(b, a, y);
        }
      }
      SortedListingIsUnique(a[1..], b[1..]);
      assert a == [a[0]] + a[1..] && b == [b[0]] + b[1..];
    }
  }

  lemma FirstIsLeast(s: seq<string>, i: int)
    requires StrictlySorted(s) && 0 <= i < |s|
    ensures StrLe(s[0], s[i])
  {
  }

  lemma TailMember(a: seq<string>, b: seq<string>, y: string)
    requires StrictlySorted(a) && StrictlySorted(b)
    requires forall z :: z in a <==> z in b
    requires |a| > 0 && |b| > 0 && a[0] == b[0]
    requires y in a[1..]
    ensures y in b[1..]
  {
    StrLtIsStrictTotalOrder();
    var i :| 1 <= i < |a| && a[i] == y;
    assert StrLt(a[0], y);
    assert y in b;
    var j :| 0 <= j < |b| && b[j] == y;
    assert j != 0;
    assert b[1..][j - 1] == y;
  }

  /** Sorting the same strings found in another order, or found again, gives
      the same listing. */
  lemma SortedUniqueIgnoresOrder(xs: seq<string>, ys: seq<string>)
    requires forall y :: y in xs <==> y in ys
    ensures SortedUnique(xs) == SortedUnique(ys)
  {
    SortedListingIsUnique(SortedUnique(xs), SortedUnique(ys));
  }
}

/** Order-preserving selection over sequences. */
module Seqs {

  /** `s` can be obtained from `xs` by deleting elements, keeping the order
      of the rest (matched greedily, left to right). */
  predicate IsSubsequence<T(==)>(s: seq<T>, xs: seq<T>)
    decreases |xs|
  {
    if |s| == 0 then true
    else if |xs| == 0 then false
    else if s[0] == xs[0] then IsSubsequence(s[1..], xs[1..])
    else IsSubsequence(s, xs[1..])
  }

  /** The elements of `xs` that satisfy `keep`, in their original order (a
      Python loop with an `if` guard around each `write`/`append`). */
  function Filter<T(!new)>(xs: seq<T>, keep: T -> bool): (r: seq<T>)
    ensures |r| <= |xs|
    ensures forall x :: x in r <==> x in xs && keep(x)
    decreases |xs|
  {
    if |xs| == 0 then []
    else
      assert xs == [xs[0]] + xs[1..];
      (if keep(xs[0]) then [xs[0]] else []) + Filter(xs[1..], keep)
  }

  /** The filtered sequence is a subsequence of `xs` holding every kept
      element as often as `xs` does, and nothing else. */
  lemma {:induction false} FilterOrder<T(!new)>(xs: seq<T>, keep: T -> bool)
    ensures IsSubsequence(Filter(xs, keep), xs)
    ensures forall x :: multiset(Filter(xs, keep))[x] == if keep(x) then multiset(xs)[x] else 0
    decreases |xs|
  {
    if |xs| > 0 {
      var rest := Filter(xs[1..], keep);
      FilterOrder(xs[1..], keep);
      assert xs == [xs[0]] + xs[1..];
      if keep(xs[0]) {
        assert Filter(xs, keep) == [xs[0]] + rest;
        assert ([xs[0]] + rest)[1..] == rest;
      } else {
        assert Filter(xs, keep) == rest;
        assert |rest| > 0 ==> rest[0] in rest && rest[0] != xs[0];
      }
    }
  }

  /** A subsequence holds each element at most as often as the sequence. */
  lemma {:induction false} SubsequenceCounts<T>(s: seq<T>, xs: seq<T>)
    requires IsSubsequence(s, xs)
    ensures multiset(s) <= multiset(xs)
    decreases |xs|
  {
    if |s| > 0 {
      assert xs == [xs[0]] + xs[1..];
      if s[0] == xs[0] {
        SubsequenceCounts(s[1..], xs[1..]);
        assert s == [s[0]] + s[1..];
      } else {
        SubsequenceCounts(s, xs[1..]);
      }
    }
  }

  /** The contract of `Filter` determines its result: any subsequence of `xs`
      holding exactly the kept elements, each as often as `xs` does, is the
      filtered sequence. */
  lemma {:induction false} FilterIsUnique<T(!new)>(s: seq<T>, xs: seq<T>, keep: T -> bool)
    requires IsSubsequence(s, xs)
    requires forall x :: multiset(s)[x] == if keep(x) then multiset(xs)[x] else 0
    ensures s == Filter(xs, keep)
    decreases |xs|
  {
    if |xs| > 0 {
      var h := xs[0];
      var t := xs[1..];
      assert xs == [h] + t;
      assert multiset(xs)[h] == multiset(t)[h] + 1;
      if keep(h) {
        assert multiset(s)[h] > 0;
        assert |s| > 0;
        if s[0] != h {
          SubsequenceCounts(s, t);
          assert false;
        }
        assert s == [h] + s[1..];
        forall x ensures multiset(s[1..])[x] == if keep(x) then multiset(t)[x] else 0 {
          assert multiset(s)[x] == multiset([h])[x] + multiset(s[1..])[x];
        }
        FilterIsUnique(s[1..], t, keep);
      } else {
        if |s| > 0 {
          assert s[0] in multiset(s);
          assert s[0] != h;
        }
        assert IsSubsequence(s, t);
        forall x ensures multiset(s)[x] == if keep(x) then multiset(t)[x] else 0 {
          assert multiset(xs)[x] == multiset([h])[x] + multiset(t)[x];
        }
        FilterIsUnique(s, t, keep);
      }
    }
  }

  /** Filtering distributes over concatenation: the kept elements of an
      earlier part come before those of a later part. */
  lemma {:induction false} FilterAppend<T(!new)>(xs: seq<T>, ys: seq<T>, keep: T -> bool)
    ensures Filter(xs + ys, keep) == Filter(xs, keep) + Filter(ys, keep)
    decreases |xs|
  {
    if |xs| > 0 {
      assert (xs + ys)[1..] == xs[1..] + ys;
      FilterAppend(xs[1..], ys, keep);
    } else {
      assert xs + ys == ys;
    }
  }

  /** Nothing is dropped exactly when every element is kept. */
  lemma {:induction false} FilterKeepsAll<T(!new)>(xs: seq<T>, keep: T -> bool)
    ensures |Filter(xs, keep)| == |xs| <==> forall x :: x in xs ==> keep(x)
    decreases |xs|
  {
    if |xs| > 0 {
      FilterKeepsAll(xs[1..], keep);
      assert xs == [xs[0]] + xs[1..];
      if !keep(xs[0]) {
        assert |Filter(xs, keep)| < |xs|;
      }
    }
  }

  /** Keeping every element gives the sequence back. */
  lemma {:induction false} FilterKeepingEverything<T(!new)>(xs: seq<T>, keep: T -> bool)
    requires forall x :: x in xs ==> keep(x)
    ensures Filter(xs, keep) == xs
    decreases |xs|
  {
    if |xs| > 0 {
      FilterKeepingEverything(xs[1..], keep);
      assert xs == [xs[0]] + xs[1..];
    }
  }
}
