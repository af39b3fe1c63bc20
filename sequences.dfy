/**
 * Sums, means, extremes, order-preserving filters and a stable sort over
 * sequences: the list and SQL primitives (sum, AVG/MIN/MAX, comprehensions
 * with a condition, ORDER BY, LIMIT, Python's sorted) the rest of the model uses.
 */
module Sequences {
  import opened Wrappers

  /** The sum of the terms, taken from the right so that a growing prefix adds one term. */
  function Sum(s: seq<real>): real
    decreases |s|
  {
    if s == [] then 0.0 else Sum(s[..|s| - 1]) + s[|s| - 1]
  }

  lemma {:induction false} SumAppend(a: seq<real>, b: seq<real>)
    ensures Sum(a + b) == Sum(a) + Sum(b)
    decreases |b|
  {
    if b == [] {
      assert a + b == a;
    } else {
      assert (a + b)[..|a + b| - 1] == a + b[..|b| - 1];
      SumAppend(a, b[..|b| - 1]);
    }
  }

  /** The arithmetic mean (AVG, pandas' mean). */
  function Mean(s: seq<real>): real
    requires |s| > 0
  {
    Sum(s) / |s| as real
  }

  /** MIN over a non-empty column. */
  function Min(s: seq<real>): (m: real)
    requires |s| > 0
    ensures m in s
    ensures forall i :: 0 <= i < |s| ==> m <= s[i]
  {
    if |s| == 1 then s[0]
    else
      var m := Min(s[..|s| - 1]);
      if s[|s| - 1] < m then s[|s| - 1] else m
  }

  /** MAX over a non-empty column. */
  function Max(s: seq<real>): (m: real)
    requires |s| > 0
    ensures m in s
    ensures forall i :: 0 <= i < |s| ==> s[i] <= m
  {
    if |s| == 1 then s[0]
    else
      var m := Max(s[..|s| - 1]);
      if m < s[|s| - 1] then s[|s| - 1] else m
  }

  /** A sum of terms that all lie in [lo, hi] lies in [n * lo, n * hi]. */
  lemma {:induction false} SumBetween(s: seq<real>, lo: real, hi: real)
    requires forall i :: 0 <= i < |s| ==> lo <= s[i] <= hi
    ensures |s| as real * lo <= Sum(s) <= |s| as real * hi
    decreases |s|
  {
    if s != [] {
      var init := s[..|s| - 1];
      assert forall i :: 0 <= i < |init| ==> init[i] == s[i];
      SumBetween(init, lo, hi);
      assert Sum(s) == Sum(init) + s[|s| - 1];
      assert |s| as real * lo == |init| as real * lo + lo;
      assert |s| as real * hi == |init| as real * hi + hi;
    }
  }

  /** A mean of terms that all lie in [lo, hi] lies in [lo, hi]. */
  lemma {:induction false} MeanWithin(s: seq<real>, lo: real, hi: real)
    requires |s| > 0
    requires forall i :: 0 <= i < |s| ==> lo <= s[i] <= hi
    ensures lo <= Mean(s) <= hi
  {
    SumBetween(s, lo, hi);
    DivBetween(Sum(s), |s| as real, lo, hi);
  }

  /** AVG never leaves the range of its column: MIN <= AVG <= MAX. */
  lemma {:induction false} MeanBetween(s: seq<real>)
    requires |s| > 0
    ensures Min(s) <= Mean(s) <= Max(s)
  {
    MeanWithin(s, Min(s), Max(s));
  }

  lemma {:induction false} DivBetween(sum: real, n: real, lo: real, hi: real)
    requires n > 0.0 && n * lo <= sum <= n * hi
    ensures lo <= sum / n <= hi
  {
    assert sum / n - lo == (sum - n * lo) / n;
    assert hi - sum / n == (n * hi - sum) / n;
  }

  /** The order-preserving filter `[x for x in s if p(x)]`. */
  function Filter<T>(s: seq<T>, p: T -> bool): (r: seq<T>)
    ensures |r| <= |s|
    decreases |s|
  {
    if s == [] then []
    else Filter(s[..|s| - 1], p) + if p(s[|s| - 1]) then [s[|s| - 1]] else []
  }

  /** The filter keeps every element that passes, as often as it occurs, and nothing else. */
  lemma {:induction false} FilterCounts<T>(s: seq<T>, p: T -> bool)
    ensures forall x :: multiset(Filter(s, p))[x] == if p(x) then multiset(s)[x] else 0
    decreases |s|
  {
    if s != [] {
      var init := s[..|s| - 1];
      assert s == init + [s[|s| - 1]];
      FilterCounts(init, p);
    }
  }

  lemma {:induction false} FilterMembers<T>(s: seq<T>, p: T -> bool)
    ensures forall x :: x in Filter(s, p) <==> x in s && p(x)
  {
    FilterCounts(s, p);
    forall x ensures x in Filter(s, p) <==> x in s && p(x) {
      assert x in Filter(s, p) <==> x in multiset(Filter(s, p));
      assert x in s <==> x in multiset(s);
    }
  }

  /** A filter that every element passes changes nothing. */
  lemma {:induction false} FilterAll<T>(s: seq<T>, p: T -> bool)
    requires forall i :: 0 <= i < |s| ==> p(s[i])
    ensures Filter(s, p) == s
    decreases |s|
  {
    if s != [] {
      var init := s[..|s| - 1];
      assert s == init + [s[|s| - 1]];
      FilterAll(init, p);
    }
  }

  /** A condition no element meets filters everything out. */
  lemma {:induction false} FilterNone<T>(s: seq<T>, p: T -> bool)
    requires forall i :: 0 <= i < |s| ==> !p(s[i])
    ensures Filter(s, p) == []
    decreases |s|
  {
    if s != [] {
      var init := s[..|s| - 1];
      assert forall i :: 0 <= i < |init| ==> init[i] == s[i];
      FilterNone(init, p);
    }
  }

  /** `s[:n]` for a non-negative `n`, which is also SQL's LIMIT n. */
  function Take<T>(s: seq<T>, n: nat): (r: seq<T>)
    ensures |r| == if n < |s| then n else |s|
    ensures r == s[..|r|]
  {
    if n < |s| then s[..n] else s
  }

  /** Ascending by `key`. */
  ghost predicate SortedBy<T>(s: seq<T>, key: T -> int) {
    forall i, j :: 0 <= i < j < |s| ==> key(s[i]) <= key(s[j])
  }

  /**
   * Inserts `x` before the first element whose key is not smaller, so that
   * `x` precedes the elements of equal key that follow it: this keeps the sort stable.
   */
  function InsertBy<T>(x: T, s: seq<T>, key: T -> int): (r: seq<T>)
    ensures |r| == |s| + 1
    ensures multiset(r) == multiset(s) + multiset{x}
    decreases |s|
  {
    if s == [] || key(x) <= key(s[0]) then [x] + s
    else
      assert s == [s[0]] + s[1..];
      [s[0]] + InsertBy(x, s[1..], key)
  }

  /** A bound below every key of `s` and below `key(x)` stays below every key after the insertion. */
  lemma {:induction false} InsertByBounded<T>(x: T, s: seq<T>, key: T -> int, b: int)
    requires b <= key(x)
    requires forall j :: 0 <= j < |s| ==> b <= key(s[j])
    ensures forall j :: 0 <= j < |s| + 1 ==> b <= key(InsertBy(x, s, key)[j])
    decreases |s|
  {
    if s != [] && key(x) > key(s[0]) {
      InsertByBounded(x, s[1..], key, b);
    }
  }

  /** Putting an element no larger than the rest in front of a sorted sequence keeps it sorted. */
  lemma {:induction false} SortedCons<T>(y: T, s: seq<T>, key: T -> int)
    requires SortedBy(s, key)
    requires forall j :: 0 <= j < |s| ==> key(y) <= key(s[j])
    ensures SortedBy([y] + s, key)
  {
    var r := [y] + s;
    forall i, j | 0 <= i < j < |r| ensures key(r[i]) <= key(r[j]) {
      assert r[j] == s[j - 1];
      if i > 0 {
        assert r[i] == s[i - 1];
      }
    }
  }

  lemma {:induction false} InsertBySorted<T>(x: T, s: seq<T>, key: T -> int)
    requires SortedBy(s, key)
    ensures SortedBy(InsertBy(x, s, key), key)
    decreases |s|
  {
    if s == [] || key(x) <= key(s[0]) {
      SortedCons(x, s, key);
    } else {
      assert SortedBy(s[1..], key);
      InsertBySorted(x, s[1..], key);
      InsertByBounded(x, s[1..], key, key(s[0]));
      SortedCons(s[0], InsertBy(x, s[1..], key), key);
    }
  }

  /** A stable insertion sort by `key`, ascending. */
  function SortBy<T>(s: seq<T>, key: T -> int): (r: seq<T>)
    ensures multiset(r) == multiset(s)
    ensures |r| == |s|
    decreases |s|
  {
    if s == [] then []
    else
      assert s == [s[0]] + s[1..];
      InsertBy(s[0], SortBy(s[1..], key), key)
  }

  /** The sort puts its input in order. */
  lemma {:induction false} SortByOrders<T>(s: seq<T>, key: T -> int)
    ensures SortedBy(SortBy(s, key), key)
    decreases |s|
  {
    if s != [] {
      SortByOrders(s[1..], key);
      InsertBySorted(s[0], SortBy(s[1..], key), key);
    }
  }

  /** Sorting a sequence that is already in order returns it unchanged (the sort is stable). */
  lemma {:induction false} SortBySorted<T>(s: seq<T>, key: T -> int)
    requires SortedBy(s, key)
    ensures SortBy(s, key) == s
    decreases |s|
  {
    if s != [] {
      assert SortedBy(s[1..], key);
      SortBySorted(s[1..], key);
      assert s == [s[0]] + s[1..];
    }
  }

  /** `[f(x) for x in s]`, built from the end like the loops that consume it. */
  function Map<A, B>(s: seq<A>, f: A -> B): (r: seq<B>)
    ensures |r| == |s|
    decreases |s|
  {
    if s == [] then [] else Map(s[..|s| - 1], f) + [f(s[|s| - 1])]
  }

  lemma {:induction false} MapAt<A, B>(s: seq<A>, f: A -> B)
    ensures forall i :: 0 <= i < |s| ==> Map(s, f)[i] == f(s[i])
    decreases |s|
  {
    if s != [] {
      var init := s[..|s| - 1];
      MapAt(init, f);
      forall i | 0 <= i < |s| ensures Map(s, f)[i] == f(s[i]) {
        if i < |init| { assert s[i] == init[i]; }
      }
    }
  }

  lemma {:induction false} MapAppend<A, B>(a: seq<A>, b: seq<A>, f: A -> B)
    ensures Map(a + b, f) == Map(a, f) + Map(b, f)
    decreases |b|
  {
    if b == [] {
      assert a + b == a;
    } else {
      var init := b[..|b| - 1];
      assert (a + b)[..|a + b| - 1] == a + init;
      assert (a + b)[|a + b| - 1] == b[|b| - 1];
      MapAppend(a, init, f);
    }
  }

  /** The values before the first None: what a loop that stops at the first failure produces. */
  function UntilNone<T>(xs: seq<Option<T>>): (r: seq<T>)
    ensures |r| <= |xs|
    decreases |xs|
  {
    if xs == [] || xs[0].None? then [] else [xs[0].value] + UntilNone(xs[1..])
  }

  /** UntilNone yields the values of the longest prefix without a None, and stops at that None. */
  lemma {:induction false} UntilNoneIsLongestPrefix<T>(xs: seq<Option<T>>)
    ensures forall i :: 0 <= i < |UntilNone(xs)| ==> xs[i] == Some(UntilNone(xs)[i])
    ensures |UntilNone(xs)| < |xs| ==> xs[|UntilNone(xs)|].None?
    decreases |xs|
  {
    if xs != [] && xs[0].Some? {
      UntilNoneIsLongestPrefix(xs[1..]);
      var r := UntilNone(xs);
      assert r == [xs[0].value] + UntilNone(xs[1..]);
      forall i | 0 <= i < |r| ensures xs[i] == Some(r[i]) {
        if i > 0 {
          assert xs[i] == xs[1..][i - 1];
        }
      }
    }
  }

  /** No element is None: the loop that stops at the first failure runs to the end. */
  predicate AllSome<T>(xs: seq<Option<T>>) {
    |UntilNone(xs)| == |xs|
  }

  /** AllSome holds exactly when every element is present. */
  lemma {:induction false} AllSomeIsEverySome<T>(xs: seq<Option<T>>)
    ensures AllSome(xs) <==> forall i :: 0 <= i < |xs| ==> xs[i].Some?
  {
    UntilNoneIsLongestPrefix(xs);
    if !AllSome(xs) {
      assert xs[|UntilNone(xs)|].None?;
    }
  }

  /** Behind a front without failures the loop goes on. */
  lemma {:induction false} UntilNoneAppend<T>(a: seq<Option<T>>, b: seq<Option<T>>)
    requires AllSome(a)
    ensures UntilNone(a + b) == UntilNone(a) + UntilNone(b)
    decreases |a|
  {
    if a == [] {
      assert a + b == b;
    } else {
      assert (a + b)[0] == a[0] && (a + b)[1..] == a[1..] + b;
      UntilNoneAppend(a[1..], b);
      calc {
        UntilNone(a + b);
        [a[0].value] + UntilNone(a[1..] + b);
        [a[0].value] + (UntilNone(a[1..]) + UntilNone(b));
        ([a[0].value] + UntilNone(a[1..])) + UntilNone(b);
        UntilNone(a) + UntilNone(b);
      }
    }
  }

  /** Behind a failure nothing more is produced. */
  lemma {:induction false} UntilNoneStop<T>(a: seq<Option<T>>, b: seq<Option<T>>)
    requires !AllSome(a)
    ensures UntilNone(a + b) == UntilNone(a)
    decreases |a|
  {
    assert (a + b)[0] == a[0] && (a + b)[1..] == a[1..] + b;
    if a[0].Some? {
      UntilNoneStop(a[1..], b);
    }
  }

  lemma {:induction false} AllSomeConcat<T>(a: seq<Option<T>>, b: seq<Option<T>>)
    ensures AllSome(a + b) <==> AllSome(a) && AllSome(b)
  {
    if AllSome(a) {
      UntilNoneAppend(a, b);
    } else {
      UntilNoneStop(a, b);
    }
  }

  /**
   * One step of a loop over `xs` that stops at the first failure: a failure at
   * `j` ends the output, a success extends it by one value.
   */
  lemma {:induction false} UntilNoneStep<T>(xs: seq<Option<T>>, j: nat)
    requires j < |xs| && AllSome(xs[..j])
    ensures xs[j].None? ==> UntilNone(xs) == UntilNone(xs[..j]) && !AllSome(xs)
    ensures xs[j].Some? ==> UntilNone(xs[..j + 1]) == UntilNone(xs[..j]) + [xs[j].value] && AllSome(xs[..j + 1])
  {
    assert xs[..j + 1] == xs[..j] + [xs[j]];
    UntilNoneAppend(xs[..j], [xs[j]]);
    AllSomeConcat(xs[..j], [xs[j]]);
    assert xs == xs[..j + 1] + xs[j + 1..];
    AllSomeConcat(xs[..j + 1], xs[j + 1..]);
    if xs[j].None? {
      UntilNoneStop(xs[..j + 1], xs[j + 1..]);
    }
  }

  /**
   * One block of a loop over blocks that stops at the first failure: behind a
   * front without failures the block contributes its own output, and a failure
   * in the block ends the output there.
   */
  lemma {:induction false} UntilNoneBlock<T>(done: seq<Option<T>>, here: seq<Option<T>>, rest: seq<Option<T>>)
    requires AllSome(done)
    ensures UntilNone(done + here) == UntilNone(done) + UntilNone(here)
    ensures AllSome(done + here) <==> AllSome(here)
    ensures !AllSome(here) ==> UntilNone(done + here + rest) == UntilNone(done + here)
  {
    UntilNoneAppend(done, here);
    AllSomeConcat(done, here);
    if !AllSome(here) {
      UntilNoneStop(done + here, rest);
    }
  }

  lemma {:induction false} AppendAssoc<T>(a: seq<T>, b: seq<T>, c: seq<T>)
    ensures a + b + c == a + (b + c)
  {
  }

  /** Removing a prefix's elements from a sequence leaves exactly the rest. */
  lemma {:induction false} TakeRest<T>(s: seq<T>, n: nat)
    requires n <= |s|
    ensures multiset(s) - multiset(s[..n]) == multiset(s[n..])
  {
    assert s == s[..n] + s[n..];
  }
}
