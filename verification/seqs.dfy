/** Sequence utilities shared by the timeline model: sums, filters,
    first/last matches and a stable sort by an integer key. */
module Seqs {
  import opened Wrappers

  /** Sum of a sequence, accumulated left to right. */
  function Sum(s: seq<int>): int
  {
    if |s| == 0 then 0 else Sum(s[..|s|-1]) + s[|s|-1]
  }

  /** The elements of `s` that satisfy `p`, in their original order
      (JavaScript's `Array.prototype.filter`). */
  function Filter<T>(s: seq<T>, p: T -> bool): (r: seq<T>)
    ensures |r| <= |s|
    ensures forall k :: 0 <= k < |r| ==> p(r[k])
    ensures multiset(r) <= multiset(s)
  {
    if |s| == 0 then []
    else
      var prev := Filter(s[..|s|-1], p);
      FrontLast(s);
      prev + (if p(s[|s|-1]) then [s[|s|-1]] else [])
  }

  /** A non-empty sequence is its front followed by its last element. */
  lemma FrontLast<T>(s: seq<T>)
    requires |s| > 0
    ensures s == s[..|s| - 1] + [s[|s| - 1]]
  {
  }

  /** One step of the filter: the last element is kept iff it passes. */
  lemma FilterLast<T>(s: seq<T>, p: T -> bool)
    requires |s| > 0
    ensures Filter(s, p) == Filter(s[..|s| - 1], p) + (if p(s[|s| - 1]) then [s[|s| - 1]] else [])
  {
  }

  lemma {:induction false} FilterConcat<T>(a: seq<T>, b: seq<T>, p: T -> bool)
    ensures Filter(a + b, p) == Filter(a, p) + Filter(b, p)
    decreases |b|
  {
    if |b| > 0 {
      var b' := b[..|b|-1];
      assert (a + b)[..|a + b|-1] == a + b';
      FilterConcat(a, b', p);
    } else {
      assert a + b == a;
    }
  }

  /** Every element that passes the filter is kept. */
  lemma {:induction false} FilterKeeps<T>(s: seq<T>, p: T -> bool, k: int)
    requires 0 <= k < |s| && p(s[k])
    ensures s[k] in Filter(s, p)
  {
    if k < |s| - 1 {
      FilterKeeps(s[..|s|-1], p, k);
    }
  }

  /** An element is kept by a filter exactly when it is in the sequence
      and passes. */
  lemma FilterMembers<T>(s: seq<T>, p: T -> bool, x: T)
    ensures x in Filter(s, p) <==> x in s && p(x)
  {
    if x in s && p(x) {
      var k :| 0 <= k < |s| && s[k] == x;
      FilterKeeps(s, p, k);
    }
    if x in Filter(s, p) {
      assert x in multiset(s);
    }
  }

  /** A filter that every element passes keeps the sequence whole. */
  lemma {:induction false} FilterKeepsAll<T>(s: seq<T>, p: T -> bool)
    requires forall k :: 0 <= k < |s| ==> p(s[k])
    ensures Filter(s, p) == s
  {
    if |s| > 0 {
      FilterKeepsAll(s[..|s|-1], p);
      FrontLast(s);
    }
  }

  /** Filtering twice is filtering once by the conjunction. */
  lemma {:induction false} FilterTwice<T>(s: seq<T>, p: T -> bool, q: T -> bool, both: T -> bool)
    requires forall x :: both(x) == (p(x) && q(x))
    ensures Filter(Filter(s, p), q) == Filter(s, both)
  {
    if |s| > 0 {
      var s' := s[..|s|-1];
      var x := s[|s|-1];
      FilterTwice(s', p, q, both);
      FilterConcat(Filter(s', p), if p(x) then [x] else [], q);
    }
  }

  /** Filters by predicates that agree on every element are equal. */
  lemma {:induction false} FilterSame<T>(s: seq<T>, p: T -> bool, q: T -> bool)
    requires forall k :: 0 <= k < |s| ==> p(s[k]) == q(s[k])
    ensures Filter(s, p) == Filter(s, q)
  {
    if |s| > 0 {
      FilterSame(s[..|s|-1], p, q);
    }
  }

  /** The position of the last element satisfying `p`, if any. */
  function LastIndexWhere<T>(s: seq<T>, p: T -> bool): (r: Option<nat>)
    ensures r.None? <==> forall k :: 0 <= k < |s| ==> !p(s[k])
    ensures r.Some? ==> r.value < |s| && p(s[r.value]) && forall j :: r.value < j < |s| ==> !p(s[j])
  {
    if |s| == 0 then None
    else if p(s[|s|-1]) then Some(|s| - 1)
    else
      var r := LastIndexWhere(s[..|s|-1], p);
      assert forall k :: 0 <= k < |s| - 1 ==> s[..|s|-1][k] == s[k];
      r
  }

  /** The last element satisfying `p`, if any. */
  function LastWhere<T>(s: seq<T>, p: T -> bool): (r: Option<T>)
    ensures r.None? <==> forall k :: 0 <= k < |s| ==> !p(s[k])
    ensures r.Some? ==> exists k :: 0 <= k < |s| && s[k] == r.value && p(s[k]) &&
                          forall j :: k < j < |s| ==> !p(s[j])
  {
    match LastIndexWhere(s, p)
    case None => None
    case Some(k) => Some(s[k])
  }

  /** The first element satisfying `p`, if any: the first match of all
      but the last element, failing that the last element if it matches. */
  function FirstWhere<T>(s: seq<T>, p: T -> bool): (r: Option<T>)
    ensures r.None? <==> forall k :: 0 <= k < |s| ==> !p(s[k])
    ensures r.Some? ==> exists k :: 0 <= k < |s| && s[k] == r.value && p(s[k]) &&
                          forall j :: 0 <= j < k ==> !p(s[j])
  {
    if |s| == 0 then None
    else
      var prev := FirstWhere(s[..|s|-1], p);
      assert forall k :: 0 <= k < |s| - 1 ==> s[..|s|-1][k] == s[k];
      if prev.Some? then prev
      else if p(s[|s|-1]) then Some(s[|s|-1])
      else None
  }

  /** True iff `s` is in ascending order of `key`. */
  predicate SortedBy<T>(s: seq<T>, key: T -> int)
  {
    forall i, j :: 0 <= i < j < |s| ==> key(s[i]) <= key(s[j])
  }

  /** Filtering keeps a sorted sequence sorted. */
  lemma {:induction false} FilterSorted<T>(s: seq<T>, p: T -> bool, key: T -> int)
    requires SortedBy(s, key)
    ensures SortedBy(Filter(s, p), key)
  {
    if |s| > 0 {
      var s' := s[..|s|-1];
      var x := s[|s|-1];
      assert SortedBy(s', key);
      FilterSorted(s', p, key);
      var f := Filter(s', p);
      forall k | 0 <= k < |f|
        ensures key(f[k]) <= key(x)
      {
        assert f[k] in multiset(s');
        var j :| 0 <= j < |s'| && s'[j] == f[k];
        assert s[j] == f[k];
      }
    }
  }

  /** The elements of `s` whose key is `k`, in order: a stable sort must
      leave every such run as it found it. */
  function KeyRun<T>(s: seq<T>, key: T -> int, k: int): seq<T>
  {
    if |s| == 0 then []
    else KeyRun(s[..|s|-1], key, k) + (if key(s[|s|-1]) == k then [s[|s|-1]] else [])
  }

  lemma {:induction false} KeyRunConcat<T>(a: seq<T>, b: seq<T>, key: T -> int, k: int)
    ensures KeyRun(a + b, key, k) == KeyRun(a, key, k) + KeyRun(b, key, k)
    decreases |b|
  {
    if |b| > 0 {
      var b' := b[..|b|-1];
      assert (a + b)[..|a + b|-1] == a + b';
      KeyRunConcat(a, b', key, k);
    } else {
      assert a + b == a;
    }
  }

  /** Inserts `x` into the sorted `s` after every element whose key is
      not greater than `x`'s. */
  function InsertBy<T>(s: seq<T>, x: T, key: T -> int): (r: seq<T>)
    requires SortedBy(s, key)
    ensures SortedBy(r, key)
    ensures |r| == |s| + 1
    ensures key(r[|r|-1]) == if |s| == 0 || key(s[|s|-1]) <= key(x) then key(x) else key(s[|s|-1])
  {
    if |s| == 0 || key(s[|s|-1]) <= key(x) then s + [x]
    else
      var r' := InsertBy(s[..|s|-1], x, key);
      r' + [s[|s|-1]]
  }

  /** Insertion adds exactly `x` to the elements. */
  lemma {:induction false} InsertByElements<T>(s: seq<T>, x: T, key: T -> int)
    requires SortedBy(s, key)
    ensures multiset(InsertBy(s, x, key)) == multiset(s) + multiset{x}
  {
    if |s| > 0 && key(s[|s|-1]) > key(x) {
      InsertByElements(s[..|s|-1], x, key);
      FrontLast(s);
    }
  }

  /** Stable insertion sort by `key` (JavaScript's `Array.prototype.sort`
      with a numeric comparator, which is stable). */
  function SortBy<T>(s: seq<T>, key: T -> int): (r: seq<T>)
    ensures SortedBy(r, key)
    ensures multiset(r) == multiset(s)
    ensures |r| == |s|
  {
    if |s| == 0 then []
    else
      FrontLast(s);
      var r := InsertBy(SortBy(s[..|s|-1], key), s[|s|-1], key);
      InsertByElements(SortBy(s[..|s|-1], key), s[|s|-1], key);
      assert |r| == |multiset(r)|;
      r
  }

  lemma {:induction false} InsertByKeyRun<T>(s: seq<T>, x: T, key: T -> int, k: int)
    requires SortedBy(s, key)
    ensures KeyRun(InsertBy(s, x, key), key, k) == KeyRun(s, key, k) + (if key(x) == k then [x] else [])
    decreases |s|
  {
    if |s| == 0 || key(s[|s|-1]) <= key(x) {
      assert InsertBy(s, x, key) == s + [x];
      KeyRunConcat(s, [x], key, k);
      assert [x][..0] == [];
    } else {
      var s' := s[..|s|-1];
      var last := s[|s|-1];
      var r' := InsertBy(s', x, key);
      assert InsertBy(s, x, key) == r' + [last];
      InsertByKeyRun(s', x, key, k);
      assert (r' + [last])[..|r'|] == r';
    }
  }

  /** Stability: for every key, the elements carrying that key appear in
      the sorted result in exactly the order they had in the input. */
  lemma {:induction false} SortByStable<T>(s: seq<T>, key: T -> int, k: int)
    ensures KeyRun(SortBy(s, key), key, k) == KeyRun(s, key, k)
  {
    if |s| > 0 {
      var s' := s[..|s|-1];
      var x := s[|s|-1];
      assert SortBy(s, key) == InsertBy(SortBy(s', key), x, key);
      SortByStable(s', key, k);
      InsertByKeyRun(SortBy(s', key), x, key, k);
    }
  }

  /** Sorting a sequence that is already sorted changes nothing. */
  lemma {:induction false} SortBySorted<T>(s: seq<T>, key: T -> int)
    requires SortedBy(s, key)
    ensures SortBy(s, key) == s
  {
    if |s| > 0 {
      var s', x := s[..|s|-1], s[|s|-1];
      assert SortedBy(s', key);
      SortBySorted(s', key);
      InsertAtEnd(s', x, key);
      assert s == s' + [x];
    }
  }

  /** An element no smaller than the last goes at the end. */
  lemma InsertAtEnd<T>(s: seq<T>, x: T, key: T -> int)
    requires SortedBy(s, key)
    requires |s| == 0 || key(s[|s|-1]) <= key(x)
    ensures InsertBy(s, x, key) == s + [x]
  {
  }
}
