/**
 * Python's `collections.Counter` as the log analyzer uses it: a dictionary
 * from key to count that remembers the order in which keys were first
 * inserted, `c[k] += 1`, `Counter(iterable)`, `most_common(n)`, and the
 * dictionary comprehension that keeps the entries above a threshold.
 */
module Counters {

  /** `c.items()`: (key, count) pairs in first-insertion order. */
  type Items<K> = seq<(K, nat)>

  function Keys<K>(items: Items<K>): (r: seq<K>)
    ensures |r| == |items| && forall i :: 0 <= i < |items| ==> r[i] == items[i].0
  {
    if items == [] then [] else [items[0].0] + Keys(items[1..])
  }

  /** A dictionary holds each key once. */
  predicate DistinctKeys<K(==)>(items: Items<K>) {
    forall i, j :: 0 <= i < j < |items| ==> items[i].0 != items[j].0
  }

  /** Every count was reached by incrementing, so none is zero. */
  predicate Positive<K>(items: Items<K>) {
    forall i :: 0 <= i < |items| ==> items[i].1 >= 1
  }

  /** `c[k]`: the count of k, 0 for a missing key. */
  function Count<K(==)>(items: Items<K>, k: K): nat {
    if items == [] then 0 else if items[0].0 == k then items[0].1 else Count(items[1..], k)
  }

  /** `c[k] += 1`: an existing key keeps its place, a new key goes last; the counts grow by one in all. */
  function Bump<K(==)>(items: Items<K>, k: K): (r: Items<K>)
    ensures Total(r) == Total(items) + 1
  {
    if items == [] then [(k, 1)]
    else if items[0].0 == k then [(k, items[0].1 + 1)] + items[1..]
    else [items[0]] + Bump(items[1..], k)
  }

  /** `sum(c.values())`. */
  function Total<K>(items: Items<K>): nat {
    if items == [] then 0 else items[0].1 + Total(items[1..])
  }

  /** `Counter(xs)`: every element counted, in order; `sum(Counter(xs).values()) == len(xs)`. */
  function CounterOf<K(==)>(xs: seq<K>): (r: Items<K>)
    ensures Total(r) == |xs|
  {
    if xs == [] then [] else Bump(CounterOf(xs[..|xs| - 1]), xs[|xs| - 1])
  }

  /** The position of the first occurrence of k in xs. */
  function FirstIndex<K(==)>(xs: seq<K>, k: K): (r: nat)
    requires k in xs
    ensures r < |xs| && xs[r] == k && forall j :: 0 <= j < r ==> xs[j] != k
  {
    if xs[0] == k then 0 else 1 + FirstIndex(xs[1..], k)
  }

  // ------------------------------------------------------------ c[k] += 1

  lemma {:induction false} BumpCount<K>(items: Items<K>, k: K, j: K)
    ensures Count(Bump(items, k), j) == Count(items, j) + (if j == k then 1 else 0)
  {
    if items != [] && items[0].0 != k {
      BumpCount(items[1..], k, j);
    }
  }

  lemma BumpCounts<K>(items: Items<K>, k: K)
    ensures forall j :: Count(Bump(items, k), j) == Count(items, j) + (if j == k then 1 else 0)
  {
    forall j ensures Count(Bump(items, k), j) == Count(items, j) + (if j == k then 1 else 0) {
      BumpCount(items, k, j);
    }
  }

  lemma {:induction false} BumpKeys<K>(items: Items<K>, k: K)
    ensures Keys(Bump(items, k)) == if k in Keys(items) then Keys(items) else Keys(items) + [k]
  {
    if items != [] && items[0].0 != k {
      BumpKeys(items[1..], k);
      assert Keys(items) == [items[0].0] + Keys(items[1..]);
      assert Keys(Bump(items, k)) == [items[0].0] + Keys(Bump(items[1..], k));
    }
  }

  lemma {:induction false} BumpPositive<K>(items: Items<K>, k: K)
    requires Positive(items)
    ensures Positive(Bump(items, k))
  {
    if items != [] && items[0].0 != k {
      BumpPositive(items[1..], k);
    }
  }

  /** Incrementing keeps a Counter a dictionary of positive counts. */
  lemma BumpValid<K>(items: Items<K>, k: K)
    requires DistinctKeys(items) && Positive(items)
    ensures DistinctKeys(Bump(items, k)) && Positive(Bump(items, k))
  {
    BumpKeys(items, k);
    BumpPositive(items, k);
    var b := Bump(items, k);
    forall i, j | 0 <= i < j < |b| ensures b[i].0 != b[j].0 {
      assert b[i].0 == Keys(b)[i] == Keys(items)[i] == items[i].0;
      if j < |items| {
        assert b[j].0 == Keys(b)[j] == Keys(items)[j] == items[j].0;
      } else {
        assert b[j].0 == k && k !in Keys(items);
      }
    }
  }

  /** In a dictionary, the count looked up for an entry's key is that entry's count. */
  lemma {:induction false} CountAtEntry<K>(items: Items<K>, i: nat)
    requires DistinctKeys(items) && i < |items|
    ensures Count(items, items[i].0) == items[i].1
  {
    if i > 0 {
      CountAtEntry(items[1..], i - 1);
    }
  }

  lemma {:induction false} CountOfMissing<K>(items: Items<K>, k: K)
    requires k !in Keys(items)
    ensures Count(items, k) == 0
  {
    if items != [] {
      assert Keys(items)[0] == items[0].0;
      assert Keys(items[1..]) == Keys(items)[1..];
      CountOfMissing(items[1..], k);
    }
  }

  // ----------------------------------------------------------- Counter(xs)

  lemma LastSplit<K>(xs: seq<K>)
    requires xs != []
    ensures xs == xs[..|xs| - 1] + [xs[|xs| - 1]]
    ensures multiset(xs) == multiset(xs[..|xs| - 1]) + multiset{xs[|xs| - 1]}
  {
  }

  /** Counting one more element is one more `c[x] += 1`. */
  lemma CounterOfSnoc<K>(xs: seq<K>, x: K)
    ensures CounterOf(xs + [x]) == Bump(CounterOf(xs), x)
  {
    assert (xs + [x])[..|xs|] == xs;
  }

  /** `Counter(xs)[k]` is the number of occurrences of k in xs. */
  lemma {:induction false} CounterOfCount<K>(xs: seq<K>, k: K)
    ensures Count(CounterOf(xs), k) == multiset(xs)[k]
  {
    if xs != [] {
      LastSplit(xs);
      CounterOfCount(xs[..|xs| - 1], k);
      BumpCount(CounterOf(xs[..|xs| - 1]), xs[|xs| - 1], k);
    }
  }

  /** A bound on every entry of `Counter(xs)` bounds the number of occurrences of every value. */
  lemma CounterOfBound<K>(xs: seq<K>, b: nat)
    requires forall i :: 0 <= i < |CounterOf(xs)| ==> CounterOf(xs)[i].1 <= b
    ensures forall p :: multiset(xs)[p] <= b
  {
    CounterOfKeys(xs);
    forall p ensures multiset(xs)[p] <= b {
      CounterOfCount(xs, p);
      if p in Keys(CounterOf(xs)) {
        var i :| 0 <= i < |CounterOf(xs)| && Keys(CounterOf(xs))[i] == p;
        CountAtEntry(CounterOf(xs), i);
      } else {
        CountOfMissing(CounterOf(xs), p);
      }
    }
  }

  /** `Counter(xs)` is a dictionary of positive counts whose keys are the elements of xs. */
  lemma {:induction false} CounterOfKeys<K>(xs: seq<K>)
    ensures DistinctKeys(CounterOf(xs)) && Positive(CounterOf(xs))
    ensures forall k :: k in Keys(CounterOf(xs)) <==> k in xs
  {
    if xs != [] {
      var init, x := xs[..|xs| - 1], xs[|xs| - 1];
      LastSplit(xs);
      CounterOfKeys(init);
      BumpValid(CounterOf(init), x);
      BumpKeys(CounterOf(init), x);
    }
  }

  lemma FirstIndexAppend<K>(xs: seq<K>, x: K, k: K)
    requires k in xs
    ensures FirstIndex(xs + [x], k) == FirstIndex(xs, k)
  {
    var r := FirstIndex(xs, k);
    assert (xs + [x])[r] == k;
  }

  /** The keys of `Counter(xs)` are in the order of their first occurrence in xs. */
  lemma {:induction false} CounterOfOrder<K>(xs: seq<K>)
    ensures forall k :: k in Keys(CounterOf(xs)) ==> k in xs
    ensures forall i, j :: 0 <= i < j < |CounterOf(xs)| ==>
      FirstIndex(xs, CounterOf(xs)[i].0) < FirstIndex(xs, CounterOf(xs)[j].0)
  {
    CounterOfKeys(xs);
    if xs != [] {
      var init, x := xs[..|xs| - 1], xs[|xs| - 1];
      LastSplit(xs);
      CounterOfOrder(init);
      CounterOfKeys(init);
      BumpOrder(init, x, CounterOf(init));
    }
  }

  /** Incrementing with the next element keeps the keys in first-occurrence order. */
  lemma BumpOrder<K>(init: seq<K>, x: K, before: Items<K>)
    requires forall k :: k in Keys(before) <==> k in init
    requires forall i, j :: 0 <= i < j < |before| ==>
      FirstIndex(init, before[i].0) < FirstIndex(init, before[j].0)
    ensures forall k :: k in Keys(Bump(before, x)) ==> k in init + [x]
    ensures forall i, j :: 0 <= i < j < |Bump(before, x)| ==>
      FirstIndex(init + [x], Bump(before, x)[i].0) < FirstIndex(init + [x], Bump(before, x)[j].0)
  {
    var after := Bump(before, x);
    BumpKeys(before, x);
    forall k | k in Keys(after) ensures k in init + [x] {
      if k != x {
        assert k in Keys(before) && k in init;
      } else {
        assert (init + [x])[|init|] == x;
      }
    }
    forall i, j | 0 <= i < j < |after|
      ensures FirstIndex(init + [x], after[i].0) < FirstIndex(init + [x], after[j].0)
    {
      BumpOrderAt(init, x, before, i, j);
    }
  }

  lemma BumpOrderAt<K>(init: seq<K>, x: K, before: Items<K>, i: nat, j: nat)
    requires forall k :: k in Keys(before) <==> k in init
    requires forall i, j :: 0 <= i < j < |before| ==>
      FirstIndex(init, before[i].0) < FirstIndex(init, before[j].0)
    requires i < j < |Bump(before, x)|
    ensures Bump(before, x)[i].0 in init + [x] && Bump(before, x)[j].0 in init + [x]
    ensures FirstIndex(init + [x], Bump(before, x)[i].0) < FirstIndex(init + [x], Bump(before, x)[j].0)
  {
    var xs, after := init + [x], Bump(before, x);
    BumpKeys(before, x);
    var ki := before[i].0;
    assert after[i].0 == Keys(after)[i] == Keys(before)[i] == ki;
    assert ki in Keys(before);
    FirstIndexAppend(init, x, ki);
    if j < |before| {
      var kj := before[j].0;
      assert after[j].0 == Keys(after)[j] == Keys(before)[j] == kj;
      assert kj in Keys(before);
      FirstIndexAppend(init, x, kj);
    } else {
      assert after[j].0 == Keys(after)[j] == x;
      assert x !in init;
      assert xs[|init|] == x;
    }
  }

  /**
   * `Counter(xs)`, entry by entry: distinct keys in first-occurrence order,
   * each with its number of occurrences, summing to |xs|.
   */
  lemma CounterOfMeaning<K>(xs: seq<K>)
    ensures DistinctKeys(CounterOf(xs))
    ensures forall k :: k in Keys(CounterOf(xs)) <==> k in xs
    ensures forall i :: 0 <= i < |CounterOf(xs)| ==>
      CounterOf(xs)[i].1 == multiset(xs)[CounterOf(xs)[i].0] >= 1
    ensures forall i, j :: 0 <= i < j < |CounterOf(xs)| ==>
      FirstIndex(xs, CounterOf(xs)[i].0) < FirstIndex(xs, CounterOf(xs)[j].0)
    ensures Total(CounterOf(xs)) == |xs|
  {
    CounterOfKeys(xs);
    CounterOfOrder(xs);
    forall i | 0 <= i < |CounterOf(xs)| ensures CounterOf(xs)[i].1 == multiset(xs)[CounterOf(xs)[i].0] {
      CountAtEntry(CounterOf(xs), i);
      CounterOfCount(xs, CounterOf(xs)[i].0);
    }
  }

  // -------------------------------------------------------- most_common(n)

  predicate SortedByCount<K>(items: Items<K>) {
    forall i, j :: 0 <= i < j < |items| ==> items[i].1 >= items[j].1
  }

  /** The entries with count c, in order. */
  function WithCount<K>(items: Items<K>, c: nat): Items<K> {
    if items == [] then []
    else (if items[0].1 == c then [items[0]] else []) + WithCount(items[1..], c)
  }

  /** Places e before the first entry whose count is not larger than e's. */
  function InsertByCount<K>(e: (K, nat), sorted: Items<K>): Items<K> {
    if sorted == [] || sorted[0].1 <= e.1 then [e] + sorted
    else [sorted[0]] + InsertByCount(e, sorted[1..])
  }

  /** `sorted(items, key=count, reverse=True)`: descending by count, stable. */
  function SortByCount<K>(items: Items<K>): Items<K> {
    if items == [] then [] else InsertByCount(items[0], SortByCount(items[1..]))
  }

  /**
   * `c.most_common(n)`: heapq.nlargest, which is the stable descending sort cut
   * to n entries, and is empty for n <= 0.
   */
  function MostCommon<K>(items: Items<K>, n: int): (r: Items<K>)
    ensures |r| == if n <= 0 then 0 else if n < |items| then n else |items|
    ensures SortedByCount(r)
    ensures multiset(r) <= multiset(items)
  {
    SortByCountFacts(items);
    var sorted := SortByCount(items);
    var m := if n <= 0 then 0 else if n < |sorted| then n else |sorted|;
    MostCommonLeftOut(sorted, m);
    sorted[..m]
  }

  lemma {:induction false} InsertByCountPermutes<K>(e: (K, nat), s: Items<K>)
    ensures multiset(InsertByCount(e, s)) == multiset(s) + multiset{e}
    ensures |InsertByCount(e, s)| == |s| + 1
  {
    if s != [] && s[0].1 > e.1 {
      InsertByCountPermutes(e, s[1..]);
      assert s == [s[0]] + s[1..];
    }
  }

  lemma {:induction false} InsertByCountBounded<K>(e: (K, nat), s: Items<K>, b: nat)
    requires e.1 <= b && forall i :: 0 <= i < |s| ==> s[i].1 <= b
    ensures forall i :: 0 <= i < |InsertByCount(e, s)| ==> InsertByCount(e, s)[i].1 <= b
  {
    if s != [] && s[0].1 > e.1 {
      InsertByCountBounded(e, s[1..], b);
      var rest := InsertByCount(e, s[1..]);
      assert forall i :: 1 <= i < |[s[0]] + rest| ==> ([s[0]] + rest)[i] == rest[i - 1];
    } else {
      assert forall i :: 1 <= i < |[e] + s| ==> ([e] + s)[i] == s[i - 1];
    }
  }

  lemma {:induction false} InsertByCountSorted<K>(e: (K, nat), s: Items<K>)
    requires SortedByCount(s)
    ensures SortedByCount(InsertByCount(e, s))
  {
    if s != [] && s[0].1 > e.1 {
      InsertByCountSorted(e, s[1..]);
      InsertByCountBounded(e, s[1..], s[0].1);
      var rest := InsertByCount(e, s[1..]);
      var r := [s[0]] + rest;
      forall i, j | 0 <= i < j < |r| ensures r[i].1 >= r[j].1 {
        assert r[j] == rest[j - 1];
        if i > 0 {
          assert r[i] == rest[i - 1];
        }
      }
    }
  }

  lemma {:induction false} InsertByCountStable<K>(e: (K, nat), s: Items<K>, c: nat)
    ensures WithCount(InsertByCount(e, s), c) == (if e.1 == c then [e] else []) + WithCount(s, c)
  {
    if s != [] && s[0].1 > e.1 {
      var rest := InsertByCount(e, s[1..]);
      InsertByCountStable(e, s[1..], c);
      assert InsertByCount(e, s) == [s[0]] + rest;
      assert ([s[0]] + rest)[1..] == rest;
    } else {
      assert ([e] + s)[1..] == s;
    }
  }

  /** The stable descending sort: a permutation, ordered by count, equal-count entries in input order. */
  lemma {:induction false} SortByCountFacts<K>(items: Items<K>)
    ensures SortedByCount(SortByCount(items))
    ensures multiset(SortByCount(items)) == multiset(items)
    ensures |SortByCount(items)| == |items|
    ensures forall c: nat :: WithCount(SortByCount(items), c) == WithCount(items, c)
  {
    if items != [] {
      SortByCountFacts(items[1..]);
      InsertByCountPermutes(items[0], SortByCount(items[1..]));
      InsertByCountSorted(items[0], SortByCount(items[1..]));
      assert items == [items[0]] + items[1..];
      forall c: nat ensures WithCount(SortByCount(items), c) == WithCount(items, c) {
        InsertByCountStable(items[0], SortByCount(items[1..]), c);
      }
    }
  }

  lemma {:induction false} WithCountAppend<K>(a: Items<K>, b: Items<K>, c: nat)
    ensures WithCount(a + b, c) == WithCount(a, c) + WithCount(b, c)
  {
    if a != [] {
      assert (a + b)[0] == a[0];
      assert (a + b)[1..] == a[1..] + b;
      WithCountAppend(a[1..], b, c);
    } else {
      assert a + b == b;
    }
  }

  /**
   * `most_common(n)` has min(n, number of keys) entries (none for n <= 0),
   * in descending count order; no entry left out has a larger count than one
   * kept; and for each count, the entries kept are the first ones of that
   * count in insertion order, in that order.
   */
  lemma MostCommonMeaning<K>(items: Items<K>, n: int)
    ensures |MostCommon(items, n)| == if n <= 0 then 0 else if n < |items| then n else |items|
    ensures SortedByCount(MostCommon(items, n))
    ensures multiset(MostCommon(items, n)) <= multiset(items)
    ensures forall e :: e in multiset(items) - multiset(MostCommon(items, n)) ==>
      forall i :: 0 <= i < |MostCommon(items, n)| ==> MostCommon(items, n)[i].1 >= e.1
    ensures forall c: nat :: WithCount(MostCommon(items, n), c) <= WithCount(items, c)
  {
    SortByCountFacts(items);
    var sorted := SortByCount(items);
    var m := |MostCommon(items, n)|;
    assert MostCommon(items, n) == sorted[..m];
    MostCommonLeftOut(sorted, m);
    MostCommonStable(items, sorted, m);
  }

  lemma MostCommonStable<K>(items: Items<K>, sorted: Items<K>, m: nat)
    requires m <= |sorted|
    requires forall c: nat :: WithCount(sorted, c) == WithCount(items, c)
    ensures forall c: nat :: WithCount(sorted[..m], c) <= WithCount(items, c)
  {
    forall c: nat ensures WithCount(sorted[..m], c) <= WithCount(items, c) {
      assert sorted == sorted[..m] + sorted[m..];
      WithCountAppend(sorted[..m], sorted[m..], c);
    }
  }

  lemma MostCommonLeftOut<K>(sorted: Items<K>, m: nat)
    requires SortedByCount(sorted) && m <= |sorted|
    ensures SortedByCount(sorted[..m])
    ensures multiset(sorted[..m]) <= multiset(sorted)
    ensures multiset(sorted) == multiset(sorted[..m]) + multiset(sorted[m..])
    ensures forall e :: e in multiset(sorted) - multiset(sorted[..m]) ==>
      forall i :: 0 <= i < m ==> sorted[i].1 >= e.1
  {
    assert sorted == sorted[..m] + sorted[m..];
    forall e | e in multiset(sorted) - multiset(sorted[..m])
      ensures forall i :: 0 <= i < m ==> sorted[i].1 >= e.1
    {
      assert e in multiset(sorted[m..]);
      var j :| 0 <= j < |sorted[m..]| && sorted[m..][j] == e;
      assert sorted[m + j] == e;
    }
  }

  /** The head of the stable descending sort is the first entry of maximal count. */
  lemma {:induction false} SortByCountHead<K>(items: Items<K>) returns (k: nat)
    requires items != []
    ensures k < |items| && SortByCount(items)[0] == items[k]
    ensures forall j :: 0 <= j < |items| ==> items[j].1 <= items[k].1
    ensures forall j :: 0 <= j < k ==> items[j].1 < items[k].1
  {
    var rest := items[1..];
    if rest == [] {
      k := 0;
    } else {
      var k' := SortByCountHead(rest);
      SortByCountFacts(rest);
      var h := SortByCount(rest)[0];
      if h.1 <= items[0].1 {
        k := 0;
        forall j | 1 <= j < |items| ensures items[j].1 <= items[0].1 {
          assert items[j] == rest[j - 1];
        }
      } else {
        k := k' + 1;
        forall j | 1 <= j < |items| ensures items[j].1 <= items[k].1 {
          assert items[j] == rest[j - 1];
        }
      }
    }
  }

  /**
   * `most_common(1)[0]` on a non-empty Counter: the first key in insertion
   * order whose count is maximal.
   */
  lemma MostCommonOne<K>(items: Items<K>)
    requires items != []
    ensures |MostCommon(items, 1)| == 1
    ensures exists k ::
      (&& 0 <= k < |items| && MostCommon(items, 1)[0] == items[k]
       && (forall j :: 0 <= j < |items| ==> items[j].1 <= items[k].1)
       && (forall j :: 0 <= j < k ==> items[j].1 < items[k].1))
  {
    SortByCountFacts(items);
    var k := SortByCountHead(items);
  }

  // ------------------------------------------ {k: c for k, c in items if c > t}

  /** r keeps some of the elements of s, in their order. */
  predicate IsSubsequence<T(==)>(r: seq<T>, s: seq<T>)
    decreases |s|
  {
    if r == [] then true
    else if s == [] then false
    else if r[0] == s[0] then IsSubsequence(r[1..], s[1..])
    else IsSubsequence(r, s[1..])
  }

  /** The entries whose count is strictly greater than the threshold, in order. */
  function Above<K>(items: Items<K>, threshold: int): (r: Items<K>)
    ensures forall i :: 0 <= i < |r| ==> r[i] in items && r[i].1 > threshold
    ensures forall i :: 0 <= i < |items| && items[i].1 > threshold ==> items[i] in r
  {
    if items == [] then []
    else (if items[0].1 > threshold then [items[0]] else []) + Above(items[1..], threshold)
  }

  lemma {:induction false} AboveKeepsOrder<K>(items: Items<K>, threshold: int)
    ensures IsSubsequence(Above(items, threshold), items)
  {
    if items != [] {
      AboveKeepsOrder(items[1..], threshold);
      var r := Above(items, threshold);
      if items[0].1 > threshold {
        assert r[0] == items[0] && r[1..] == Above(items[1..], threshold);
      } else if r != [] {
        assert r == Above(items[1..], threshold);
        SubsequenceSkip(r, items);
      }
    }
  }

  lemma SubsequenceSkip<T>(r: seq<T>, s: seq<T>)
    requires r != [] && s != [] && IsSubsequence(r, s[1..]) && r[0] != s[0]
    ensures IsSubsequence(r, s)
  {
  }

  /** The comprehension keeps only keys of the dictionary it filters. */
  lemma {:induction false} AboveKeys<K>(items: Items<K>, threshold: int)
    ensures forall k :: k in Keys(Above(items, threshold)) ==> k in Keys(items)
  {
    if items != [] {
      AboveKeys(items[1..], threshold);
      assert Keys(items) == [items[0].0] + Keys(items[1..]);
      var tail := (if items[0].1 > threshold then [items[0]] else []);
      assert Above(items, threshold) == tail + Above(items[1..], threshold);
      KeysAppend(tail, Above(items[1..], threshold));
    }
  }

  lemma {:induction false} KeysAppend<K>(a: Items<K>, b: Items<K>)
    ensures Keys(a + b) == Keys(a) + Keys(b)
  {
    if a != [] {
      assert (a + b)[1..] == a[1..] + b;
      KeysAppend(a[1..], b);
    } else {
      assert a + b == b;
    }
  }

  lemma {:induction false} AboveCount<K>(items: Items<K>, threshold: int, k: K)
    requires DistinctKeys(items)
    ensures Count(Above(items, threshold), k) ==
      if Count(items, k) > threshold then Count(items, k) else 0
  {
    if items != [] {
      var x, rest := items[0], items[1..];
      var r := Above(rest, threshold);
      AboveCount(rest, threshold, k);
      if x.0 == k {
        assert k !in Keys(rest) by {
          forall t | 0 <= t < |rest| ensures Keys(rest)[t] != k {
            assert rest[t] == items[t + 1];
          }
        }
        CountOfMissing(rest, k);
        assert Count(items, k) == x.1;
        if x.1 > threshold {
          assert Above(items, threshold) == [x] + r;
        } else {
          assert Above(items, threshold) == r;
        }
      } else {
        assert Count(items, k) == Count(rest, k);
        if x.1 > threshold {
          assert Above(items, threshold) == [x] + r;
          assert ([x] + r)[1..] == r;
        } else {
          assert Above(items, threshold) == r;
        }
      }
    }
  }

  /**
   * The threshold filter keeps exactly the entries whose count exceeds the
   * threshold (a count equal to it is dropped), in insertion order, with
   * their counts; it is again a dictionary.
   */
  lemma AboveMeaning<K>(items: Items<K>, threshold: int)
    requires DistinctKeys(items)
    ensures IsSubsequence(Above(items, threshold), items)
    ensures DistinctKeys(Above(items, threshold))
    ensures forall k ::
      (Count(Above(items, threshold), k) == if Count(items, k) > threshold then Count(items, k) else 0)
  {
    AboveKeepsOrder(items, threshold);
    AboveDistinct(items, threshold);
    forall k ensures Count(Above(items, threshold), k) ==
      if Count(items, k) > threshold then Count(items, k) else 0
    {
      AboveCount(items, threshold, k);
    }
  }

  lemma {:induction false} AboveDistinct<K>(items: Items<K>, threshold: int)
    requires DistinctKeys(items)
    ensures DistinctKeys(Above(items, threshold))
  {
    if items != [] {
      AboveDistinct(items[1..], threshold);
      var r := Above(items[1..], threshold);
      if items[0].1 > threshold {
        forall j | 0 <= j < |r| ensures r[j].0 != items[0].0 {
          assert r[j] in items[1..];
        }
      }
    }
  }

  // ------------------------------------------------------- in-place Counter

  /** A Counter that the analysis loop increments in place. */
  class Counter<K(==)> {
    var items: Items<K>

    ghost predicate Valid()
      reads this
    {
      DistinctKeys(items) && Positive(items)
    }

    /** `Counter()`. */
    constructor ()
      ensures Valid() && items == []
    {
      items := [];
    }

    /** `c[key] += 1`. */
    method Increment(key: K)
      requires Valid()
      modifies this
      ensures Valid()
      ensures items == Bump(old(items), key)
    {
      BumpValid(items, key);
      items := Bump(items, key);
    }
  }
}
