/** filter.go: keeping the values a predicate accepts. */
module Filter {
  import opened Iter
  import opened Seqs

  /** Filter: the values of s for which f holds, in the order of s. */
  function Filter<T>(s: seq<T>, f: T -> bool): (r: seq<T>)
    ensures |r| <= |s|
    ensures forall k :: 0 <= k < |r| ==> f(r[k])
  {
    if s == [] then []
    else if f(s[0]) then [s[0]] + Filter(s[1..], f)
    else Filter(s[1..], f)
  }

  /** The output is a subsequence of the input: nothing is reordered and
      nothing is invented. */
  lemma {:induction false} FilterSubsequence<T>(s: seq<T>, f: T -> bool)
    ensures Subsequence(Filter(s, f), s)
  {
    if s != [] {
      FilterSubsequence(s[1..], f);
      if f(s[0]) {
        assert Filter(s, f)[1..] == Filter(s[1..], f);
      } else {
        SubsequenceDrop(Filter(s[1..], f), s[1..], s[0]);
        assert [s[0]] + s[1..] == s;
      }
    }
  }

  /** Every accepted value is kept as often as it occurs, and every
      rejected value is dropped. */
  lemma {:induction false} FilterCounts<T>(s: seq<T>, f: T -> bool, x: T)
    ensures multiset(Filter(s, f))[x] == if f(x) then multiset(s)[x] else 0
  {
    if s != [] {
      FilterCounts(s[1..], f, x);
      assert s == [s[0]] + s[1..];
    }
  }

  /** Filtering is done value by value, so it distributes over `+`. */
  lemma {:induction false} FilterAppend<T>(a: seq<T>, b: seq<T>, f: T -> bool)
    ensures Filter(a + b, f) == Filter(a, f) + Filter(b, f)
  {
    if a != [] {
      FilterAppend(a[1..], b, f);
      assert (a + b)[1..] == a[1..] + b;
    } else {
      assert a + b == b;
    }
  }

  /** The output is the whole input exactly when f accepts every value,
      and empty exactly when f accepts none. */
  lemma {:induction false} FilterAllOrNothing<T>(s: seq<T>, f: T -> bool)
    ensures Filter(s, f) == s <==> forall k :: 0 <= k < |s| ==> f(s[k])
    ensures Filter(s, f) == [] <==> forall k :: 0 <= k < |s| ==> !f(s[k])
  {
    if s != [] {
      FilterAllOrNothing(s[1..], f);
      assert forall k :: 1 <= k < |s| ==> s[1..][k - 1] == s[k];
      if !f(s[0]) {
        assert |Filter(s, f)| <= |s[1..]| < |s|;
      }
    }
  }

  /** Filter2: f sees both values of each pair. */
  function Filter2<T, U>(s: seq<(T, U)>, f: (T, U) -> bool): (r: seq<(T, U)>)
    ensures forall k :: 0 <= k < |r| ==> f(r[k].0, r[k].1)
  {
    Filter(s, (p: (T, U)) => f(p.0, p.1))
  }

  /** Filter2 read from position k: the pair there, if accepted, then the
      rest. */
  lemma Filter2From<T, U>(s: seq<(T, U)>, k: nat, f: (T, U) -> bool)
    requires k < |s|
    ensures Filter2(s[k..], f) == (if f(s[k].0, s[k].1) then [s[k]] else []) + Filter2(s[k + 1..], f)
  {
    assert s[k..][1..] == s[k + 1..];
  }

  /** The package's Filter2 test: the enumerated values whose product with
      their position is even. */
  method Filter2Example() returns (got: seq<(int, int)>)
    ensures got == [(0, 1), (2, 2), (3, 4), (4, 5), (6, 6), (7, 8)]
  {
    var enum := Enumerate([1, 3, 2, 4, 5, 7, 6, 8], Drain);
    assert enum == [(0, 1), (1, 3), (2, 2), (3, 4), (4, 5), (5, 7), (6, 6), (7, 8)];
    got := Filter2(enum, (idx: int, n: int) => (idx * n) % 2 == 0);
    EvenProductsOfTest(enum);
  }

  /** The test's filter over its enumerated values, one position at a time. */
  lemma EvenProductsOfTest(s: seq<(int, int)>)
    requires s == [(0, 1), (1, 3), (2, 2), (3, 4), (4, 5), (5, 7), (6, 6), (7, 8)]
    ensures Filter2(s, (idx: int, n: int) => (idx * n) % 2 == 0) == [(0, 1), (2, 2), (3, 4), (4, 5), (6, 6), (7, 8)]
  {
    var even := (idx: int, n: int) => (idx * n) % 2 == 0;
    EvenProductsFrom4(s);
    Filter2From(s, 3, even);
    Filter2From(s, 2, even);
    Filter2From(s, 1, even);
    Filter2From(s, 0, even);
    assert s[0..] == s;
  }

  lemma EvenProductsFrom4(s: seq<(int, int)>)
    requires s == [(0, 1), (1, 3), (2, 2), (3, 4), (4, 5), (5, 7), (6, 6), (7, 8)]
    ensures Filter2(s[4..], (idx: int, n: int) => (idx * n) % 2 == 0) == [(4, 5), (6, 6), (7, 8)]
  {
    var even := (idx: int, n: int) => (idx * n) % 2 == 0;
    assert s[8..] == [];
    Filter2From(s, 7, even);
    Filter2From(s, 6, even);
    Filter2From(s, 5, even);
    Filter2From(s, 4, even);
  }
}
