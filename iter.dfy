/** The vocabulary shared by every combinator of the library.

    A Go `iter.Seq[T]` is modelled by the finite `seq<T>` it would produce,
    and an `iter.Seq2[K, V]` by a `seq<(K, V)>`.  The body of a `for ... range`
    loop is a `Consumer`: either it takes every value, or its `yield` returns
    false on the n-th value it receives.  `iter.Pull` is a `Cursor` object. */
module Iter {

  datatype Option<T> = None | Some(value: T)

  /** The result of a Go call that may panic at run time. */
  datatype Outcome<T> = Returns(value: T) | Panics

  type Positive = n: nat | 1 <= n witness 1

  /** The loop body that ranges over a sequence.  `BreakAfter(n)` returns
      false from `yield` when it receives its n-th value. */
  datatype Consumer = Drain | BreakAfter(n: Positive)

  /** What `yield` returns once `delivered` values have been handed over. */
  predicate Continues(c: Consumer, delivered: nat)
  {
    c.Drain? || delivered < c.n
  }

  /** The values a consumer receives from a producer that would emit `s`. */
  function Observe<T>(s: seq<T>, c: Consumer): (r: seq<T>)
    ensures r <= s
  {
    if c.Drain? || |s| <= c.n then s else s[..c.n]
  }

  /** A producer whose consumer just refused a value has emitted exactly what
      the consumer observes of the full output. */
  lemma ObserveStopped<T>(out: seq<T>, rest: seq<T>, c: Consumer)
    requires c.BreakAfter? && |out| == c.n
    ensures Observe(out + rest, c) == out
  {
    assert (out + rest)[..c.n] == out;
  }

  /** Moving the head of `s` to the end of `out` keeps the concatenation. */
  lemma AppendHead<T>(out: seq<T>, s: seq<T>)
    requires s != []
    ensures out + s == (out + [s[0]]) + s[1..]
  {
    assert s == [s[0]] + s[1..];
  }

  /** Replacing the tail after out: nothing yielded for the current value. */
  lemma ThenNothing<T>(out: seq<T>, a: seq<T>, rest: seq<T>, whole: seq<T>)
    requires whole == out + a && a == [] + rest
    ensures whole == out + rest
  {
    assert [] + rest == rest;
  }

  /** Replacing the tail after out: one value x yielded for the current value. */
  lemma ThenOne<T>(out: seq<T>, a: seq<T>, x: T, rest: seq<T>, whole: seq<T>)
    requires whole == out + a && a == [x] + rest
    ensures whole == (out + [x]) + rest
  {
    assert out + ([x] + rest) == (out + [x]) + rest;
  }

  /** cmp.Compare on integers. */
  function Cmp(a: int, b: int): (r: int)
    ensures r < 0 <==> a < b
    ensures r == 0 <==> a == b
    ensures -1 <= r <= 1
  {
    if a < b then -1 else if a > b then 1 else 0
  }

  /** The contract Go asks of an ordering function: the sign flips when the
      arguments are swapped, and "not after" is transitive. */
  ghost predicate IsComparator<T(!new)>(f: (T, T) -> int)
  {
    && (forall a, b :: f(a, b) < 0 <==> f(b, a) > 0)
    && (forall a, b, c :: f(a, b) <= 0 && f(b, c) <= 0 ==> f(a, c) <= 0)
  }

  lemma CmpIsComparator()
    ensures IsComparator(Cmp)
  {
  }

  /** Sorted by an ordering function: no neighbour pair is reversed. */
  ghost predicate Sorted<T>(s: seq<T>, f: (T, T) -> int)
  {
    forall i :: 0 < i < |s| ==> f(s[i - 1], s[i]) <= 0
  }

  /** Under a comparator, sorted neighbours give a sorted whole. */
  lemma {:induction false} SortedAll<T(!new)>(s: seq<T>, f: (T, T) -> int, i: nat, j: nat)
    requires IsComparator(f) && Sorted(s, f)
    requires i <= j < |s|
    ensures f(s[i], s[j]) <= 0
    decreases j - i
  {
    if i == j {
      assert !(f(s[i], s[i]) < 0);
    } else {
      SortedAll(s, f, i + 1, j);
    }
  }

  lemma SortedTail<T>(s: seq<T>, f: (T, T) -> int)
    requires Sorted(s, f) && s != []
    ensures Sorted(s[1..], f)
  {
    forall i | 0 < i < |s| - 1
      ensures f(s[1..][i - 1], s[1..][i]) <= 0
    {
      assert s[1..][i - 1] == s[i] && s[1..][i] == s[i + 1];
    }
  }

  lemma SortedPrefix<T>(s: seq<T>, n: nat, f: (T, T) -> int)
    requires Sorted(s, f) && n <= |s|
    ensures Sorted(s[..n], f)
  {
    forall i | 0 < i < n
      ensures f(s[..n][i - 1], s[..n][i]) <= 0
    {
      assert s[..n][i - 1] == s[i - 1] && s[..n][i] == s[i];
    }
  }

  lemma SortedCons<T>(h: T, s: seq<T>, f: (T, T) -> int)
    requires Sorted(s, f) && (s != [] ==> f(h, s[0]) <= 0)
    ensures Sorted([h] + s, f)
  {
    var r := [h] + s;
    forall i | 0 < i < |r| ensures f(r[i - 1], r[i]) <= 0 {
      if i > 1 {
        assert r[i - 1] == s[i - 2] && r[i] == s[i - 1];
      }
    }
  }

  lemma {:induction false} SortedInts(s: seq<int>, i: nat, j: nat)
    requires Sorted(s, Cmp) && i <= j < |s|
    ensures s[i] <= s[j]
    decreases j - i
  {
    if i < j {
      SortedInts(s, i + 1, j);
    }
  }

  lemma MultisetCancel<T>(a: multiset<T>, x: multiset<T>, y: multiset<T>)
    requires a + x == a + y
    ensures x == y
  {
    assert forall e :: x[e] == (a + x)[e] - a[e];
    assert forall e :: y[e] == (a + y)[e] - a[e];
  }

  lemma SortedSameHead(s: seq<int>, t: seq<int>)
    requires Sorted(s, Cmp) && Sorted(t, Cmp) && multiset(s) == multiset(t)
    requires s != [] && t != []
    ensures s[0] == t[0]
  {
    assert s[0] in multiset(t) && t[0] in multiset(s);
    var i :| 0 <= i < |t| && t[i] == s[0];
    var j :| 0 <= j < |s| && s[j] == t[0];
    SortedInts(t, 0, i);
    SortedInts(s, 0, j);
  }

  lemma SameHeadTails<T>(s: seq<T>, t: seq<T>)
    requires s != [] && t != [] && s[0] == t[0] && multiset(s) == multiset(t)
    ensures multiset(s[1..]) == multiset(t[1..])
  {
    assert s == [s[0]] + s[1..] && t == [t[0]] + t[1..];
    assert multiset(s) == multiset{s[0]} + multiset(s[1..]);
    assert multiset(t) == multiset{s[0]} + multiset(t[1..]);
    MultisetCancel(multiset{s[0]}, multiset(s[1..]), multiset(t[1..]));
  }

  /** Integers sorted by cmp.Compare are fixed by their multiset. */
  lemma {:induction false} SortedUnique(s: seq<int>, t: seq<int>)
    requires Sorted(s, Cmp) && Sorted(t, Cmp) && multiset(s) == multiset(t)
    ensures s == t
    decreases |s|
  {
    if s != [] && t != [] {
      SortedSameHead(s, t);
      SameHeadTails(s, t);
      SortedTail(s, Cmp);
      SortedTail(t, Cmp);
      SortedUnique(s[1..], t[1..]);
      assert s == [s[0]] + s[1..];
    } else {
      assert |multiset(s)| == |s| && |multiset(t)| == |t|;
    }
  }

  /** `a` is a subsequence of `b`: it is obtained by deleting elements of `b`. */
  ghost predicate Subsequence<T>(a: seq<T>, b: seq<T>)
    decreases |b|
  {
    if a == [] then true
    else if b == [] then false
    else if a[0] == b[0] then Subsequence(a[1..], b[1..])
    else Subsequence(a, b[1..])
  }

  lemma {:induction false} SubsequenceOfSelf<T>(b: seq<T>)
    ensures Subsequence(b, b)
    decreases |b|
  {
    if b != [] {
      SubsequenceOfSelf(b[1..]);
    }
  }

  /** Putting an element in front of `b` keeps `a` a subsequence of it. */
  lemma {:induction false} SubsequenceDrop<T>(a: seq<T>, b: seq<T>, x: T)
    requires Subsequence(a, b)
    ensures Subsequence(a, [x] + b)
    decreases |b|, 1
  {
    assert ([x] + b)[1..] == b;
    if a != [] && a[0] == x {
      SubsequenceTail(a, b);
    }
  }

  /** Dropping the first element of a subsequence keeps it a subsequence. */
  lemma {:induction false} SubsequenceTail<T>(a: seq<T>, b: seq<T>)
    requires a != [] && Subsequence(a, b)
    ensures Subsequence(a[1..], b)
    decreases |b|, 0
  {
    assert b == [b[0]] + b[1..];
    if a[0] == b[0] {
      SubsequenceDrop(a[1..], b[1..], b[0]);
    } else {
      SubsequenceTail(a, b[1..]);
      SubsequenceDrop(a[1..], b[1..], b[0]);
    }
  }

  /** A prefix of a subsequence is a subsequence. */
  lemma {:induction false} SubsequencePrefix<T>(a: seq<T>, b: seq<T>, n: nat)
    requires Subsequence(a, b) && n <= |a|
    ensures Subsequence(a[..n], b)
    decreases |b|
  {
    if n > 0 {
      assert a[..n][0] == a[0] && a[..n][1..] == a[1..][..n - 1];
      if a[0] == b[0] {
        SubsequencePrefix(a[1..], b[1..], n - 1);
      } else {
        SubsequencePrefix(a, b[1..], n);
      }
    }
  }

  /** A subsequence is never longer than what it is taken from. */
  lemma {:induction false} SubsequenceLength<T>(a: seq<T>, b: seq<T>)
    requires Subsequence(a, b)
    ensures |a| <= |b|
    decreases |b|
  {
    if a != [] {
      if a[0] == b[0] {
        SubsequenceLength(a[1..], b[1..]);
      } else {
        SubsequenceLength(a, b[1..]);
      }
    }
  }

  /** The pull cursor `iter.Pull` returns: `Next` hands out the input one value
      at a time; after `Stop`, or once the input is used up, it hands out nothing. */
  class Cursor<T> {
    const input: seq<T>
    var pos: nat
    var stopped: bool

    ghost predicate Valid()
      reads this
    {
      pos <= |input|
    }

    /** What later calls of `Next` will hand out. */
    function Remaining(): seq<T>
      reads this
      requires Valid()
    {
      if stopped then [] else input[pos..]
    }

    constructor (s: seq<T>)
      ensures Valid() && input == s && pos == 0 && !stopped
    {
      input := s;
      pos := 0;
      stopped := false;
    }

    method Next() returns (v: Option<T>)
      requires Valid()
      modifies this
      ensures Valid() && stopped == old(stopped)
      ensures old(stopped || pos == |input|) ==> v.None? && pos == old(pos)
      ensures !old(stopped || pos == |input|) ==> v == Some(input[old(pos)]) && pos == old(pos) + 1
    {
      if stopped || pos == |input| {
        v := None;
      } else {
        v := Some(input[pos]);
        pos := pos + 1;
      }
    }

    method Stop()
      requires Valid()
      modifies this
      ensures Valid() && stopped && pos == old(pos)
      ensures Remaining() == []
    {
      stopped := true;
    }
  }

  /** What `next()` of a pull cursor over s returns after it has handed out
      j values: the value at position j, or nothing once s is used up. */
  function PullAt<T>(s: seq<T>, j: nat): (r: Option<T>)
    ensures r.Some? <==> j < |s|
    ensures r.Some? ==> r.value == s[j]
  {
    if j < |s| then Some(s[j]) else None
  }

  /** An ordering on pairs that looks at the keys only, as the `...2`
      variants do. */
  function ByKey<K, V>(f: (K, K) -> int): ((K, V), (K, V)) -> int
  {
    (p: (K, V), q: (K, V)) => f(p.0, q.0)
  }

  /** Comparing pairs by their keys with a comparator is a comparator. */
  lemma ByKeyIsComparator<K(!new), V(!new)>(f: (K, K) -> int)
    requires IsComparator(f)
    ensures IsComparator(ByKey<K, V>(f))
  {
    var g := ByKey<K, V>(f);
    forall p: (K, V), q: (K, V)
      ensures g(p, q) < 0 <==> g(q, p) > 0
    {
      assert g(p, q) == f(p.0, q.0) && g(q, p) == f(q.0, p.0);
    }
    forall p: (K, V), q: (K, V), r: (K, V) | g(p, q) <= 0 && g(q, r) <= 0
      ensures g(p, r) <= 0
    {
      assert f(p.0, q.0) <= 0 && f(q.0, r.0) <= 0;
    }
  }

  /** The concatenation of a sequence of sequences, in order. */
  function Flatten<T>(ss: seq<seq<T>>): (r: seq<T>)
    ensures |ss| == 1 ==> r == ss[0]
  {
    if ss == [] then [] else ss[0] + Flatten(ss[1..])
  }

  lemma {:induction false} FlattenAppend<T>(a: seq<seq<T>>, b: seq<seq<T>>)
    ensures Flatten(a + b) == Flatten(a) + Flatten(b)
    decreases |a|
  {
    if a == [] {
      assert a + b == b;
    } else {
      assert (a + b)[1..] == a[1..] + b;
      FlattenAppend(a[1..], b);
    }
  }

  /** Every value of a flattened sequence sits in one of the parts. */
  lemma {:induction false} FlattenMember<T>(ss: seq<seq<T>>, e: T)
    requires e in Flatten(ss)
    ensures exists k, i :: 0 <= k < |ss| && 0 <= i < |ss[k]| && ss[k][i] == e
    decreases |ss|
  {
    if e in ss[0] {
      var i :| 0 <= i < |ss[0]| && ss[0][i] == e;
    } else {
      FlattenMember(ss[1..], e);
      var k, i :| 0 <= k < |ss[1..]| && 0 <= i < |ss[1..][k]| && ss[1..][k][i] == e;
      assert ss[k + 1][i] == e;
    }
  }
}
