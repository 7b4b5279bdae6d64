/** Ordered merging of two sequences (MergeFunc) and of any number of
    sequences (MergeAllFunc). */
module Merge {
  import opened Iter

  /** The output of MergeFunc: a y value goes ahead of the current x value
      only when f says the pair is strictly reversed, so ties go to x. */
  function Merged<T>(x: seq<T>, y: seq<T>, f: (T, T) -> int): (r: seq<T>)
    ensures |r| == |x| + |y|
    decreases |x| + |y|
  {
    if x == [] then y
    else if y == [] then x
    else if f(x[0], y[0]) > 0 then [y[0]] + Merged(x, y[1..], f)
    else [x[0]] + Merged(x[1..], y, f)
  }

  /** For each output position, whether that value was taken from x. */
  function MergeSides<T>(x: seq<T>, y: seq<T>, f: (T, T) -> int): (r: seq<bool>)
    ensures |r| == |x| + |y|
    decreases |x| + |y|
  {
    if x == [] then seq(|y|, _ => false)
    else if y == [] then seq(|x|, _ => true)
    else if f(x[0], y[0]) > 0 then [false] + MergeSides(x, y[1..], f)
    else [true] + MergeSides(x[1..], y, f)
  }

  /** The values of s at the positions where `sides` is b. */
  function Pick<T>(s: seq<T>, sides: seq<bool>, b: bool): seq<T>
    requires |s| == |sides|
  {
    if s == [] then []
    else (if sides[0] == b then [s[0]] else []) + Pick(s[1..], sides[1..], b)
  }

  /** Every value of x and of y appears in the output exactly once. */
  lemma {:induction false} MergedPermutation<T>(x: seq<T>, y: seq<T>, f: (T, T) -> int)
    ensures multiset(Merged(x, y, f)) == multiset(x) + multiset(y)
    decreases |x| + |y|
  {
    if x != [] && y != [] {
      assert x == [x[0]] + x[1..];
      assert y == [y[0]] + y[1..];
      if f(x[0], y[0]) > 0 {
        MergedPermutation(x, y[1..], f);
      } else {
        MergedPermutation(x[1..], y, f);
      }
    }
  }

  lemma {:induction false} PickConstant<T>(s: seq<T>, b: bool, c: bool)
    ensures Pick(s, seq(|s|, _ => b), c) == if b == c then s else []
    decreases |s|
  {
    if s != [] {
      assert seq(|s|, _ => b)[1..] == seq(|s| - 1, _ => b);
      PickConstant(s[1..], b, c);
      assert s == [s[0]] + s[1..];
    }
  }

  /** The output is an interleaving of x and y: read at the positions taken
      from x it is x, read at the others it is y. */
  lemma {:induction false} MergedInterleaves<T>(x: seq<T>, y: seq<T>, f: (T, T) -> int)
    ensures Pick(Merged(x, y, f), MergeSides(x, y, f), true) == x
    ensures Pick(Merged(x, y, f), MergeSides(x, y, f), false) == y
    decreases |x| + |y|
  {
    var r, sides := Merged(x, y, f), MergeSides(x, y, f);
    if x == [] {
      PickConstant(y, false, true);
      PickConstant(y, false, false);
    } else if y == [] {
      PickConstant(x, true, true);
      PickConstant(x, true, false);
    } else if f(x[0], y[0]) > 0 {
      MergedInterleaves(x, y[1..], f);
      assert r[1..] == Merged(x, y[1..], f) && sides[1..] == MergeSides(x, y[1..], f);
      assert y == [y[0]] + y[1..];
    } else {
      MergedInterleaves(x[1..], y, f);
      assert r[1..] == Merged(x[1..], y, f) && sides[1..] == MergeSides(x[1..], y, f);
      assert x == [x[0]] + x[1..];
    }
  }

  /** A value taken from x is a value of x, one taken from y a value of y. */
  lemma {:induction false} MergedSidesFrom<T>(x: seq<T>, y: seq<T>, f: (T, T) -> int)
    ensures forall q :: 0 <= q < |x| + |y| && MergeSides(x, y, f)[q] ==> Merged(x, y, f)[q] in x
    ensures forall q :: 0 <= q < |x| + |y| && !MergeSides(x, y, f)[q] ==> Merged(x, y, f)[q] in y
    decreases |x| + |y|
  {
    var r, sides := Merged(x, y, f), MergeSides(x, y, f);
    if x != [] && y != [] {
      if f(x[0], y[0]) > 0 {
        MergedSidesFrom(x, y[1..], f);
        forall q | 0 < q < |r| ensures r[q] == Merged(x, y[1..], f)[q - 1] && sides[q] == MergeSides(x, y[1..], f)[q - 1] {}
      } else {
        MergedSidesFrom(x[1..], y, f);
        forall q | 0 < q < |r| ensures r[q] == Merged(x[1..], y, f)[q - 1] && sides[q] == MergeSides(x[1..], y, f)[q - 1] {}
      }
    }
  }

  /** In `r`, read with `sides`, every value taken from y is strictly before
      every value taken from x after it. */
  ghost predicate YAheadOnlyIfBefore<T>(r: seq<T>, sides: seq<bool>, f: (T, T) -> int)
    requires |r| == |sides|
  {
    forall p, q :: 0 <= p < q < |r| && !sides[p] && sides[q] ==> f(r[q], r[p]) > 0
  }

  lemma TiesWhenYGoesFirst<T>(x: seq<T>, y: seq<T>, f: (T, T) -> int)
    requires x != [] && y != [] && f(x[0], y[0]) > 0
    requires forall k :: 0 <= k < |x| ==> f(x[k], y[0]) > 0
    requires YAheadOnlyIfBefore(Merged(x, y[1..], f), MergeSides(x, y[1..], f), f)
    ensures YAheadOnlyIfBefore(Merged(x, y, f), MergeSides(x, y, f), f)
  {
    var r', sides' := Merged(x, y[1..], f), MergeSides(x, y[1..], f);
    assert Merged(x, y, f) == [y[0]] + r' && MergeSides(x, y, f) == [false] + sides';
    MergedSidesFrom(x, y[1..], f);
    ConsY(x, y[0], r', sides', f);
  }

  lemma ConsY<T>(x: seq<T>, v: T, r': seq<T>, sides': seq<bool>, f: (T, T) -> int)
    requires |r'| == |sides'| && YAheadOnlyIfBefore(r', sides', f)
    requires forall k :: 0 <= k < |x| ==> f(x[k], v) > 0
    requires forall q :: 0 <= q < |r'| && sides'[q] ==> r'[q] in x
    ensures YAheadOnlyIfBefore([v] + r', [false] + sides', f)
  {
    var r, sides := [v] + r', [false] + sides';
    forall p, q | 0 <= p < q < |r| && !sides[p] && sides[q]
      ensures f(r[q], r[p]) > 0
    {
      assert r[q] == r'[q - 1] && sides[q] == sides'[q - 1];
      if p == 0 {
        assert r[q] in x;
      } else {
        assert r[p] == r'[p - 1] && sides[p] == sides'[p - 1];
      }
    }
  }

  lemma TiesWhenXGoesFirst<T>(x: seq<T>, y: seq<T>, f: (T, T) -> int)
    requires x != [] && y != [] && f(x[0], y[0]) <= 0
    requires YAheadOnlyIfBefore(Merged(x[1..], y, f), MergeSides(x[1..], y, f), f)
    ensures YAheadOnlyIfBefore(Merged(x, y, f), MergeSides(x, y, f), f)
  {
    var r, sides := Merged(x, y, f), MergeSides(x, y, f);
    var r', sides' := Merged(x[1..], y, f), MergeSides(x[1..], y, f);
    forall p, q | 0 <= p < q < |r| && !sides[p] && sides[q]
      ensures f(r[q], r[p]) > 0
    {
      assert r[q] == r'[q - 1] && sides[q] == sides'[q - 1];
      assert r[p] == r'[p - 1] && sides[p] == sides'[p - 1];
    }
  }

  /** Every value of a sorted x is strictly after a value its head is after. */
  lemma SortedAllAfter<T(!new)>(x: seq<T>, v: T, f: (T, T) -> int)
    requires IsComparator(f) && Sorted(x, f) && x != [] && f(x[0], v) > 0
    ensures forall k :: 0 <= k < |x| ==> f(x[k], v) > 0
  {
    forall k | 0 <= k < |x|
      ensures f(x[k], v) > 0
    {
      SortedAll(x, f, 0, k);
      BeforeThenNotAfter(f, v, x[0], x[k]);
    }
  }

  /** Ties go to x: when x is sorted, a value taken from y comes out ahead of
      a value taken from x only if f puts the x value strictly after it. */
  lemma {:induction false} MergedTiesToX<T(!new)>(x: seq<T>, y: seq<T>, f: (T, T) -> int)
    requires IsComparator(f) && Sorted(x, f)
    ensures YAheadOnlyIfBefore(Merged(x, y, f), MergeSides(x, y, f), f)
    decreases |x| + |y|
  {
    if x != [] && y != [] {
      if f(x[0], y[0]) > 0 {
        MergedTiesToX(x, y[1..], f);
        SortedAllAfter(x, y[0], f);
        TiesWhenYGoesFirst(x, y, f);
      } else {
        SortedTail(x, f);
        MergedTiesToX(x[1..], y, f);
        TiesWhenXGoesFirst(x, y, f);
      }
    } else if x == [] {
      assert forall q :: 0 <= q < |y| ==> !MergeSides(x, y, f)[q];
    } else {
      assert forall p :: 0 <= p < |x| ==> MergeSides(x, y, f)[p];
    }
  }

  /** Sorted inputs merge to a sorted output. */
  lemma {:induction false} MergedSorted<T(!new)>(x: seq<T>, y: seq<T>, f: (T, T) -> int)
    requires IsComparator(f) && Sorted(x, f) && Sorted(y, f)
    ensures Sorted(Merged(x, y, f), f)
    decreases |x| + |y|
  {
    if x != [] && y != [] {
      if f(x[0], y[0]) > 0 {
        var rest := Merged(x, y[1..], f);
        MergedSorted(x, y[1..], f);
        assert f(y[0], x[0]) < 0;
        assert rest != [] ==> rest[0] == x[0] || (|y| > 1 && rest[0] == y[1]);
        SortedCons(y[0], rest, f);
      } else {
        var rest := Merged(x[1..], y, f);
        MergedSorted(x[1..], y, f);
        assert rest != [] ==> (|x| > 1 && rest[0] == x[1]) || rest[0] == y[0];
        SortedCons(x[0], rest, f);
      }
    }
  }

  /** Merged, read from positions i of x and j of y onwards, by index. */
  function MergedFrom<T>(x: seq<T>, y: seq<T>, i: nat, j: nat, f: (T, T) -> int): seq<T>
    requires i <= |x| && j <= |y|
    decreases |x| - i + |y| - j
  {
    if i == |x| then y[j..]
    else if j == |y| then x[i..]
    else
      var yFirst := f(x[i], y[j]) > 0;
      [if yFirst then y[j] else x[i]]
        + MergedFrom(x, y, if yFirst then i else i + 1, if yFirst then j + 1 else j, f)
  }

  lemma {:induction false} MergedFromSuffixes<T>(x: seq<T>, y: seq<T>, i: nat, j: nat, f: (T, T) -> int)
    requires i <= |x| && j <= |y|
    ensures MergedFrom(x, y, i, j, f) == Merged(x[i..], y[j..], f)
    decreases |x| - i + |y| - j
  {
    if i < |x| && j < |y| {
      assert x[i..][0] == x[i] && y[j..][0] == y[j];
      if f(x[i], y[j]) > 0 {
        MergedFromSuffixes(x, y, i, j + 1, f);
        assert y[j..][1..] == y[j + 1..];
      } else {
        MergedFromSuffixes(x, y, i + 1, j, f);
        assert x[i..][1..] == x[i + 1..];
      }
    }
  }

  lemma MergedFromStart<T>(x: seq<T>, y: seq<T>, f: (T, T) -> int)
    ensures MergedFrom(x, y, 0, 0, f) == Merged(x, y, f)
  {
    MergedFromSuffixes(x, y, 0, 0, f);
    assert x[0..] == x && y[0..] == y;
  }

  /** Where x[i] goes out next: its first value is x[i]. */
  lemma XNext<T>(x: seq<T>, y: seq<T>, i: nat, j: nat, f: (T, T) -> int)
    requires i < |x| && j <= |y| && !(j < |y| && f(x[i], y[j]) > 0)
    ensures MergedFrom(x, y, i, j, f) == [x[i]] + MergedFrom(x, y, i + 1, j, f)
  {
    if j == |y| {
      assert x[i..] == [x[i]] + x[i + 1..];
      assert y[j..] == [];
    }
  }

  /** One x value goes out: it is not after the pending y value. */
  lemma EmitX<T>(out: seq<T>, x: seq<T>, y: seq<T>, i: nat, j: nat, f: (T, T) -> int, whole: seq<T>)
    requires i < |x| && j <= |y| && !(j < |y| && f(x[i], y[j]) > 0)
    requires whole == out + MergedFrom(x, y, i, j, f)
    ensures whole == (out + [x[i]]) + MergedFrom(x, y, i + 1, j, f)
  {
    XNext(x, y, i, j, f);
    ThenOne(out, MergedFrom(x, y, i, j, f), x[i], MergedFrom(x, y, i + 1, j, f), whole);
  }

  /** One y value goes out: it is strictly before the current x value. */
  lemma EmitY<T>(out: seq<T>, x: seq<T>, y: seq<T>, i: nat, j: nat, f: (T, T) -> int, whole: seq<T>, v: T)
    requires i < |x| && j < |y| && v == y[j] && f(x[i], v) > 0
    requires whole == out + MergedFrom(x, y, i, j, f)
    ensures whole == (out + [v]) + MergedFrom(x, y, i, j + 1, f)
  {
    assert MergedFrom(x, y, i, j, f) == [v] + MergedFrom(x, y, i, j + 1, f);
    ThenOne(out, MergedFrom(x, y, i, j, f), v, MergedFrom(x, y, i, j + 1, f), whole);
  }

  /** One turn of MergeFunc's inner loop: the pending y value v, strictly
      before x[i], goes out. */
  method YieldY<T>(x: seq<T>, y: seq<T>, i: nat, j0: nat, f: (T, T) -> int, c: Consumer,
                   out0: seq<T>, ghost whole: seq<T>, v: T)
    returns (out: seq<T>, j: nat, stopped: bool)
    requires i < |x| && j0 < |y| && v == y[j0] && f(x[i], v) > 0 && Continues(c, |out0|)
    requires whole == out0 + MergedFrom(x, y, i, j0, f)
    ensures j == j0 + 1
    ensures stopped ==> out == Observe(whole, c)
    ensures !stopped ==> Continues(c, |out|) && whole == out + MergedFrom(x, y, i, j, f)
  {
    EmitY(out0, x, y, i, j0, f, whole, v);
    out := out0 + [v];
    j := j0 + 1;
    stopped := !Continues(c, |out|);
    if stopped {
      ObserveStopped(out, MergedFrom(x, y, i, j, f), c);
    }
  }

  /** MergeFunc's inner loop: the y values strictly before x[i] go out,
      pulling y until its pending value is not before x[i]. */
  method EmitBefore<T>(x: seq<T>, y: seq<T>, i: nat, j0: nat, f: (T, T) -> int, c: Consumer,
                       out0: seq<T>, ghost whole: seq<T>)
    returns (out: seq<T>, j: nat, v2: Option<T>, stopped: bool)
    requires i < |x| && j0 <= |y| && Continues(c, |out0|)
    requires whole == out0 + MergedFrom(x, y, i, j0, f)
    ensures j <= |y| && v2 == PullAt(y, j)
    ensures stopped ==> out == Observe(whole, c)
    ensures !stopped ==> Continues(c, |out|) && whole == out + MergedFrom(x, y, i, j, f)
    ensures !stopped ==> !(v2.Some? && f(x[i], v2.value) > 0)
  {
    out, j, stopped := out0, j0, false;
    v2 := PullAt(y, j);
    while !stopped && v2.Some? && f(x[i], v2.value) > 0
      invariant j <= |y| && v2 == PullAt(y, j)
      invariant stopped ==> out == Observe(whole, c)
      invariant !stopped ==> Continues(c, |out|) && whole == out + MergedFrom(x, y, i, j, f)
      decreases |y| - j
    {
      out, j, stopped := YieldY(x, y, i, j, f, c, out, whole, v2.value);
      v2 := PullAt(y, j);
    }
  }

  /** MergeFunc's last loop: once x is used up, the rest of y goes out. */
  method EmitRest<T>(y: seq<T>, j0: nat, c: Consumer, out0: seq<T>, ghost whole: seq<T>) returns (out: seq<T>)
    requires j0 <= |y| && Continues(c, |out0|) && whole == out0 + y[j0..]
    ensures out == Observe(whole, c)
  {
    out := out0;
    var j := j0;
    var v2 := PullAt(y, j);
    while v2.Some?
      invariant j <= |y| && v2 == PullAt(y, j)
      invariant Continues(c, |out|)
      invariant whole == out + y[j..]
      decreases |y| - j
    {
      AppendHead(out, y[j..]);
      assert y[j..][1..] == y[j + 1..];
      out := out + [v2.value];
      if !Continues(c, |out|) {
        ObserveStopped(out, y[j + 1..], c);
        return;
      }
      j := j + 1;
      v2 := PullAt(y, j);
    }
  }

  /** MergeFunc: x is ranged over and y is pulled one value ahead.  The pull
      cursor on y is its position j: `v2` is what the last `next()` gave. */
  method MergeFunc<T>(x: seq<T>, y: seq<T>, f: (T, T) -> int, c: Consumer) returns (out: seq<T>)
    ensures out == Observe(Merged(x, y, f), c)
  {
    ghost var whole := MergedFrom(x, y, 0, 0, f);
    MergedFromStart(x, y, f);
    var j: nat := 0;
    out := [];
    for i := 0 to |x|
      invariant j <= |y|
      invariant Continues(c, |out|)
      invariant whole == out + MergedFrom(x, y, i, j, f)
    {
      var v2, stopped;
      out, j, v2, stopped := EmitBefore(x, y, i, j, f, c, out, whole);
      if stopped {
        return;
      }
      EmitX(out, x, y, i, j, f, whole);
      out := out + [x[i]];
      if !Continues(c, |out|) {
        ObserveStopped(out, MergedFrom(x, y, i + 1, j, f), c);
        return;
      }
    }
    out := EmitRest(y, j, c, out, whole);
  }

  /** MergeFunc2 is MergeFunc over key/value pairs ordered on their keys:
      its loop is MergeFunc's with f applied to the keys.  Pairs ordered by
      f merge ordered by f, and a y pair goes ahead of an x pair only when
      f puts its key strictly first. */
  method MergeFunc2<K(!new), V(!new)>(x: seq<(K, V)>, y: seq<(K, V)>, f: (K, K) -> int, c: Consumer)
    returns (out: seq<(K, V)>)
    ensures out == Observe(Merged(x, y, ByKey(f)), c)
    ensures c.Drain? ==> multiset(out) == multiset(x) + multiset(y)
    ensures IsComparator(f) && Sorted(x, ByKey(f)) && Sorted(y, ByKey(f)) ==> Sorted(out, ByKey(f))
    ensures IsComparator(f) && Sorted(x, ByKey(f)) ==>
      YAheadOnlyIfBefore(Merged(x, y, ByKey(f)), MergeSides(x, y, ByKey(f)), ByKey(f))
  {
    out := MergeFunc(x, y, ByKey(f), c);
    MergedPermutation(x, y, ByKey(f));
    if IsComparator(f) {
      ByKeyIsComparator<K, V>(f);
      if Sorted(x, ByKey(f)) {
        MergedTiesToX(x, y, ByKey(f));
        if Sorted(y, ByKey(f)) {
          MergedSorted(x, y, ByKey(f));
          SortedPrefix(Merged(x, y, ByKey(f)), |out|, ByKey(f));
        }
      }
    }
  }

  /** Merge is MergeFunc with cmp.Compare: sorted integers merge sorted. */
  method Merge(x: seq<int>, y: seq<int>, c: Consumer) returns (out: seq<int>)
    ensures out == Observe(Merged(x, y, Cmp), c)
    ensures c.Drain? ==> multiset(out) == multiset(x) + multiset(y)
    ensures Sorted(x, Cmp) && Sorted(y, Cmp) ==> Sorted(out, Cmp)
  {
    out := MergeFunc(x, y, Cmp, c);
    MergedPermutation(x, y, Cmp);
    if Sorted(x, Cmp) && Sorted(y, Cmp) {
      CmpIsComparator();
      MergedSorted(x, y, Cmp);
      SortedPrefix(Merged(x, y, Cmp), |out|, Cmp);
    }
  }

  /** Merge2 is MergeFunc2 with cmp.Compare on the keys: pairs sorted by key
      merge sorted by key. */
  method Merge2<V(!new)>(x: seq<(int, V)>, y: seq<(int, V)>, c: Consumer) returns (out: seq<(int, V)>)
    ensures out == Observe(Merged(x, y, ByKey(Cmp)), c)
    ensures c.Drain? ==> multiset(out) == multiset(x) + multiset(y)
    ensures Sorted(x, ByKey(Cmp)) && Sorted(y, ByKey(Cmp)) ==> Sorted(out, ByKey(Cmp))
  {
    CmpIsComparator();
    out := MergeFunc2(x, y, Cmp, c);
  }

  // ---------------------------------------------------------------------
  // MergeAllFunc

  /** The scan of MergeAllFunc's inner loop: `best` moves to position i only
      when vals[i] is strictly before the best value so far. */
  function ScanMin<T>(vals: seq<T>, f: (T, T) -> int, i: nat, best: nat): (r: nat)
    requires best < i <= |vals|
    ensures r < |vals|
    decreases |vals| - i
  {
    if i == |vals| then best
    else ScanMin(vals, f, i + 1, if f(vals[i], vals[best]) < 0 then i else best)
  }

  /** The index MergeAllFunc takes the next value from. */
  function FirstMin<T>(vals: seq<T>, f: (T, T) -> int): (r: nat)
    requires vals != []
    ensures r < |vals|
  {
    ScanMin(vals, f, 1, 0)
  }

  lemma {:induction false} ScanMinLeast<T(!new)>(vals: seq<T>, f: (T, T) -> int, i: nat, best: nat)
    requires IsComparator(f) && best < i <= |vals|
    requires forall k :: 0 <= k < i ==> f(vals[best], vals[k]) <= 0
    requires forall k :: 0 <= k < best ==> f(vals[best], vals[k]) < 0
    ensures forall k :: 0 <= k < |vals| ==> f(vals[ScanMin(vals, f, i, best)], vals[k]) <= 0
    ensures forall k :: 0 <= k < ScanMin(vals, f, i, best) ==> f(vals[ScanMin(vals, f, i, best)], vals[k]) < 0
    decreases |vals| - i
  {
    if i < |vals| {
      var next := if f(vals[i], vals[best]) < 0 then i else best;
      if next == i {
        forall k | 0 <= k < i
          ensures f(vals[i], vals[k]) < 0
        {
          BeforeThenNotAfter(f, vals[i], vals[best], vals[k]);
        }
      }
      assert ScanMin(vals, f, i, best) == ScanMin(vals, f, i + 1, next);
      ScanMinLeast(vals, f, i + 1, next);
    }
  }

  lemma BeforeThenNotAfter<T(!new)>(f: (T, T) -> int, a: T, b: T, c: T)
    requires IsComparator(f) && f(a, b) < 0 && f(b, c) <= 0
    ensures f(a, c) < 0
  {
  }

  /** Under a comparator, FirstMin picks a smallest value, and the earliest
      one among equals: every value before it is strictly after it. */
  lemma FirstMinLeast<T(!new)>(vals: seq<T>, f: (T, T) -> int)
    requires IsComparator(f) && vals != []
    ensures forall k :: 0 <= k < |vals| ==> f(vals[FirstMin(vals, f)], vals[k]) <= 0
    ensures forall k :: 0 <= k < FirstMin(vals, f) ==> f(vals[FirstMin(vals, f)], vals[k]) < 0
  {
    assert !(f(vals[0], vals[0]) < 0);
    ScanMinLeast(vals, f, 1, 0);
  }

  ghost predicate AllNonEmpty<T>(heads: seq<seq<T>>)
  {
    forall k :: 0 <= k < |heads| ==> heads[k] != []
  }

  /** The first value of each input still running. */
  function Firsts<T>(heads: seq<seq<T>>): (r: seq<T>)
    requires AllNonEmpty(heads)
    ensures |r| == |heads| && forall k :: 0 <= k < |r| ==> r[k] == heads[k][0]
  {
    seq(|heads|, k requires 0 <= k < |heads| => heads[k][0])
  }

  /** Input b gives up its first value; an input left empty is deleted. */
  function Advance<T>(heads: seq<seq<T>>, b: nat): (r: seq<seq<T>>)
    requires AllNonEmpty(heads) && b < |heads|
    ensures AllNonEmpty(r)
  {
    if |heads[b]| > 1 then heads[b := heads[b][1..]] else heads[..b] + heads[b + 1..]
  }

  lemma FlattenAround<T>(heads: seq<seq<T>>, b: nat)
    requires b < |heads|
    ensures Flatten(heads) == Flatten(heads[..b]) + heads[b] + Flatten(heads[b + 1..])
  {
    assert heads == heads[..b] + heads[b..];
    FlattenAppend(heads[..b], heads[b..]);
    assert heads[b..][1..] == heads[b + 1..];
  }

  lemma AdvanceFlatten<T>(heads: seq<seq<T>>, b: nat)
    requires AllNonEmpty(heads) && b < |heads|
    ensures Flatten(Advance(heads, b)) == Flatten(heads[..b]) + heads[b][1..] + Flatten(heads[b + 1..])
  {
    var adv := Advance(heads, b);
    if |heads[b]| > 1 {
      FlattenAround(adv, b);
      assert adv[..b] == heads[..b] && adv[b + 1..] == heads[b + 1..];
    } else {
      FlattenAppend(heads[..b], heads[b + 1..]);
      assert heads[b][1..] == [];
    }
  }

  /** Advancing takes one value away. */
  lemma AdvanceShrinks<T>(heads: seq<seq<T>>, b: nat)
    requires AllNonEmpty(heads) && b < |heads|
    ensures |Flatten(Advance(heads, b))| + 1 == |Flatten(heads)|
  {
    FlattenAround(heads, b);
    AdvanceFlatten(heads, b);
  }

  /** Taking the first value out of the middle part of a concatenation. */
  lemma DropMiddleHead<T>(before: seq<T>, h: seq<T>, after: seq<T>)
    requires h != []
    ensures multiset(before + h[1..] + after) + multiset{h[0]} == multiset(before + h + after)
  {
    assert h == [h[0]] + h[1..];
    assert multiset(h) == multiset{h[0]} + multiset(h[1..]);
  }

  /** Advancing removes exactly the head of input b. */
  lemma AdvanceRemovesHead<T>(heads: seq<seq<T>>, b: nat)
    requires AllNonEmpty(heads) && b < |heads|
    ensures multiset(Flatten(Advance(heads, b))) + multiset{heads[b][0]} == multiset(Flatten(heads))
  {
    FlattenAround(heads, b);
    AdvanceFlatten(heads, b);
    DropMiddleHead(Flatten(heads[..b]), heads[b], Flatten(heads[b + 1..]));
  }

  /** The k-way merge of the non-empty inputs `heads`: repeatedly the first
      smallest head goes out and its input advances. */
  ghost function KMerge<T>(heads: seq<seq<T>>, f: (T, T) -> int): (r: seq<T>)
    requires AllNonEmpty(heads)
    decreases |Flatten(heads)|
  {
    if heads == [] then []
    else
      var b := FirstMin(Firsts(heads), f);
      AdvanceShrinks(heads, b);
      [heads[b][0]] + KMerge(Advance(heads, b), f)
  }

  lemma KMergeStep<T>(heads: seq<seq<T>>, f: (T, T) -> int)
    requires AllNonEmpty(heads) && heads != []
    ensures KMerge(heads, f)
      == [heads[FirstMin(Firsts(heads), f)][0]] + KMerge(Advance(heads, FirstMin(Firsts(heads), f)), f)
  {
  }

  lemma {:induction false} KMergePermutation<T>(heads: seq<seq<T>>, f: (T, T) -> int)
    requires AllNonEmpty(heads)
    ensures multiset(KMerge(heads, f)) == multiset(Flatten(heads))
    decreases |Flatten(heads)|
  {
    if heads != [] {
      var b := FirstMin(Firsts(heads), f);
      AdvanceRemovesHead(heads, b);
      AdvanceShrinks(heads, b);
      KMergePermutation(Advance(heads, b), f);
    }
  }

  /** Under a comparator, the first smallest head is at or before every value
      still to come from any sorted input. */
  lemma HeadBoundsAll<T(!new)>(heads: seq<seq<T>>, f: (T, T) -> int, e: T)
    requires IsComparator(f) && AllNonEmpty(heads) && heads != []
    requires forall k :: 0 <= k < |heads| ==> Sorted(heads[k], f)
    requires e in Flatten(heads)
    ensures f(heads[FirstMin(Firsts(heads), f)][0], e) <= 0
  {
    var vals := Firsts(heads);
    var m := heads[FirstMin(vals, f)][0];
    FirstMinLeast(vals, f);
    FlattenMember(heads, e);
    var k, i :| 0 <= k < |heads| && 0 <= i < |heads[k]| && heads[k][i] == e;
    SortedAll(heads[k], f, 0, i);
    assert f(m, vals[k]) <= 0;
  }

  lemma {:induction false} KMergeSorted<T(!new)>(heads: seq<seq<T>>, f: (T, T) -> int)
    requires IsComparator(f) && AllNonEmpty(heads)
    requires forall k :: 0 <= k < |heads| ==> Sorted(heads[k], f)
    ensures Sorted(KMerge(heads, f), f)
    decreases |Flatten(heads)|
  {
    if heads != [] {
      var b := FirstMin(Firsts(heads), f);
      var adv := Advance(heads, b);
      forall k | 0 <= k < |adv|
        ensures Sorted(adv[k], f)
      {
        if |heads[b]| > 1 && k == b {
          assert adv[k] == heads[b][1..];
        } else if |heads[b]| <= 1 && k >= b {
          assert adv[k] == heads[k + 1];
        }
      }
      AdvanceRemovesHead(heads, b);
      AdvanceShrinks(heads, b);
      KMergeSorted(adv, f);
      var rest := KMerge(adv, f);
      if rest != [] {
        KMergePermutation(adv, f);
        assert rest[0] in multiset(Flatten(heads));
        HeadBoundsAll(heads, f, rest[0]);
      }
      SortedCons(heads[b][0], rest, f);
    }
  }

  /** The inputs that are not empty, in order: the initial pulls of
      MergeAllFunc keep exactly these. */
  function NonEmpty<T>(inps: seq<seq<T>>): (r: seq<seq<T>>)
    ensures AllNonEmpty(r) && |r| <= |inps|
  {
    if inps == [] then []
    else NonEmpty(inps[..|inps| - 1]) + (if inps[|inps| - 1] != [] then [inps[|inps| - 1]] else [])
  }

  lemma {:induction false} FlattenNonEmpty<T>(inps: seq<seq<T>>)
    ensures Flatten(NonEmpty(inps)) == Flatten(inps)
    decreases |inps|
  {
    if inps != [] {
      var init, last := inps[..|inps| - 1], inps[|inps| - 1];
      assert inps == init + [last];
      FlattenNonEmpty(init);
      FlattenAppend(init, [last]);
      FlattenAppend(NonEmpty(init), if last != [] then [last] else []);
    }
  }

  /** What MergeAllFunc yields: nothing for no input, the input itself for one,
      MergeFunc for two, and the k-way merge of the non-empty inputs otherwise. */
  ghost function MergeAllOf<T>(inps: seq<seq<T>>, f: (T, T) -> int): seq<T>
  {
    if |inps| == 0 then []
    else if |inps| == 1 then inps[0]
    else if |inps| == 2 then Merged(inps[0], inps[1], f)
    else KMerge(NonEmpty(inps), f)
  }

  /** Every value of every input comes out exactly once. */
  lemma MergeAllPermutation<T>(inps: seq<seq<T>>, f: (T, T) -> int)
    ensures multiset(MergeAllOf(inps, f)) == multiset(Flatten(inps))
  {
    if |inps| == 2 {
      MergedPermutation(inps[0], inps[1], f);
      assert inps == [inps[0]] + [inps[1]];
      FlattenAppend([inps[0]], [inps[1]]);
    } else if |inps| > 2 {
      KMergePermutation(NonEmpty(inps), f);
      FlattenNonEmpty(inps);
    }
  }

  /** Inputs sorted by a comparator merge to a sorted output. */
  lemma MergeAllSorted<T(!new)>(inps: seq<seq<T>>, f: (T, T) -> int)
    requires IsComparator(f)
    requires forall k :: 0 <= k < |inps| ==> Sorted(inps[k], f)
    ensures Sorted(MergeAllOf(inps, f), f)
  {
    if |inps| == 2 {
      MergedSorted(inps[0], inps[1], f);
    } else if |inps| > 2 {
      NonEmptySorted(inps, f);
      KMergeSorted(NonEmpty(inps), f);
    }
  }

  lemma {:induction false} NonEmptySorted<T>(inps: seq<seq<T>>, f: (T, T) -> int)
    requires forall k :: 0 <= k < |inps| ==> Sorted(inps[k], f)
    ensures forall k :: 0 <= k < |NonEmpty(inps)| ==> Sorted(NonEmpty(inps)[k], f)
    decreases |inps|
  {
    if inps != [] {
      NonEmptySorted(inps[..|inps| - 1], f);
    }
  }

  /** The running inputs of MergeAllFunc: input k has `vals[k]` pulled and
      `nexts[k]` still to come. */
  function Heads<T>(vals: seq<T>, nexts: seq<seq<T>>): (r: seq<seq<T>>)
    requires |vals| == |nexts|
    ensures |r| == |vals| && AllNonEmpty(r)
    ensures forall k :: 0 <= k < |r| ==> r[k] == [vals[k]] + nexts[k]
  {
    seq(|vals|, k requires 0 <= k < |vals| => [vals[k]] + nexts[k])
  }

  lemma HeadsFirsts<T>(vals: seq<T>, nexts: seq<seq<T>>)
    requires |vals| == |nexts|
    ensures Firsts(Heads(vals, nexts)) == vals
  {
  }

  /** Pulling a value from input b replaces its head. */
  lemma HeadsReplace<T>(vals: seq<T>, nexts: seq<seq<T>>, b: nat)
    requires |vals| == |nexts| && b < |vals| && nexts[b] != []
    ensures Advance(Heads(vals, nexts), b) == Heads(vals[b := nexts[b][0]], nexts[b := nexts[b][1..]])
  {
    var h := Heads(vals, nexts);
    assert h[b][1..] == [nexts[b][0]] + nexts[b][1..];
  }

  /** An exhausted input b is deleted from both slices. */
  lemma HeadsDelete<T>(vals: seq<T>, nexts: seq<seq<T>>, b: nat)
    requires |vals| == |nexts| && b < |vals| && nexts[b] == []
    ensures Advance(Heads(vals, nexts), b) == Heads(vals[..b] + vals[b + 1..], nexts[..b] + nexts[b + 1..])
  {
  }

  /** Emitting the first smallest head keeps the promised output. */
  lemma EmitBest<T>(out: seq<T>, heads: seq<seq<T>>, f: (T, T) -> int, whole: seq<T>)
    requires AllNonEmpty(heads) && heads != [] && whole == out + KMerge(heads, f)
    ensures whole == (out + [heads[FirstMin(Firsts(heads), f)][0]]) + KMerge(Advance(heads, FirstMin(Firsts(heads), f)), f)
    ensures |Flatten(Advance(heads, FirstMin(Firsts(heads), f)))| < |Flatten(heads)|
  {
    var b := FirstMin(Firsts(heads), f);
    KMergeStep(heads, f);
    AdvanceShrinks(heads, b);
    assert out + ([heads[b][0]] + KMerge(Advance(heads, b), f))
      == (out + [heads[b][0]]) + KMerge(Advance(heads, b), f);
  }

  /** The initial pulls: each non-empty input contributes its first value to
      `vals` and its cursor to `nexts`. */
  lemma PullFirst<T>(vals: seq<T>, nexts: seq<seq<T>>, inps: seq<seq<T>>, k: nat)
    requires |vals| == |nexts| && k < |inps| && Heads(vals, nexts) == NonEmpty(inps[..k])
    ensures inps[k] != [] ==>
      Heads(vals + [inps[k][0]], nexts + [inps[k][1..]]) == NonEmpty(inps[..k + 1])
    ensures inps[k] == [] ==> Heads(vals, nexts) == NonEmpty(inps[..k + 1])
  {
    assert inps[..k + 1][..k] == inps[..k];
    if inps[k] != [] {
      assert [inps[k][0]] + inps[k][1..] == inps[k];
    }
  }

  /** MergeAllFunc's first loop: one pull from every input; the inputs that
      give a value keep their pending value and their cursor. */
  method PullFirsts<T>(inps: seq<seq<T>>) returns (vals: seq<T>, nexts: seq<seq<T>>)
    ensures |vals| == |nexts| && Heads(vals, nexts) == NonEmpty(inps)
  {
    vals, nexts := [], [];
    for k := 0 to |inps|
      invariant |vals| == |nexts| && Heads(vals, nexts) == NonEmpty(inps[..k])
    {
      PullFirst(vals, nexts, inps, k);
      if inps[k] != [] {
        vals := vals + [inps[k][0]];
        nexts := nexts + [inps[k][1..]];
      }
    }
    assert inps[..|inps|] == inps;
  }

  /** MergeAllFunc's inner loop: the position of the first smallest pending
      value. */
  method ScanBest<T>(vals: seq<T>, f: (T, T) -> int) returns (best: T, bestIndex: nat)
    requires vals != []
    ensures bestIndex == FirstMin(vals, f) && best == vals[bestIndex]
  {
    best, bestIndex := vals[0], 0;
    for i := 1 to |vals|
      invariant bestIndex < i && best == vals[bestIndex]
      invariant ScanMin(vals, f, i, bestIndex) == FirstMin(vals, f)
    {
      var val := vals[i];
      if f(val, best) < 0 {
        best := val;
        bestIndex := i;
      }
    }
  }

  /** One turn of MergeAllFunc's outer loop: the best pending value goes
      out, then its input is pulled again or deleted when exhausted. */
  method YieldBest<T>(vals0: seq<T>, nexts0: seq<seq<T>>, f: (T, T) -> int, c: Consumer,
                      out0: seq<T>, ghost whole: seq<T>)
    returns (vals: seq<T>, nexts: seq<seq<T>>, out: seq<T>, stopped: bool)
    requires |vals0| == |nexts0| && vals0 != [] && Continues(c, |out0|)
    requires whole == out0 + KMerge(Heads(vals0, nexts0), f)
    ensures |vals| == |nexts|
    ensures |Flatten(Heads(vals, nexts))| < |Flatten(Heads(vals0, nexts0))|
    ensures stopped ==> out == Observe(whole, c)
    ensures !stopped ==> Continues(c, |out|) && whole == out + KMerge(Heads(vals, nexts), f)
  {
    var best, b := ScanBest(vals0, f);
    ghost var heads := Heads(vals0, nexts0);
    HeadsFirsts(vals0, nexts0);
    EmitBest(out0, heads, f, whole);
    out := out0 + [best];
    if nexts0[b] != [] {
      HeadsReplace(vals0, nexts0, b);
      vals := vals0[b := nexts0[b][0]];
      nexts := nexts0[b := nexts0[b][1..]];
    } else {
      HeadsDelete(vals0, nexts0, b);
      nexts := nexts0[..b] + nexts0[b + 1..];
      vals := vals0[..b] + vals0[b + 1..];
    }
    stopped := !Continues(c, |out|);
    if stopped {
      ObserveStopped(out, KMerge(Heads(vals, nexts), f), c);
    }
  }

  /** MergeAllFunc: for three or more inputs, `vals[k]` is the pending value
      of the k-th running input and `nexts[k]` what its cursor still holds. */
  method MergeAllFunc<T>(inps: seq<seq<T>>, f: (T, T) -> int, c: Consumer) returns (out: seq<T>)
    ensures out == Observe(MergeAllOf(inps, f), c)
  {
    if |inps| == 0 {
      out := [];
    } else if |inps| == 1 {
      out := Observe(inps[0], c);
    } else if |inps| == 2 {
      out := MergeFunc(inps[0], inps[1], f, c);
    } else {
      var vals, nexts := PullFirsts(inps);
      ghost var whole := KMerge(NonEmpty(inps), f);
      out := [];
      var stopped := false;
      while !stopped && |vals| > 0
        invariant |vals| == |nexts|
        invariant stopped ==> out == Observe(whole, c)
        invariant !stopped ==> Continues(c, |out|) && whole == out + KMerge(Heads(vals, nexts), f)
        decreases |Flatten(Heads(vals, nexts))|
      {
        vals, nexts, out, stopped := YieldBest(vals, nexts, f, c, out, whole);
      }
      if !stopped {
        assert Heads(vals, nexts) == [];
      }
    }
  }

  /** MergeAll is MergeAllFunc with cmp.Compare: sorted integer inputs merge
      to a sorted permutation of all of them. */
  method MergeAll(inps: seq<seq<int>>, c: Consumer) returns (out: seq<int>)
    ensures out == Observe(MergeAllOf(inps, Cmp), c)
    ensures c.Drain? ==> multiset(out) == multiset(Flatten(inps))
    ensures (forall k :: 0 <= k < |inps| ==> Sorted(inps[k], Cmp)) ==> Sorted(out, Cmp)
  {
    out := MergeAllFunc(inps, Cmp, c);
    MergeAllPermutation(inps, Cmp);
    if forall k :: 0 <= k < |inps| ==> Sorted(inps[k], Cmp) {
      CmpIsComparator();
      MergeAllSorted(inps, Cmp);
      SortedPrefix(MergeAllOf(inps, Cmp), |out|, Cmp);
    }
  }

  /** Sorted integer inputs merge to the one sorted arrangement of all
      their values. */
  lemma MergeAllIsSortedArrangement(inps: seq<seq<int>>, want: seq<int>)
    requires forall k :: 0 <= k < |inps| ==> Sorted(inps[k], Cmp)
    requires Sorted(want, Cmp) && multiset(Flatten(inps)) == multiset(want)
    ensures MergeAllOf(inps, Cmp) == want
  {
    MergeAllPermutation(inps, Cmp);
    CmpIsComparator();
    MergeAllSorted(inps, Cmp);
    SortedUnique(MergeAllOf(inps, Cmp), want);
  }
}
