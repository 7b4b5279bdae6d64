/** seqs.go: conversions between the one- and two-value forms, numbering,
    element-wise comparison and draining. */
module Seqs {
  import opened Iter

  /** Pair: a two-value item as one value. */
  datatype Pair<T, U> = Pair(x: T, y: U)

  /** ToPairs: one Pair per item, in order. */
  function ToPairs<T, U>(inp: seq<(T, U)>): (r: seq<Pair<T, U>>)
    ensures |r| == |inp|
    ensures forall k :: 0 <= k < |r| ==> r[k].x == inp[k].0 && r[k].y == inp[k].1
  {
    if inp == [] then [] else [Pair(inp[0].0, inp[0].1)] + ToPairs(inp[1..])
  }

  /** FromPairs: one item per Pair, in order. */
  function FromPairs<T, U>(inp: seq<Pair<T, U>>): (r: seq<(T, U)>)
    ensures |r| == |inp|
    ensures forall k :: 0 <= k < |r| ==> r[k].0 == inp[k].x && r[k].1 == inp[k].y
  {
    if inp == [] then [] else [(inp[0].x, inp[0].y)] + FromPairs(inp[1..])
  }

  lemma {:induction false} FromToPairs<T, U>(s: seq<(T, U)>)
    ensures FromPairs(ToPairs(s)) == s
  {
    if s != [] {
      FromToPairs(s[1..]);
      assert ToPairs(s)[1..] == ToPairs(s[1..]);
    }
  }

  lemma {:induction false} ToFromPairs<T, U>(p: seq<Pair<T, U>>)
    ensures ToPairs(FromPairs(p)) == p
  {
    if p != [] {
      ToFromPairs(p[1..]);
      assert FromPairs(p)[1..] == FromPairs(p[1..]);
    }
  }

  /** Left: the first components, in order. */
  function Left<T, U>(inp: seq<(T, U)>): (r: seq<T>)
    ensures |r| == |inp|
    ensures forall k :: 0 <= k < |r| ==> r[k] == inp[k].0
  {
    if inp == [] then [] else [inp[0].0] + Left(inp[1..])
  }

  /** Right: the second components, in order. */
  function Right<T, U>(inp: seq<(T, U)>): (r: seq<U>)
    ensures |r| == |inp|
    ensures forall k :: 0 <= k < |r| ==> r[k] == inp[k].1
  {
    if inp == [] then [] else [inp[0].1] + Right(inp[1..])
  }

  /** Enumerate: the counter i starts at 0 and goes up by one per value. */
  method Enumerate<T>(inp: seq<T>, c: Consumer) returns (out: seq<(int, T)>)
    ensures |out| == |Observe(inp, c)|
    ensures forall k :: 0 <= k < |out| ==> out[k] == (k, inp[k])
  {
    out := [];
    var i := 0;
    for n := 0 to |inp|
      invariant i == n == |out| && Continues(c, n)
      invariant forall k :: 0 <= k < |out| ==> out[k] == (k, inp[k])
    {
      out := out + [(i, inp[n])];
      if !Continues(c, |out|) {
        return;
      }
      i := i + 1;
    }
  }

  /** Enumerate pairs every value with its position: its Right is what the
      consumer saw of the input, its Left the positions. */
  lemma EnumerateParts<T>(inp: seq<T>, c: Consumer, out: seq<(int, T)>)
    requires |out| == |Observe(inp, c)|
    requires forall k :: 0 <= k < |out| ==> out[k] == (k, inp[k])
    ensures Right(out) == Observe(inp, c)
    ensures forall k :: 0 <= k < |out| ==> Left(out)[k] == k
  {
  }

  /** CompareFunc after k pulls from each side. */
  function ComparedFrom<T>(a: seq<T>, b: seq<T>, f: (T, T) -> int, k: nat): int
    decreases |a| - k
  {
    if k >= |a| && k >= |b| then 0
    else if k >= |a| then -1
    else if k >= |b| then 1
    else if f(a[k], b[k]) != 0 then f(a[k], b[k])
    else ComparedFrom(a, b, f, k + 1)
  }

  function Compared<T>(a: seq<T>, b: seq<T>, f: (T, T) -> int): int
  {
    ComparedFrom(a, b, f, 0)
  }

  /** CompareFunc: both sides are pulled together until one ends or f
      tells them apart. */
  method CompareFunc<T>(a: seq<T>, b: seq<T>, f: (T, T) -> int) returns (r: int)
    ensures r == Compared(a, b, f)
  {
    var ia: nat, ib: nat := 0, 0;
    var aVal: Option<T>, bVal: Option<T>;
    var aOK, bOK := true, true;
    while true
      invariant ia == ib && aOK && bOK
      invariant ComparedFrom(a, b, f, ia) == Compared(a, b, f)
      decreases |a| - ia
    {
      if aOK {
        aVal := PullAt(a, ia);
        ia := ia + 1;
        aOK := aVal.Some?;
      }
      if bOK {
        bVal := PullAt(b, ib);
        ib := ib + 1;
        bOK := bVal.Some?;
      }
      if !aOK && !bOK {
        return 0;
      }
      if !aOK {
        return -1;
      }
      if !bOK {
        return 1;
      }
      var d := f(aVal.value, bVal.value);
      if d != 0 {
        return d;
      }
    }
  }

  /** CompareFunc returns f on the first pair that f tells apart. */
  lemma {:induction false} ComparedFirstDifference<T>(a: seq<T>, b: seq<T>, f: (T, T) -> int, k: nat)
    requires k < |a| && k < |b| && f(a[k], b[k]) != 0
    requires forall m :: 0 <= m < k ==> f(a[m], b[m]) == 0
    ensures Compared(a, b, f) == f(a[k], b[k])
  {
    ComparedSkips(a, b, f, 0, k);
  }

  /** Positions where f is zero are passed over. */
  lemma {:induction false} ComparedSkips<T>(a: seq<T>, b: seq<T>, f: (T, T) -> int, i: nat, k: nat)
    requires i <= k <= |a| && k <= |b|
    requires forall m :: i <= m < k ==> f(a[m], b[m]) == 0
    ensures ComparedFrom(a, b, f, i) == ComparedFrom(a, b, f, k)
    decreases k - i
  {
    if i < k {
      ComparedSkips(a, b, f, i + 1, k);
    }
  }

  /** A proper prefix compares below the longer sequence, and the longer one
      above it; with f zero pairwise, equal lengths compare 0. */
  lemma ComparedPrefix<T>(a: seq<T>, b: seq<T>, f: (T, T) -> int)
    requires forall m :: 0 <= m < |a| && m < |b| ==> f(a[m], b[m]) == 0
    ensures |a| < |b| ==> Compared(a, b, f) == -1
    ensures |a| > |b| ==> Compared(a, b, f) == 1
    ensures |a| == |b| ==> Compared(a, b, f) == 0
  {
    var n := if |a| < |b| then |a| else |b|;
    ComparedSkips(a, b, f, 0, n);
  }

  /** Compare: CompareFunc with cmp.Compare. */
  method Compare(a: seq<int>, b: seq<int>) returns (r: int)
    ensures r == Compared(a, b, Cmp)
    ensures r == 0 <==> a == b
    ensures -1 <= r <= 1
  {
    r := CompareFunc(a, b, Cmp);
    ComparedIntegers(a, b, 0);
  }

  /** On integers, Compare is a three-way answer that is 0 exactly on equal
      sequences (from position i on). */
  lemma {:induction false} ComparedIntegers(a: seq<int>, b: seq<int>, i: nat)
    requires i <= |a| && i <= |b|
    ensures -1 <= ComparedFrom(a, b, Cmp, i) <= 1
    ensures ComparedFrom(a, b, Cmp, i) == 0 <==> a[i..] == b[i..]
    decreases |a| - i
  {
    if i < |a| && i < |b| {
      assert a[i..] == [a[i]] + a[i + 1..] && b[i..] == [b[i]] + b[i + 1..];
      if a[i] == b[i] {
        ComparedIntegers(a, b, i + 1);
      } else {
        assert a[i..][0] != b[i..][0];
      }
    } else if i < |a| || i < |b| {
      assert |a[i..]| != |b[i..]|;
    }
  }

  /** Swapping the arguments of Compare flips the sign. */
  lemma {:induction false} ComparedFlips(a: seq<int>, b: seq<int>, i: nat)
    ensures ComparedFrom(a, b, Cmp, i) == -ComparedFrom(b, a, Cmp, i)
    decreases |a| - i
  {
    if i < |a| && i < |b| && Cmp(a[i], b[i]) == 0 {
      ComparedFlips(a, b, i + 1);
    }
  }

  /** Drain: the number of values. */
  method Drain<T>(inp: seq<T>) returns (n: int)
    ensures n == |inp|
  {
    n := 0;
    for i := 0 to |inp|
      invariant n == i
    {
      n := n + 1;
    }
  }

  method Drain2<T, U>(inp: seq<(T, U)>) returns (n: int)
    ensures n == |inp|
  {
    n := Drain(inp);
  }

  lemma LeftRightExamples()
    ensures Left([(1, "a"), (2, "b"), (3, "c")]) == [1, 2, 3]
    ensures Right([(1, "a"), (2, "b"), (3, "c")]) == ["a", "b", "c"]
  {
  }

  /** Compare's documented cases: a proper prefix is first, and otherwise
      the first unequal pair decides. */
  lemma CompareExamples()
    ensures Compared([1, 2], [1, 2, 3], Cmp) == -1
    ensures Compared([1, 3], [1, 2, 3], Cmp) == 1
  {
  }
}
