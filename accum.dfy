/** accum.go: running accumulations.  A mapping function that may fail
    returns its new accumulator together with `Some(error)` or `None`; the
    error cell the caller reads after draining is the out-parameter `err`. */
module Accum {
  import opened Iter

  /** What a drained Accumx yields, and what its error cell then holds. */
  datatype Scan<A, E> = Scan(values: seq<A>, err: Option<E>)

  /** Accumx's loop from position i with accumulator acc. */
  function ScanFrom<T, A, E>(inp: seq<T>, i: nat, acc: A, f: (A, T) -> (A, Option<E>)): Scan<A, E>
    requires i <= |inp|
    decreases |inp| - i
  {
    if i == |inp| then Scan([], None)
    else
      var (a, e) := f(acc, inp[i]);
      if e.Some? then Scan([], e)
      else
        var rest := ScanFrom(inp, i + 1, a, f);
        Scan([a] + rest.values, rest.err)
  }

  function ScanOf<T, A, E>(inp: seq<T>, init: A, f: (A, T) -> (A, Option<E>)): Scan<A, E>
  {
    ScanFrom(inp, 0, init, f)
  }

  /** The reference left fold with failure: the accumulator after folding f
      over s from init, and the first error f reported, if any; folding
      stops at that error and keeps the accumulator from before it. */
  function FoldX<T, A, E>(f: (A, T) -> (A, Option<E>), init: A, s: seq<T>): (A, Option<E>)
  {
    if s == [] then (init, None)
    else
      var (acc, e) := FoldX(f, init, s[..|s| - 1]);
      if e.Some? then (acc, e)
      else
        var (a, e2) := f(acc, s[|s| - 1]);
        if e2.Some? then (acc, e2) else (a, None)
  }

  /** The plain left fold: f(...f(f(init, s[0]), s[1])..., s[|s|-1]). */
  function Fold<T, A>(f: (A, T) -> A, init: A, s: seq<T>): A
  {
    if s == [] then init else f(Fold(f, init, s[..|s| - 1]), s[|s| - 1])
  }

  /** A function that never fails, as Accum wraps its argument. */
  function Lift<T, A, E>(g: (A, T) -> A): (A, T) -> (A, Option<E>)
  {
    (a: A, t: T) => (g(a, t), None)
  }

  // ---------------------------------------------------------------------
  // The meaning of Accumx against the reference fold

  /** Once the fold has failed, more input changes nothing. */
  lemma {:induction false} FoldXStuck<T, A, E>(f: (A, T) -> (A, Option<E>), init: A, s: seq<T>, n: nat)
    requires n <= |s| && FoldX(f, init, s[..n]).1.Some?
    ensures FoldX(f, init, s) == FoldX(f, init, s[..n])
    decreases |s| - n
  {
    if n < |s| {
      assert s[..|s| - 1][..n] == s[..n];
      FoldXStuck(f, init, s[..|s| - 1], n);
    } else {
      assert s[..n] == s;
    }
  }

  /** One more element of input folds one more step. */
  lemma FoldXNext<T, A, E>(f: (A, T) -> (A, Option<E>), init: A, s: seq<T>, i: nat)
    requires i < |s|
    ensures FoldX(f, init, s[..i + 1]) ==
      var (acc, e) := FoldX(f, init, s[..i]);
      if e.Some? then (acc, e)
      else
        var (a, e2) := f(acc, s[i]);
        if e2.Some? then (acc, e2) else (a, None)
  {
    assert s[..i + 1][..i] == s[..i];
  }

  /** Accumx from position i, when the fold of the first i values has not
      failed: its k-th value is the fold of the first i+k+1 values, it stops
      early only on an error, and that error is the fold's. */
  lemma {:induction false} ScanFromFolds<T, A, E>(inp: seq<T>, init: A, f: (A, T) -> (A, Option<E>), i: nat)
    requires i <= |inp| && FoldX(f, init, inp[..i]).1.None?
    ensures var s := ScanFrom(inp, i, FoldX(f, init, inp[..i]).0, f);
      && i + |s.values| <= |inp|
      && (forall k :: 0 <= k < |s.values| ==> FoldX(f, init, inp[..i + k + 1]) == (s.values[k], None))
      && (s.err.None? ==> i + |s.values| == |inp|)
      && (s.err.Some? ==>
            i + |s.values| < |inp| && FoldX(f, init, inp[..i + |s.values| + 1]).1 == s.err)
    decreases |inp| - i
  {
    if i < |inp| {
      FoldXNext(f, init, inp, i);
      var acc := FoldX(f, init, inp[..i]).0;
      var (a, e) := f(acc, inp[i]);
      if e.None? {
        ScanFromFolds(inp, init, f, i + 1);
      }
    }
  }

  /** Accumx from the start, against the reference fold. */
  lemma ScanFolds<T, A, E>(inp: seq<T>, init: A, f: (A, T) -> (A, Option<E>))
    ensures var s := ScanOf(inp, init, f);
      && |s.values| <= |inp|
      && (forall k :: 0 <= k < |s.values| ==> FoldX(f, init, inp[..k + 1]) == (s.values[k], None))
      && (s.err.None? ==> |s.values| == |inp|)
      && (s.err.Some? ==> |s.values| < |inp| && FoldX(f, init, inp[..|s.values| + 1]).1 == s.err)
  {
    assert inp[..0] == [];
    ScanFromFolds(inp, init, f, 0);
  }

  /** A function that never fails folds like the plain fold. */
  lemma {:induction false} FoldXLift<T, A, E>(g: (A, T) -> A, init: A, s: seq<T>)
    ensures FoldX(Lift<T, A, E>(g), init, s) == (Fold(g, init, s), None)
  {
    if s != [] {
      FoldXLift<T, A, E>(g, init, s[..|s| - 1]);
    }
  }

  /** Accum: item k is the fold of the first k+1 inputs, and there is one
      item per input the consumer lets through. */
  lemma ScanLift<T, A, E>(inp: seq<T>, init: A, g: (A, T) -> A)
    ensures ScanOf(inp, init, Lift<T, A, E>(g)).err.None?
    ensures |ScanOf(inp, init, Lift<T, A, E>(g)).values| == |inp|
    ensures forall k :: 0 <= k < |inp| ==> ScanOf(inp, init, Lift<T, A, E>(g)).values[k] == Fold(g, init, inp[..k + 1])
  {
    var s := ScanOf(inp, init, Lift<T, A, E>(g));
    ScanFolds(inp, init, Lift<T, A, E>(g));
    if s.err.Some? {
      FoldXLift<T, A, E>(g, init, inp[..|s.values| + 1]);
    }
    forall k | 0 <= k < |inp|
      ensures s.values[k] == Fold(g, init, inp[..k + 1])
    {
      FoldXLift<T, A, E>(g, init, inp[..k + 1]);
    }
  }

  // ---------------------------------------------------------------------
  // The loops

  lemma ScanStep<T, A, E>(out: seq<A>, inp: seq<T>, i: nat, acc: A, f: (A, T) -> (A, Option<E>), whole: Scan<A, E>)
    requires i < |inp| && whole.values == out + ScanFrom(inp, i, acc, f).values
    requires ScanFrom(inp, i, acc, f).err == whole.err
    ensures f(acc, inp[i]).1.Some? ==> whole.values == out && f(acc, inp[i]).1 == whole.err
    ensures f(acc, inp[i]).1.None? ==>
      && whole.values == (out + [f(acc, inp[i]).0]) + ScanFrom(inp, i + 1, f(acc, inp[i]).0, f).values
      && ScanFrom(inp, i + 1, f(acc, inp[i]).0, f).err == whole.err
  {
    var (a, e) := f(acc, inp[i]);
    if e.None? {
      var rest := ScanFrom(inp, i + 1, a, f).values;
      assert out + ([a] + rest) == (out + [a]) + rest;
    }
  }

  /** Accumx: `acc` and the error cell are reassigned on every step; the
      loop stops at the first error without yielding that step's value. */
  method Accumx<T, A, E>(inp: seq<T>, init: A, f: (A, T) -> (A, Option<E>), c: Consumer)
    returns (out: seq<A>, err: Option<E>)
    ensures out == Observe(ScanOf(inp, init, f).values, c)
    ensures err == if Continues(c, |out|) then ScanOf(inp, init, f).err else None
  {
    ghost var whole := ScanOf(inp, init, f);
    err := None;
    out := [];
    var acc := init;
    for i := 0 to |inp|
      invariant Continues(c, |out|) && err.None?
      invariant whole.values == out + ScanFrom(inp, i, acc, f).values
      invariant ScanFrom(inp, i, acc, f).err == whole.err
    {
      ScanStep(out, inp, i, acc, f, whole);
      var r := f(acc, inp[i]);
      acc, err := r.0, r.1;
      if err.Some? {
        return;
      }
      out := out + [acc];
      if !Continues(c, |out|) {
        ObserveStopped(out, ScanFrom(inp, i + 1, acc, f).values, c);
        return;
      }
    }
  }

  /** Accum: Accumx with a function that never fails. */
  method Accum<T, A>(inp: seq<T>, init: A, g: (A, T) -> A, c: Consumer) returns (out: seq<A>)
    ensures |out| == |Observe(inp, c)|
    ensures forall k :: 0 <= k < |out| ==> out[k] == Fold(g, init, inp[..k + 1])
  {
    var err: Option<()>;
    out, err := Accumx(inp, init, Lift<T, A, ()>(g), c);
    ScanLift<T, A, ()>(inp, init, g);
  }

  /** The pair forms hand f both values of each pair. */
  function Pairwise<T, U, A, E>(f: (A, T, U) -> (A, Option<E>)): (A, (T, U)) -> (A, Option<E>)
  {
    (a: A, p: (T, U)) => f(a, p.0, p.1)
  }

  method Accum2x<T, U, A, E>(inp: seq<(T, U)>, init: A, f: (A, T, U) -> (A, Option<E>), c: Consumer)
    returns (out: seq<A>, err: Option<E>)
    ensures out == Observe(ScanOf(inp, init, Pairwise(f)).values, c)
    ensures err == if Continues(c, |out|) then ScanOf(inp, init, Pairwise(f)).err else None
  {
    out, err := Accumx(inp, init, Pairwise(f), c);
  }

  method Accum2<T, U, A>(inp: seq<(T, U)>, init: A, g: (A, T, U) -> A, c: Consumer) returns (out: seq<A>)
    ensures |out| == |Observe(inp, c)|
    ensures forall k :: 0 <= k < |out| ==> out[k] == Fold((a: A, p: (T, U)) => g(a, p.0, p.1), init, inp[..k + 1])
  {
    out := Accum(inp, init, (a: A, p: (T, U)) => g(a, p.0, p.1), c);
  }

  /** The examples of the package's tests. */
  lemma AccumExamples()
    ensures Fold((a: int, b: int) => a + b, 0, [1, 2, 3][..1]) == 1
    ensures Fold((a: int, b: int) => a + b, 0, [1, 2, 3][..2]) == 3
    ensures Fold((a: int, b: int) => a + b, 0, [1, 2, 3][..3]) == 6
    ensures Fold((a: int, p: (int, int)) => a + p.0 * p.1, 0, [(0, 1), (1, 2), (2, 3)]) == 8
  {
    var add := (a: int, b: int) => a + b;
    assert [1, 2, 3][..2][..1] == [1, 2, 3][..1] && [1, 2, 3][..3][..2] == [1, 2, 3][..2];
    var idx := (a: int, p: (int, int)) => a + p.0 * p.1;
    var ps: seq<(int, int)> := [(0, 1), (1, 2), (2, 3)];
    assert ps[..1][..0] == [];
    assert Fold(idx, 0, ps[..1]) == 0;
    assert ps[..2][..1] == ps[..1];
    assert Fold(idx, 0, ps[..2]) == 2;
    assert ps[..3] == ps && ps[..3][..2] == ps[..2];
  }
}
