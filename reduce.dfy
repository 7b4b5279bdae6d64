/** reduce.go: a fold to one value, as the last value of Accumx's output
    (or init when there is none) together with Accumx's error cell. */
module Reduce {
  import opened Iter
  import opened Accum
  import opened Last

  /** Reducex.  Go's Last hands back a zero value when the output is empty;
      that value is never used, since Reducex then returns init, so init is
      passed in its place. */
  function Reducex<T, A, E>(inp: seq<T>, init: A, f: (A, T) -> (A, Option<E>)): (A, Option<E>)
  {
    var s := ScanOf(inp, init, f);
    var (last, ok) := LastOf(s.values, init);
    if ok then (last, s.err) else (init, s.err)
  }

  /** Reduce: Reducex with a function that never fails. */
  function Reduce<T, A>(inp: seq<T>, init: A, g: (A, T) -> A): A
  {
    Reducex<T, A, ()>(inp, init, Lift(g)).0
  }

  /** Reducex is the fold with failure: the fold of all of inp, or, on the
      first error, the accumulator from before the failing value and that
      error. */
  lemma ReducexFolds<T, A, E>(inp: seq<T>, init: A, f: (A, T) -> (A, Option<E>))
    ensures Reducex(inp, init, f) == FoldX(f, init, inp)
  {
    var s := ScanOf(inp, init, f);
    var k := |s.values|;
    ScanFolds(inp, init, f);
    assert inp[..0] == [];
    if s.err.None? {
      assert inp[..|inp|] == inp;
      if k > 0 {
        assert FoldX(f, init, inp[..k - 1 + 1]) == (s.values[k - 1], None);
      }
    } else {
      FoldXNext(f, init, inp, k);
      if k > 0 {
        assert FoldX(f, init, inp[..k - 1 + 1]) == (s.values[k - 1], None);
      }
      FoldXStuck(f, init, inp, k + 1);
    }
  }

  /** Reduce is the left fold: f(f(f(init, v1), v2), v3) for three values. */
  lemma ReduceFolds<T, A>(inp: seq<T>, init: A, g: (A, T) -> A)
    ensures Reduce(inp, init, g) == Fold(g, init, inp)
  {
    ReducexFolds<T, A, ()>(inp, init, Lift(g));
    FoldXLift<T, A, ()>(g, init, inp);
  }

  /** Reduce2x and Reduce2 hand f both values of each pair. */
  function Reduce2x<T, U, A, E>(inp: seq<(T, U)>, init: A, f: (A, T, U) -> (A, Option<E>)): (A, Option<E>)
  {
    Reducex(inp, init, Pairwise(f))
  }

  function Reduce2<T, U, A>(inp: seq<(T, U)>, init: A, g: (A, T, U) -> A): A
  {
    Reduce(inp, init, (a: A, p: (T, U)) => g(a, p.0, p.1))
  }

  lemma Reduce2Folds<T, U, A>(inp: seq<(T, U)>, init: A, g: (A, T, U) -> A)
    ensures Reduce2(inp, init, g) == Fold((a: A, p: (T, U)) => g(a, p.0, p.1), init, inp)
  {
    ReduceFolds(inp, init, (a: A, p: (T, U)) => g(a, p.0, p.1));
  }

  /** The examples of the package's tests. */
  lemma ReduceExamples()
    ensures Reduce([1, 2, 3], 0, (a: int, b: int) => a + b) == 6
    ensures Reduce([], 0, (a: int, b: int) => a + b) == 0
  {
    var add := (a: int, b: int) => a + b;
    ReduceFolds([1, 2, 3], 0, add);
    ReduceFolds([], 0, add);
    var s := [1, 2, 3];
    assert s[..2][..1] == s[..1] && s[..1][..0] == [] && s[..3][..2] == s[..2] && s[..3] == s;
  }
}
