/** concat.go: concatenating a list of sequences, any of which may be nil
    (`None` here). */
module Concat {
  import opened Iter

  /** The values of one input: none for a nil one. */
  function Values<T>(inp: Option<seq<T>>): seq<T>
  {
    if inp.None? then [] else inp.value
  }

  /** Concat: the values of every non-nil input, inputs in argument order. */
  function Concat<T>(inps: seq<Option<seq<T>>>): (r: seq<T>)
  {
    if inps == [] then [] else Values(inps[0]) + Concat(inps[1..])
  }

  lemma ConcatCons<T>(x: Option<seq<T>>, rest: seq<Option<seq<T>>>)
    ensures Concat([x] + rest) == Values(x) + Concat(rest)
  {
    assert ([x] + rest)[1..] == rest;
  }

  /** Concatenation is associative over the argument list. */
  lemma {:induction false} ConcatAppend<T>(a: seq<Option<seq<T>>>, b: seq<Option<seq<T>>>)
    ensures Concat(a + b) == Concat(a) + Concat(b)
  {
    if a == [] {
      assert a + b == b;
    } else {
      var x, tail := a[0], a[1..];
      assert a == [x] + tail && a + b == [x] + (tail + b);
      ConcatCons(x, tail + b);
      ConcatCons(x, tail);
      ConcatAppend(tail, b);
    }
  }


  /** The basic cases: no inputs, one input, a nil input. */
  lemma ConcatBasics<T>(s: seq<T>, rest: seq<Option<seq<T>>>)
    ensures Concat<T>([]) == []
    ensures Concat([Some(s)]) == s
    ensures Concat([None] + rest) == Concat(rest)
  {
    assert ([None] + rest)[1..] == rest;
  }

  /** The non-nil inputs in order, flattened. */
  function Present<T>(inps: seq<Option<seq<T>>>): (r: seq<seq<T>>)
    ensures |r| <= |inps|
  {
    if inps == [] then []
    else if inps[0].None? then Present(inps[1..])
    else [inps[0].value] + Present(inps[1..])
  }

  /** Concat is the flattening of the non-nil inputs. */
  lemma {:induction false} ConcatFlattens<T>(inps: seq<Option<seq<T>>>)
    ensures Concat(inps) == Flatten(Present(inps))
  {
    if inps != [] {
      ConcatFlattens(inps[1..]);
      if inps[0].Some? {
        assert ([inps[0].value] + Present(inps[1..]))[1..] == Present(inps[1..]);
      }
    }
  }

  /** A consumer that stops while the inputs in `a` are still running sees
      nothing of any later input. */
  lemma ConcatStopsEarly<T>(a: seq<Option<seq<T>>>, b: seq<Option<seq<T>>>, c: Consumer)
    requires c.BreakAfter? && c.n <= |Concat(a)|
    ensures Observe(Concat(a + b), c) == Observe(Concat(a), c)
  {
    ConcatAppend(a, b);
    assert (Concat(a) + Concat(b))[..c.n] == Concat(a)[..c.n];
  }

  /** Concat2: the same over pair sequences. */
  function Concat2<T, U>(inps: seq<Option<seq<(T, U)>>>): (r: seq<(T, U)>)
  {
    Concat(inps)
  }

  lemma ConcatExample()
    ensures Concat([Some([1, 2, 3]), Some([4, 5, 6])]) == [1, 2, 3, 4, 5, 6]
    ensures Concat2([Some([(1, 4), (2, 5), (3, 6)]), Some([(100, 103), (101, 104), (102, 105)])])
      == [(1, 4), (2, 5), (3, 6), (100, 103), (101, 104), (102, 105)]
  {
    var inps: seq<Option<seq<int>>> := [Some([1, 2, 3]), Some([4, 5, 6])];
    assert inps[1..][1..] == [];
    var ps: seq<Option<seq<(int, int)>>> := [Some([(1, 4), (2, 5), (3, 6)]), Some([(100, 103), (101, 104), (102, 105)])];
    assert ps[1..][1..] == [];
  }
}
