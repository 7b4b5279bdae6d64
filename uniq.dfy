/** uniq.go: dropping adjacent duplicates. */
module Uniq {
  import opened Iter

  /** Uniq's loop from position i, with prev the last value handed on. */
  function UniqFrom<T(==)>(s: seq<T>, i: nat, prev: T): (r: seq<T>)
    requires i <= |s|
    decreases |s| - i
  {
    if i == |s| then []
    else if s[i] == prev then UniqFrom(s, i + 1, prev)
    else [s[i]] + UniqFrom(s, i + 1, s[i])
  }

  function UniqOf<T(==)>(s: seq<T>): seq<T>
  {
    if s == [] then [] else [s[0]] + UniqFrom(s, 1, s[0])
  }

  predicate NoAdjacentRepeats<T(==)>(s: seq<T>)
  {
    forall k :: 0 < k < |s| ==> s[k - 1] != s[k]
  }

  /** From position i on, no output value repeats its predecessor, nor prev;
      and every output is one of the inputs from i on, in order. */
  lemma {:induction false} UniqFromShape<T>(s: seq<T>, i: nat, prev: T)
    requires i <= |s|
    ensures var r := UniqFrom(s, i, prev);
      && NoAdjacentRepeats(r)
      && (r != [] ==> r[0] != prev)
      && Subsequence(r, s[i..])
    decreases |s| - i
  {
    if i < |s| {
      UniqFromShape(s, i + 1, prev);
      UniqFromShape(s, i + 1, s[i]);
      assert s[i..] == [s[i]] + s[i + 1..];
      if s[i] == prev {
        SubsequenceDrop(UniqFrom(s, i + 1, prev), s[i + 1..], s[i]);
      } else {
        var r := UniqFrom(s, i, prev);
        assert r[1..] == UniqFrom(s, i + 1, s[i]);
      }
    }
  }

  /** Uniq: no two adjacent outputs are equal, the first input always comes
      out first, and the output is a subsequence of the input. */
  lemma UniqShape<T>(s: seq<T>)
    ensures NoAdjacentRepeats(UniqOf(s))
    ensures s != [] ==> UniqOf(s) != [] && UniqOf(s)[0] == s[0]
    ensures s == [] ==> UniqOf(s) == []
    ensures Subsequence(UniqOf(s), s)
  {
    if s != [] {
      UniqFromShape(s, 1, s[0]);
      assert UniqOf(s)[1..] == UniqFrom(s, 1, s[0]);
      assert s[1..] == s[1..][0..];
    }
  }

  /** The input values that start a run of equal neighbours, from position
      i on, in order: s[k] for every k with k == 0 or s[k] != s[k - 1].
      A reference for Uniq stated over input positions, with no `prev`. */
  function RunStarts<T(==)>(s: seq<T>, i: nat): (r: seq<T>)
    requires i <= |s|
    ensures |r| <= |s| - i
    decreases |s| - i
  {
    if i == |s| then []
    else if i > 0 && s[i] == s[i - 1] then RunStarts(s, i + 1)
    else [s[i]] + RunStarts(s, i + 1)
  }

  /** Inside Uniq's loop, prev is always the input just before position i,
      so the input at position k is dropped exactly when it equals the one
      at k - 1, and handed on otherwise. */
  lemma {:induction false} UniqDropsOnlyRepeats<T>(s: seq<T>, i: nat)
    requires 0 < i <= |s|
    ensures UniqFrom(s, i, s[i - 1]) == RunStarts(s, i)
    decreases |s| - i
  {
    if i < |s| {
      UniqDropsOnlyRepeats(s, i + 1);
      if s[i] == s[i - 1] {
        assert UniqFrom(s, i, s[i - 1]) == UniqFrom(s, i + 1, s[i]);
      }
    }
  }

  /** Only adjacent duplicates are removed: Uniq's output is exactly the
      inputs that differ from the input before them, plus the first one. */
  lemma UniqIsRunStarts<T>(s: seq<T>)
    ensures UniqOf(s) == RunStarts(s, 0)
  {
    if s != [] {
      UniqDropsOnlyRepeats(s, 1);
    }
  }

  /** Input with no adjacent repeats comes out unchanged. */
  lemma {:induction false} UniqKeepsDistinctNeighbours<T>(s: seq<T>, i: nat)
    requires 0 < i <= |s| && NoAdjacentRepeats(s)
    ensures UniqFrom(s, i, s[i - 1]) == s[i..]
    decreases |s| - i
  {
    if i < |s| {
      UniqKeepsDistinctNeighbours(s, i + 1);
      assert s[i..] == [s[i]] + s[i + 1..];
    }
  }

  /** Uniq is idempotent. */
  lemma UniqIdempotent<T>(s: seq<T>)
    ensures UniqOf(UniqOf(s)) == UniqOf(s)
  {
    UniqShape(s);
    var u := UniqOf(s);
    if u != [] {
      UniqKeepsDistinctNeighbours(u, 1);
    }
  }

  /** One pulled value v = s[j] in Uniq's loop: dropped when it equals prev,
      handed on otherwise; prev then becomes the value handed on. */
  method UniqVisit<T(==)>(s: seq<T>, j: nat, prev0: T, v: T, c: Consumer, out0: seq<T>, ghost whole: seq<T>)
    returns (out: seq<T>, prev: T, stopped: bool)
    requires j < |s| && v == s[j] && Continues(c, |out0|) && whole == out0 + UniqFrom(s, j, prev0)
    ensures prev == v
    ensures stopped ==> out == Observe(whole, c)
    ensures !stopped ==> Continues(c, |out|) && whole == out + UniqFrom(s, j + 1, prev)
  {
    out, prev, stopped := out0, prev0, false;
    if v == prev {
      assert UniqFrom(s, j, prev0) == UniqFrom(s, j + 1, prev0);
      return;
    }
    ghost var rest := UniqFrom(s, j + 1, v);
    assert UniqFrom(s, j, prev0) == [v] + rest;
    assert whole == (out + [v]) + rest;
    out := out + [v];
    prev := v;
    if !Continues(c, |out|) {
      ObserveStopped(out, rest, c);
      stopped := true;
    }
  }

  /** Uniq: the first pull is handed on unconditionally; then `prev` is
      replaced by every value handed on. */
  method Uniq<T(==)>(s: seq<T>, c: Consumer) returns (out: seq<T>)
    ensures out == Observe(UniqOf(s), c)
  {
    out := [];
    var j: nat := 0;
    var first := PullAt(s, j);
    if first.None? {
      return;
    }
    j := j + 1;
    var prev := first.value;
    out := [prev];
    if !Continues(c, |out|) {
      ObserveStopped(out, UniqFrom(s, 1, prev), c);
      return;
    }
    ghost var whole := UniqOf(s);
    while true
      invariant 1 <= j <= |s| && Continues(c, |out|)
      invariant whole == out + UniqFrom(s, j, prev)
      decreases |s| - j
    {
      var v := PullAt(s, j);
      if v.None? {
        return;
      }
      var stopped;
      out, prev, stopped := UniqVisit(s, j, prev, v.value, c, out, whole);
      if stopped {
        return;
      }
      j := j + 1;
    }
  }

  /** Cases of the package's Uniq test. */
  lemma UniqExamples()
    ensures UniqOf([1, 2, 2, 1]) == [1, 2, 1]
    ensures UniqOf([1, 2, 1, 2]) == [1, 2, 1, 2]
    ensures UniqOf([1, 2, 2, 1, 2]) == [1, 2, 1, 2]
  {
    UniqKeepsDistinctNeighbours([1, 2, 1, 2], 1);
  }

  /** The examples in Uniq's documentation, the first also ExampleUniq's:
      only adjacent duplicates go. */
  lemma UniqDocExamples()
    ensures UniqOf([1, 1, 2, 2, 2, 3]) == [1, 2, 3]
    ensures UniqOf([1, 2, 1, 1, 2, 2, 3]) == [1, 2, 1, 2, 3]
  {
  }
}
