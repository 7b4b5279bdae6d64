/** n.go and skip.go: the first n values, and everything after them.  Both
    pull from the input one value at a time; `pulls` counts the calls of
    `next()`, the last of which may find the input used up. */
module N {
  import opened Iter
  import opened Limit

  /** FirstN: the captured n is counted down once per value handed on. */
  method FirstN<T>(s: seq<T>, n: int, c: Consumer) returns (out: seq<T>, pulls: nat)
    ensures out == Observe(s[..Taken(n, |s|)], c)
    ensures pulls == if Continues(c, |out|) && n > |s| then |s| + 1 else |out|
  {
    out, pulls := [], 0;
    var left := n;
    var j: nat := 0;
    while left > 0
      invariant j == pulls == |out| <= |s| && out == s[..j] && left == n - j
      invariant j == 0 || left >= 0
      invariant Continues(c, j)
      decreases left
    {
      var v := PullAt(s, j);
      pulls := pulls + 1;
      if v.None? {
        assert out == s[..Taken(n, |s|)];
        return;
      }
      j := j + 1;
      out := out + [v.value];
      if !Continues(c, |out|) {
        assert s[..Taken(n, |s|)][..j] == out;
        return;
      }
      left := left - 1;
    }
  }

  /** FirstN2: the same over pairs. */
  method FirstN2<T, U>(s: seq<(T, U)>, n: int, c: Consumer) returns (out: seq<(T, U)>, pulls: nat)
    ensures out == Observe(s[..Taken(n, |s|)], c)
    ensures pulls == if Continues(c, |out|) && n > |s| then |s| + 1 else |out|
  {
    out, pulls := FirstN(s, n, c);
  }

  /** SkipN: the first loop throws away up to n values, the second hands on
      the rest. */
  method SkipN<T>(s: seq<T>, n: int, c: Consumer) returns (out: seq<T>)
    ensures out == Observe(s[Taken(n, |s|)..], c)
  {
    out := [];
    var left := n;
    var j: nat := 0;
    while left > 0
      invariant j <= |s| && left == n - j
      invariant j == 0 || left >= 0
      decreases left
    {
      var v := PullAt(s, j);
      if v.None? {
        return;
      }
      j := j + 1;
      left := left - 1;
    }
    assert j == Taken(n, |s|);
    ghost var start := j;
    while true
      invariant start <= j <= |s| && out == s[start..j] && Continues(c, |out|)
      decreases |s| - j
    {
      var v := PullAt(s, j);
      if v.None? {
        return;
      }
      j := j + 1;
      out := out + [v.value];
      if !Continues(c, |out|) {
        assert s[start..][..|out|] == out;
        return;
      }
    }
  }

  /** SkipN2: the same over pairs. */
  method SkipN2<T, U>(s: seq<(T, U)>, n: int, c: Consumer) returns (out: seq<(T, U)>)
    ensures out == Observe(s[Taken(n, |s|)..], c)
  {
    out := SkipN(s, n, c);
  }

  /** What FirstN hands on and what SkipN hands on, for the same n, make up
      the whole input. */
  lemma FirstNThenSkipN<T>(s: seq<T>, n: int)
    ensures s[..Taken(n, |s|)] + s[Taken(n, |s|)..] == s
  {
  }

  /** Skipping a and then b is skipping a + b, when neither is negative. */
  lemma SkipNSkipN<T>(s: seq<T>, a: int, b: int)
    requires a >= 0 && b >= 0
    ensures s[Taken(a, |s|)..][Taken(b, |s| - Taken(a, |s|))..] == s[Taken(a + b, |s|)..]
  {
  }

  /** The package's examples. */
  method FirstNExample() returns (a: seq<int>, p: nat)
    ensures a == [1, 2] && p == 2
  {
    a, p := FirstN([1, 2, 3], 2, Drain);
  }

  method SkipNExample() returns (b: seq<int>)
    ensures b == []
  {
    b := SkipN([1, 2, 3], 20, Drain);
  }
}
