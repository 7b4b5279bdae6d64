/** limit.go: at most n values of the input. */
module Limit {
  import opened Iter

  /** How many values a limit of n lets through from an input of length len:
      none when n <= 0, otherwise the smaller of n and len. */
  function Taken(n: int, len: nat): (r: nat)
    ensures r <= len
    ensures n <= 0 ==> r == 0
    ensures n > 0 ==> r == if n < len then n else len
  {
    if n <= 0 then 0 else if n < len then n else len
  }

  /** Limit: the range over the input stops after n values, and after the
      n-th value it breaks without asking the input for another one;
      `pulled` counts the values the input handed out. */
  method Limit<T>(s: seq<T>, n: int, c: Consumer) returns (out: seq<T>, pulled: nat)
    ensures out == Observe(s[..Taken(n, |s|)], c)
    ensures pulled == |out| <= Taken(n, |s|)
  {
    out, pulled := [], 0;
    if n <= 0 {
      return;
    }
    var left := n;
    for i := 0 to |s|
      invariant out == s[..i] && pulled == i && left == n - i > 0
      invariant Continues(c, i)
    {
      pulled := pulled + 1;
      out := out + [s[i]];
      if !Continues(c, |out|) {
        assert s[..Taken(n, |s|)][..i + 1] == out;
        return;
      }
      left := left - 1;
      if left <= 0 {
        assert out == s[..Taken(n, |s|)];
        return;
      }
    }
  }

  /** A limit of a limit is the smaller limit. */
  lemma LimitLimit<T>(s: seq<T>, a: int, b: int)
    ensures s[..Taken(a, |s|)][..Taken(b, Taken(a, |s|))] == s[..Taken(if a < b then a else b, |s|)]
  {
  }

  /** Limit2: the same over pairs. */
  method Limit2<T, U>(s: seq<(T, U)>, n: int, c: Consumer) returns (out: seq<(T, U)>, pulled: nat)
    ensures out == Observe(s[..Taken(n, |s|)], c)
    ensures pulled == |out| <= Taken(n, |s|)
  {
    out, pulled := Limit(s, n, c);
  }

  /** The package's examples: a limit beyond the input, and a limit of 0. */
  method LimitExamples() returns (a: seq<int>)
    ensures a == [1, 2, 3]
  {
    var pulled: nat;
    a, pulled := Limit([1, 2, 3], 10, Drain);
  }

  /** The guard on n: a limit of 0 yields nothing and pulls nothing. */
  method LimitZeroExample() returns (b: seq<int>, pulled: nat)
    ensures b == [] && pulled == 0
  {
    b, pulled := Limit([1, 2, 3], 0, Drain);
  }
}
