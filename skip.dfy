/** skip.go: SkipUntil.  The package builds it from Filter and a predicate
    that closes over a `skipping` flag; the model runs that Filter loop with
    the flag as a local variable, created once per call.  `calls` counts the
    calls of f.  (SkipN and SkipN2 of skip.go are the same code as n.go's and
    are modelled once, in module N.) */
module Skip {
  import opened Iter

  /** The position of the first value f accepts, or |s| if there is none. */
  function FirstMatch<T>(s: seq<T>, f: T -> bool, i: nat): (r: nat)
    requires i <= |s|
    ensures i <= r <= |s|
    ensures r < |s| ==> f(s[r])
    ensures forall k :: i <= k < r ==> !f(s[k])
    decreases |s| - i
  {
    if i == |s| || f(s[i]) then i else FirstMatch(s, f, i + 1)
  }

  /** SkipUntil: from the first value f accepts to the end, or nothing. */
  method SkipUntil<T>(s: seq<T>, f: T -> bool, c: Consumer) returns (out: seq<T>, calls: nat)
    ensures out == Observe(s[FirstMatch(s, f, 0)..], c)
    ensures calls == if FirstMatch(s, f, 0) < |s| then FirstMatch(s, f, 0) + 1 else |s|
  {
    var skipping := true;
    out, calls := [], 0;
    ghost var m := FirstMatch(s, f, 0);
    for i := 0 to |s|
      invariant skipping <==> i <= m
      invariant skipping ==> out == [] && calls == i
      invariant !skipping ==> out == s[m..i] && calls == m + 1
      invariant Continues(c, |out|)
    {
      // the predicate handed to Filter
      var keep: bool;
      if !skipping {
        keep := true;
      } else {
        calls := calls + 1;
        if f(s[i]) {
          skipping := false;
        }
        keep := !skipping;
      }
      if keep {
        out := out + [s[i]];
        if !Continues(c, |out|) {
          assert s[m..][..|out|] == out;
          return;
        }
      }
    }
  }

  /** What SkipUntil hands on is a suffix of the input that starts with a
      value f accepts, and every value before it is one f rejects; values
      after the first match pass whatever f says of them. */
  lemma SkipUntilSuffix<T>(s: seq<T>, f: T -> bool)
    ensures var r := s[FirstMatch(s, f, 0)..];
      && |r| <= |s| && r == s[|s| - |r|..]
      && (r != [] ==> f(r[0]))
      && (forall k :: 0 <= k < |s| - |r| ==> !f(s[k]))
  {
  }

  /** If f accepts nothing, nothing comes out; if f accepts the first value,
      everything does. */
  lemma SkipUntilExtremes<T>(s: seq<T>, f: T -> bool)
    ensures (forall k :: 0 <= k < |s| ==> !f(s[k])) ==> s[FirstMatch(s, f, 0)..] == []
    ensures s != [] && f(s[0]) ==> s[FirstMatch(s, f, 0)..] == s
  {
  }

  /** The package's example: 1..10 from the first value above 7. */
  method SkipUntilExample() returns (out: seq<int>)
    ensures out == [8, 9, 10]
  {
    var calls: nat;
    var s := [1, 2, 3, 4, 5, 6, 7, 8, 9, 10];
    out, calls := SkipUntil(s, x => x > 7, Drain);
    assert FirstMatch(s, x => x > 7, 0) == 7;
  }
}
