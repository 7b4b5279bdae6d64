/** The lockstep walks of comm.go: CommLeftFunc keeps the values of `left`
    that no value of `right` cancels, CommBothFunc keeps those that one does.
    The pull cursor on `right` is its position j. */
module Comm {
  import opened Iter

  /** The inner loop on `right`: from position j, pass every value that l is
      strictly after. */
  function SkipPast<T>(l: T, right: seq<T>, j: nat, cmp: (T, T) -> int): (r: nat)
    requires j <= |right|
    ensures j <= r <= |right|
    ensures r < |right| ==> cmp(l, right[r]) <= 0
    ensures forall k :: j <= k < r ==> cmp(l, right[k]) > 0
    decreases |right| - j
  {
    if j < |right| && cmp(l, right[j]) > 0 then SkipPast(l, right, j + 1, cmp) else j
  }

  /** The skip stops at the first right value that l is not after. */
  lemma SkipStops<T>(l: T, right: seq<T>, j: nat, cmp: (T, T) -> int)
    requires j <= |right| && (j == |right| || cmp(l, right[j]) <= 0)
    ensures SkipPast(l, right, j, cmp) == j
  {
  }

  /** Whether l is cancelled by the right value reached after skipping. */
  predicate Cancels<T>(l: T, right: seq<T>, k: nat, cmp: (T, T) -> int)
  {
    k < |right| && cmp(l, right[k]) == 0
  }

  /** Where right stands after x has been compared against it from j: past
      the skipped values, and past the cancelling one if there is one. */
  function NextRight<T>(x: T, right: seq<T>, j: nat, cmp: (T, T) -> int): (r: nat)
    requires j <= |right|
    ensures j <= r <= |right|
  {
    var k := SkipPast(x, right, j, cmp);
    if Cancels(x, right, k, cmp) then k + 1 else k
  }

  /** What CommLeftFunc yields for x compared against right from j. */
  function LeftKept<T>(x: T, right: seq<T>, j: nat, cmp: (T, T) -> int): seq<T>
    requires j <= |right|
  {
    if Cancels(x, right, SkipPast(x, right, j, cmp), cmp) then [] else [x]
  }

  /** What CommBothFunc yields for x compared against right from j. */
  function BothKept<T>(x: T, right: seq<T>, j: nat, cmp: (T, T) -> int): seq<T>
    requires j <= |right|
  {
    if Cancels(x, right, SkipPast(x, right, j, cmp), cmp) then [x] else []
  }

  /** CommLeftFunc from position i of left and position j of right. */
  function CommLeftFrom<T>(left: seq<T>, right: seq<T>, i: nat, j: nat, cmp: (T, T) -> int): seq<T>
    requires i <= |left| && j <= |right|
    decreases |left| - i
  {
    if i == |left| then []
    else LeftKept(left[i], right, j, cmp) + CommLeftFrom(left, right, i + 1, NextRight(left[i], right, j, cmp), cmp)
  }

  /** CommBothFunc from position i of left and position j of right; it ends
      as soon as right is used up. */
  function CommBothFrom<T>(left: seq<T>, right: seq<T>, i: nat, j: nat, cmp: (T, T) -> int): seq<T>
    requires i <= |left| && j <= |right|
    decreases |left| - i
  {
    if i == |left| || j == |right| then []
    else BothKept(left[i], right, j, cmp) + CommBothFrom(left, right, i + 1, NextRight(left[i], right, j, cmp), cmp)
  }

  function CommLeftOf<T>(left: seq<T>, right: seq<T>, cmp: (T, T) -> int): seq<T>
  {
    CommLeftFrom(left, right, 0, 0, cmp)
  }

  function CommBothOf<T>(left: seq<T>, right: seq<T>, cmp: (T, T) -> int): seq<T>
  {
    CommBothFrom(left, right, 0, 0, cmp)
  }

  // ---------------------------------------------------------------------
  // Steps of the walks, one lemma each, so that the methods stay small.

  /** One comparison of x against right from j, in both outcomes. */
  lemma Compared<T>(x: T, right: seq<T>, j: nat, cmp: (T, T) -> int)
    requires j <= |right|
    ensures var k := SkipPast(x, right, j, cmp);
      if Cancels(x, right, k, cmp)
      then NextRight(x, right, j, cmp) == k + 1 && LeftKept(x, right, j, cmp) == [] && BothKept(x, right, j, cmp) == [x]
      else NextRight(x, right, j, cmp) == k && LeftKept(x, right, j, cmp) == [x] && BothKept(x, right, j, cmp) == []
  {
  }

  /** The first step of CommLeftFunc's walk. */
  lemma LeftUnfold<T>(left: seq<T>, right: seq<T>, i: nat, j: nat, cmp: (T, T) -> int)
    requires i < |left| && j <= |right|
    ensures CommLeftFrom(left, right, i, j, cmp)
      == LeftKept(left[i], right, j, cmp) + CommLeftFrom(left, right, i + 1, NextRight(left[i], right, j, cmp), cmp)
  {
  }

  /** The first step of CommBothFunc's walk while right lasts. */
  lemma BothUnfold<T>(left: seq<T>, right: seq<T>, i: nat, j: nat, cmp: (T, T) -> int)
    requires i < |left| && j < |right|
    ensures CommBothFrom(left, right, i, j, cmp)
      == BothKept(left[i], right, j, cmp) + CommBothFrom(left, right, i + 1, NextRight(left[i], right, j, cmp), cmp)
  {
  }

  lemma LeftDrops<T>(out: seq<T>, left: seq<T>, right: seq<T>, i: nat, j: nat, cmp: (T, T) -> int, whole: seq<T>)
    requires i < |left| && j <= |right| && whole == out + CommLeftFrom(left, right, i, j, cmp)
    requires Cancels(left[i], right, SkipPast(left[i], right, j, cmp), cmp)
    ensures whole == out + CommLeftFrom(left, right, i + 1, SkipPast(left[i], right, j, cmp) + 1, cmp)
  {
    Compared(left[i], right, j, cmp);
    LeftUnfold(left, right, i, j, cmp);
    ThenNothing(out, CommLeftFrom(left, right, i, j, cmp), CommLeftFrom(left, right, i + 1, NextRight(left[i], right, j, cmp), cmp), whole);
  }

  lemma LeftKeeps<T>(out: seq<T>, left: seq<T>, right: seq<T>, i: nat, j: nat, cmp: (T, T) -> int, whole: seq<T>)
    requires i < |left| && j <= |right| && whole == out + CommLeftFrom(left, right, i, j, cmp)
    requires !Cancels(left[i], right, SkipPast(left[i], right, j, cmp), cmp)
    ensures whole == (out + [left[i]]) + CommLeftFrom(left, right, i + 1, SkipPast(left[i], right, j, cmp), cmp)
  {
    Compared(left[i], right, j, cmp);
    LeftUnfold(left, right, i, j, cmp);
    ThenOne(out, CommLeftFrom(left, right, i, j, cmp), left[i], CommLeftFrom(left, right, i + 1, NextRight(left[i], right, j, cmp), cmp), whole);
  }

  lemma BothKeeps<T>(out: seq<T>, left: seq<T>, right: seq<T>, i: nat, j: nat, cmp: (T, T) -> int, whole: seq<T>)
    requires i < |left| && j < |right| && whole == out + CommBothFrom(left, right, i, j, cmp)
    requires Cancels(left[i], right, SkipPast(left[i], right, j, cmp), cmp)
    ensures whole == (out + [left[i]]) + CommBothFrom(left, right, i + 1, SkipPast(left[i], right, j, cmp) + 1, cmp)
  {
    Compared(left[i], right, j, cmp);
    BothUnfold(left, right, i, j, cmp);
    ThenOne(out, CommBothFrom(left, right, i, j, cmp), left[i], CommBothFrom(left, right, i + 1, NextRight(left[i], right, j, cmp), cmp), whole);
  }

  lemma BothDrops<T>(out: seq<T>, left: seq<T>, right: seq<T>, i: nat, j: nat, cmp: (T, T) -> int, whole: seq<T>)
    requires i < |left| && j < |right| && whole == out + CommBothFrom(left, right, i, j, cmp)
    requires !Cancels(left[i], right, SkipPast(left[i], right, j, cmp), cmp)
    ensures whole == out + CommBothFrom(left, right, i + 1, SkipPast(left[i], right, j, cmp), cmp)
  {
    Compared(left[i], right, j, cmp);
    BothUnfold(left, right, i, j, cmp);
    ThenNothing(out, CommBothFrom(left, right, i, j, cmp), CommBothFrom(left, right, i + 1, NextRight(left[i], right, j, cmp), cmp), whole);
  }

  /** The inner loop of both walks: pull from right while l is after the
      pulled value. */
  method SkipRight<T>(l: T, right: seq<T>, j0: nat, cmp: (T, T) -> int) returns (j: nat, r: Option<T>, cv: int)
    requires j0 < |right|
    ensures j == SkipPast(l, right, j0, cmp) && r == PullAt(right, j)
    ensures r.Some? ==> cv == cmp(l, r.value)
  {
    j := j0;
    r := PullAt(right, j);
    cv := cmp(l, r.value);
    while r.Some? && cv > 0
      invariant j0 <= j <= |right| && r == PullAt(right, j)
      invariant r.Some? ==> cv == cmp(l, r.value)
      invariant SkipPast(l, right, j, cmp) == SkipPast(l, right, j0, cmp)
      decreases |right| - j
    {
      j := j + 1;
      r := PullAt(right, j);
      if r.Some? {
        cv := cmp(l, r.value);
      }
    }
    SkipStops(l, right, j, cmp);
  }

  /** Compare l against right from position j0, where r0 was pulled: skip
      the values l is after and say whether the one reached equals l. */
  method Meet<T>(l: T, right: seq<T>, j0: nat, r0: Option<T>, cmp: (T, T) -> int) returns (j: nat, r: Option<T>, cancels: bool)
    requires j0 <= |right| && r0 == PullAt(right, j0)
    ensures j == SkipPast(l, right, j0, cmp) && r == PullAt(right, j)
    ensures cancels == Cancels(l, right, j, cmp)
  {
    if r0.None? {
      SkipStops(l, right, j0, cmp);
      return j0, r0, false;
    }
    var cv;
    j, r, cv := SkipRight(l, right, j0, cmp);
    cancels := r.Some? && cv == 0;
  }

  /** One turn of CommLeftFunc's loop: left[i] is cancelled or yielded. */
  method LeftVisit<T>(left: seq<T>, right: seq<T>, i: nat, j0: nat, r0: Option<T>, cmp: (T, T) -> int, c: Consumer,
                      out0: seq<T>, ghost whole: seq<T>)
    returns (out: seq<T>, j: nat, r: Option<T>, stopped: bool)
    requires i < |left| && j0 <= |right| && r0 == PullAt(right, j0)
    requires Continues(c, |out0|) && whole == out0 + CommLeftFrom(left, right, i, j0, cmp)
    ensures j <= |right| && r == PullAt(right, j)
    ensures stopped ==> out == Observe(whole, c)
    ensures !stopped ==> Continues(c, |out|) && whole == out + CommLeftFrom(left, right, i + 1, j, cmp)
  {
    var l := left[i];
    var cancels;
    out, stopped := out0, false;
    j, r, cancels := Meet(l, right, j0, r0, cmp);
    if cancels {
      LeftDrops(out, left, right, i, j0, cmp, whole);
      j := j + 1;
      r := PullAt(right, j);
    } else {
      LeftKeeps(out, left, right, i, j0, cmp, whole);
      out := out + [l];
      if !Continues(c, |out|) {
        ObserveStopped(out, CommLeftFrom(left, right, i + 1, j, cmp), c);
        stopped := true;
      }
    }
  }

  /** CommLeftFunc. */
  method CommLeftFunc<T>(left: seq<T>, right: seq<T>, cmp: (T, T) -> int, c: Consumer) returns (out: seq<T>)
    ensures out == Observe(CommLeftOf(left, right, cmp), c)
  {
    ghost var whole := CommLeftOf(left, right, cmp);
    var j: nat := 0;
    var r := PullAt(right, j);
    out := [];
    for i := 0 to |left|
      invariant j <= |right| && r == PullAt(right, j)
      invariant Continues(c, |out|)
      invariant whole == out + CommLeftFrom(left, right, i, j, cmp)
    {
      var stopped;
      out, j, r, stopped := LeftVisit(left, right, i, j, r, cmp, c, out, whole);
      if stopped {
        return;
      }
    }
  }

  /** CommRightFunc is CommLeftFunc with the arguments swapped. */
  method CommRightFunc<T>(left: seq<T>, right: seq<T>, cmp: (T, T) -> int, c: Consumer) returns (out: seq<T>)
    ensures out == Observe(CommLeftOf(right, left, cmp), c)
    ensures Subsequence(out, right)
  {
    out := CommLeftFunc(right, left, cmp, c);
    CommLeftSubsequence(right, left, cmp);
    SubsequencePrefix(CommLeftOf(right, left, cmp), right, |out|);
  }

  /** Once right is used up, CommBothFunc has nothing more to yield. */
  lemma BothEnded<T>(out: seq<T>, left: seq<T>, right: seq<T>, i: nat, cmp: (T, T) -> int, c: Consumer, whole: seq<T>)
    requires i <= |left| && Continues(c, |out|)
    requires whole == out + CommBothFrom(left, right, i, |right|, cmp)
    ensures out == Observe(whole, c)
  {
    assert whole == out;
  }

  /** One turn of CommBothFunc's loop: the walk ends if right is used up,
      otherwise left[i] is yielded when a right value cancels it. */
  method BothVisit<T>(left: seq<T>, right: seq<T>, i: nat, j0: nat, r0: Option<T>, cmp: (T, T) -> int, c: Consumer,
                      out0: seq<T>, ghost whole: seq<T>)
    returns (out: seq<T>, j: nat, r: Option<T>, stopped: bool)
    requires i < |left| && j0 <= |right| && r0 == PullAt(right, j0)
    requires Continues(c, |out0|) && whole == out0 + CommBothFrom(left, right, i, j0, cmp)
    ensures j <= |right| && r == PullAt(right, j)
    ensures stopped ==> out == Observe(whole, c)
    ensures !stopped ==> Continues(c, |out|) && whole == out + CommBothFrom(left, right, i + 1, j, cmp)
  {
    var l := left[i];
    out, j, r, stopped := out0, j0, r0, false;
    if r.None? {
      BothEnded(out, left, right, i, cmp, c, whole);
      stopped := true;
      return;
    }
    var cancels;
    j, r, cancels := Meet(l, right, j0, r0, cmp);
    if cancels {
      BothKeeps(out, left, right, i, j0, cmp, whole);
      out := out + [l];
      if !Continues(c, |out|) {
        ObserveStopped(out, CommBothFrom(left, right, i + 1, j + 1, cmp), c);
        stopped := true;
        return;
      }
      j := j + 1;
      r := PullAt(right, j);
    } else {
      BothDrops(out, left, right, i, j0, cmp, whole);
    }
  }

  /** CommBothFunc. */
  method CommBothFunc<T>(left: seq<T>, right: seq<T>, cmp: (T, T) -> int, c: Consumer) returns (out: seq<T>)
    ensures out == Observe(CommBothOf(left, right, cmp), c)
  {
    ghost var whole := CommBothOf(left, right, cmp);
    var j: nat := 0;
    var r := PullAt(right, j);
    out := [];
    for i := 0 to |left|
      invariant j <= |right| && r == PullAt(right, j)
      invariant Continues(c, |out|)
      invariant whole == out + CommBothFrom(left, right, i, j, cmp)
    {
      var stopped;
      out, j, r, stopped := BothVisit(left, right, i, j, r, cmp, c, out, whole);
      if stopped {
        return;
      }
    }
  }

  // ---------------------------------------------------------------------
  // Properties

  /** CommLeftFunc yields values of left only, in left's order. */
  lemma {:induction false} CommLeftFromSubsequence<T>(left: seq<T>, right: seq<T>, i: nat, j: nat, cmp: (T, T) -> int)
    requires i <= |left| && j <= |right|
    ensures Subsequence(CommLeftFrom(left, right, i, j, cmp), left[i..])
    decreases |left| - i
  {
    if i < |left| {
      var x, j' := left[i], NextRight(left[i], right, j, cmp);
      var rest := CommLeftFrom(left, right, i + 1, j', cmp);
      assert left[i..] == [x] + left[i + 1..];
      CommLeftFromSubsequence(left, right, i + 1, j', cmp);
      if LeftKept(x, right, j, cmp) == [] {
        assert CommLeftFrom(left, right, i, j, cmp) == rest;
        SubsequenceDrop(rest, left[i + 1..], x);
      } else {
        assert CommLeftFrom(left, right, i, j, cmp) == [x] + rest;
      }
    }
  }

  lemma CommLeftSubsequence<T>(left: seq<T>, right: seq<T>, cmp: (T, T) -> int)
    ensures Subsequence(CommLeftOf(left, right, cmp), left)
  {
    CommLeftFromSubsequence(left, right, 0, 0, cmp);
    assert left[0..] == left;
  }

  /** CommBothFunc yields values of left only, in left's order. */
  lemma {:induction false} CommBothFromSubsequence<T>(left: seq<T>, right: seq<T>, i: nat, j: nat, cmp: (T, T) -> int)
    requires i <= |left| && j <= |right|
    ensures Subsequence(CommBothFrom(left, right, i, j, cmp), left[i..])
    decreases |left| - i
  {
    if i < |left| && j < |right| {
      var x, j' := left[i], NextRight(left[i], right, j, cmp);
      var rest := CommBothFrom(left, right, i + 1, j', cmp);
      assert left[i..] == [x] + left[i + 1..];
      CommBothFromSubsequence(left, right, i + 1, j', cmp);
      if BothKept(x, right, j, cmp) == [] {
        assert CommBothFrom(left, right, i, j, cmp) == rest;
        SubsequenceDrop(rest, left[i + 1..], x);
      } else {
        assert CommBothFrom(left, right, i, j, cmp) == [x] + rest;
      }
    }
  }

  /** Once right is used up, every remaining left value passes through. */
  lemma {:induction false} CommLeftAfterRight<T>(left: seq<T>, right: seq<T>, i: nat, cmp: (T, T) -> int)
    requires i <= |left|
    ensures CommLeftFrom(left, right, i, |right|, cmp) == left[i..]
    decreases |left| - i
  {
    if i < |left| {
      CommLeftAfterRight(left, right, i + 1, cmp);
      assert left[i..] == [left[i]] + left[i + 1..];
    }
  }

  lemma MultisetCons<T>(x: T, a: seq<T>, b: seq<T>, rest: seq<T>)
    requires multiset(a) + multiset(b) == multiset(rest)
    ensures multiset([x] + a) + multiset(b) == multiset([x] + rest)
    ensures multiset(a) + multiset([x] + b) == multiset([x] + rest)
  {
  }

  /** One step of CommSplitsLeft: left[i] goes to exactly one of the walks. */
  lemma SplitStep<T>(left: seq<T>, right: seq<T>, i: nat, j: nat, cmp: (T, T) -> int)
    requires i < |left| && j < |right|
    requires var j' := NextRight(left[i], right, j, cmp);
      multiset(CommLeftFrom(left, right, i + 1, j', cmp)) + multiset(CommBothFrom(left, right, i + 1, j', cmp))
      == multiset(left[i + 1..])
    ensures multiset(CommLeftFrom(left, right, i, j, cmp)) + multiset(CommBothFrom(left, right, i, j, cmp))
      == multiset(left[i..])
  {
    var x, j' := left[i], NextRight(left[i], right, j, cmp);
    var l', b' := CommLeftFrom(left, right, i + 1, j', cmp), CommBothFrom(left, right, i + 1, j', cmp);
    assert left[i..] == [x] + left[i + 1..];
    MultisetCons(x, l', b', left[i + 1..]);
    if Cancels(x, right, SkipPast(x, right, j, cmp), cmp) {
      assert CommLeftFrom(left, right, i, j, cmp) == l';
      assert CommBothFrom(left, right, i, j, cmp) == [x] + b';
    } else {
      assert CommLeftFrom(left, right, i, j, cmp) == [x] + l';
      assert CommBothFrom(left, right, i, j, cmp) == b';
    }
  }

  /** Whatever the ordering function, the two walks split left between them:
      each value of left is kept by exactly one of CommLeftFunc and CommBothFunc. */
  lemma {:induction false} CommSplitsLeft<T>(left: seq<T>, right: seq<T>, i: nat, j: nat, cmp: (T, T) -> int)
    requires i <= |left| && j <= |right|
    ensures multiset(CommLeftFrom(left, right, i, j, cmp)) + multiset(CommBothFrom(left, right, i, j, cmp))
      == multiset(left[i..])
    decreases |left| - i
  {
    if i < |left| {
      if j == |right| {
        CommLeftAfterRight(left, right, i, cmp);
        assert CommBothFrom(left, right, i, j, cmp) == [];
      } else {
        CommSplitsLeft(left, right, i + 1, NextRight(left[i], right, j, cmp), cmp);
        SplitStep(left, right, i, j, cmp);
      }
    }
  }

  // ---------------------------------------------------------------------
  // On sorted inputs: multiset difference and intersection

  /** Values absent from l change neither l's difference nor its intersection. */
  lemma AbsentIgnored<T>(l: multiset<T>, a: multiset<T>, r: multiset<T>)
    requires forall x :: x in a ==> x !in l
    ensures l - (a + r) == l - r
    ensures l * (a + r) == l * r
  {
    forall x
      ensures (l - (a + r))[x] == (l - r)[x]
      ensures (l * (a + r))[x] == (l * r)[x]
    {
      if x in a {
        assert l[x] == 0;
      }
    }
  }

  /** A matching pair cancels in the difference and survives once in the intersection. */
  lemma MatchCancels<T>(v: T, l: multiset<T>, r: multiset<T>)
    ensures (multiset{v} + l) - (multiset{v} + r) == l - r
    ensures (multiset{v} + l) * (multiset{v} + r) == multiset{v} + l * r
  {
    forall x
      ensures ((multiset{v} + l) - (multiset{v} + r))[x] == (l - r)[x]
      ensures ((multiset{v} + l) * (multiset{v} + r))[x] == (multiset{v} + l * r)[x]
    {
    }
  }

  /** A value missing from r stays in the difference and leaves the intersection. */
  lemma MissKept<T>(v: T, l: multiset<T>, r: multiset<T>)
    requires v !in r
    ensures (multiset{v} + l) - r == multiset{v} + (l - r)
    ensures (multiset{v} + l) * r == l * r
  {
    forall x
      ensures ((multiset{v} + l) - r)[x] == (multiset{v} + (l - r))[x]
      ensures ((multiset{v} + l) * r)[x] == (l * r)[x]
    {
    }
  }

  /** In a sorted suffix, every value is at least the first one. */
  lemma AtLeastFirst(s: seq<int>, i: nat)
    requires Sorted(s, Cmp) && i < |s|
    ensures forall x :: x in multiset(s[i..]) ==> s[i] <= x
  {
    forall x | x in multiset(s[i..])
      ensures s[i] <= x
    {
      assert x in s[i..];
      var t :| 0 <= t < |s| - i && s[i..][t] == x;
      SortedInts(s, i, i + t);
    }
  }

  /** The right values passed over by the skip are below l. */
  lemma SkippedBelow(l: int, right: seq<int>, j: nat)
    requires j <= |right|
    ensures forall x :: x in multiset(right[j..SkipPast(l, right, j, Cmp)]) ==> x < l
  {
    var k := SkipPast(l, right, j, Cmp);
    forall x | x in multiset(right[j..k])
      ensures x < l
    {
      assert x in right[j..k];
      var t :| 0 <= t < k - j && right[j..k][t] == x;
      assert Cmp(l, right[j + t]) > 0;
    }
  }

  /** Skipping right values below left[i], up to position k, changes neither
      the difference nor the intersection of what is left of the two inputs. */
  lemma SkipIgnored(left: seq<int>, right: seq<int>, i: nat, j: nat, k: nat)
    requires Sorted(left, Cmp) && i < |left| && j <= |right| && k == SkipPast(left[i], right, j, Cmp)
    ensures multiset(left[i..]) - multiset(right[j..]) == multiset(left[i..]) - multiset(right[k..])
    ensures multiset(left[i..]) * multiset(right[j..]) == multiset(left[i..]) * multiset(right[k..])
  {
    assert right[j..] == right[j..k] + right[k..];
    AtLeastFirst(left, i);
    SkippedBelow(left[i], right, j);
    AbsentIgnored(multiset(left[i..]), multiset(right[j..k]), multiset(right[k..]));
  }

  /** When the skip stops at a right value that is not equal to l, l is below
      every right value from there on. */
  lemma MissAbsent(l: int, right: seq<int>, k: nat)
    requires Sorted(right, Cmp) && k <= |right|
    requires k < |right| ==> l < right[k]
    ensures l !in multiset(right[k..])
  {
    if k < |right| {
      AtLeastFirst(right, k);
    }
  }

  /** One step of the walk when right[k] cancels left[i]. */
  lemma MatchStep(left: seq<int>, right: seq<int>, i: nat, j: nat, k: nat)
    requires Sorted(left, Cmp) && i < |left| && j <= |right| && k == SkipPast(left[i], right, j, Cmp)
    requires Cancels(left[i], right, k, Cmp)
    ensures multiset(left[i..]) - multiset(right[j..]) == multiset(left[i + 1..]) - multiset(right[k + 1..])
    ensures multiset(left[i..]) * multiset(right[j..])
         == multiset{left[i]} + multiset(left[i + 1..]) * multiset(right[k + 1..])
  {
    var l := left[i];
    SkipIgnored(left, right, i, j, k);
    var lm := HeadSplits(left, i);
    var rm := HeadSplits(right, k);
    MatchCancels(l, lm, rm);
  }

  /** The multiset of s from position i is its value there and the rest. */
  lemma HeadSplits<T>(s: seq<T>, i: nat) returns (rest: multiset<T>)
    requires i < |s|
    ensures rest == multiset(s[i + 1..])
    ensures multiset(s[i..]) == multiset{s[i]} + rest
  {
    assert s[i..] == [s[i]] + s[i + 1..];
    rest := multiset(s[i + 1..]);
  }

  /** One step of the walk when nothing in right cancels left[i]. */
  lemma MissStep(left: seq<int>, right: seq<int>, i: nat, j: nat, k: nat)
    requires Sorted(left, Cmp) && Sorted(right, Cmp) && i < |left| && j <= |right|
    requires k == SkipPast(left[i], right, j, Cmp) && !Cancels(left[i], right, k, Cmp)
    ensures multiset(left[i..]) - multiset(right[j..]) == multiset{left[i]} + (multiset(left[i + 1..]) - multiset(right[k..]))
    ensures multiset(left[i..]) * multiset(right[j..]) == multiset(left[i + 1..]) * multiset(right[k..])
  {
    var l := left[i];
    SkipIgnored(left, right, i, j, k);
    assert left[i..] == [l] + left[i + 1..];
    MissAbsent(l, right, k);
    MissKept(l, multiset(left[i + 1..]), multiset(right[k..]));
  }

  lemma ConsMultiset<T>(x: T, rest: seq<T>, m: multiset<T>)
    requires multiset(rest) == m
    ensures multiset([x] + rest) == multiset{x} + m
  {
  }

  /** One step of CommLeftDifference: from the claim after left[i], the
      claim before it. */
  lemma DifferenceStep(left: seq<int>, right: seq<int>, i: nat, j: nat, j': nat)
    requires Sorted(left, Cmp) && Sorted(right, Cmp) && i < |left| && j <= |right|
    requires j' == NextRight(left[i], right, j, Cmp)
    requires multiset(CommLeftFrom(left, right, i + 1, j', Cmp)) == multiset(left[i + 1..]) - multiset(right[j'..])
    ensures multiset(CommLeftFrom(left, right, i, j, Cmp)) == multiset(left[i..]) - multiset(right[j..])
  {
    var x, k := left[i], SkipPast(left[i], right, j, Cmp);
    var rest := CommLeftFrom(left, right, i + 1, j', Cmp);
    assert CommLeftFrom(left, right, i, j, Cmp) == LeftKept(x, right, j, Cmp) + rest;
    if Cancels(x, right, k, Cmp) {
      assert j' == k + 1 && LeftKept(x, right, j, Cmp) == [];
      MatchStep(left, right, i, j, k);
      assert CommLeftFrom(left, right, i, j, Cmp) == rest;
    } else {
      assert j' == k && LeftKept(x, right, j, Cmp) == [x];
      assert CommLeftFrom(left, right, i, j, Cmp) == [x] + rest;
      MissStep(left, right, i, j, k);
      ConsMultiset(x, rest, multiset(left[i + 1..]) - multiset(right[j'..]));
    }
  }

  /** The difference once left is used up. */
  lemma DifferenceEnd(left: seq<int>, right: seq<int>, i: nat, j: nat)
    requires i == |left| && j <= |right|
    ensures multiset(CommLeftFrom(left, right, i, j, Cmp)) == multiset(left[i..]) - multiset(right[j..])
  {
    assert CommLeftFrom(left, right, i, j, Cmp) == [] == left[i..];
    assert multiset(left[i..]) - multiset(right[j..]) == multiset{};
  }

  lemma EmptyIntersection<T>(s: seq<T>, m: multiset<T>)
    requires s == []
    ensures multiset(s) * m == multiset{} && m * multiset(s) == multiset{}
  {
  }

  /** CommLeft on sorted inputs is multiset difference. */
  lemma {:induction false} CommLeftDifference(left: seq<int>, right: seq<int>, i: nat, j: nat)
    requires Sorted(left, Cmp) && Sorted(right, Cmp) && i <= |left| && j <= |right|
    ensures multiset(CommLeftFrom(left, right, i, j, Cmp)) == multiset(left[i..]) - multiset(right[j..])
    decreases |left| - i
  {
    if i < |left| {
      var j' := NextRight(left[i], right, j, Cmp);
      CommLeftDifference(left, right, i + 1, j');
      DifferenceStep(left, right, i, j, j');
    } else {
      DifferenceEnd(left, right, i, j);
    }
  }

  /** One step of CommBothIntersection when right[k] cancels left[i]; j' is k + 1. */
  lemma IntersectionMatch(left: seq<int>, right: seq<int>, i: nat, j: nat, k: nat, j': nat)
    requires Sorted(left, Cmp) && i < |left| && j < |right|
    requires k == SkipPast(left[i], right, j, Cmp) && Cancels(left[i], right, k, Cmp) && j' == k + 1
    requires multiset(CommBothFrom(left, right, i + 1, j', Cmp)) == multiset(left[i + 1..]) * multiset(right[j'..])
    ensures multiset(CommBothFrom(left, right, i, j, Cmp)) == multiset(left[i..]) * multiset(right[j..])
  {
    var x, rest := left[i], CommBothFrom(left, right, i + 1, j', Cmp);
    assert NextRight(x, right, j, Cmp) == j';
    assert BothKept(x, right, j, Cmp) == [x];
    assert CommBothFrom(left, right, i, j, Cmp) == [x] + rest;
    MatchStep(left, right, i, j, k);
    ConsMultiset(x, rest, multiset(left[i + 1..]) * multiset(right[j'..]));
  }

  /** The same when nothing in right cancels left[i]. */
  lemma IntersectionMiss(left: seq<int>, right: seq<int>, i: nat, j: nat, k: nat)
    requires Sorted(left, Cmp) && Sorted(right, Cmp) && i < |left| && j < |right|
    requires k == SkipPast(left[i], right, j, Cmp) && !Cancels(left[i], right, k, Cmp)
    requires multiset(CommBothFrom(left, right, i + 1, k, Cmp)) == multiset(left[i + 1..]) * multiset(right[k..])
    ensures multiset(CommBothFrom(left, right, i, j, Cmp)) == multiset(left[i..]) * multiset(right[j..])
  {
    assert CommBothFrom(left, right, i, j, Cmp) == CommBothFrom(left, right, i + 1, k, Cmp);
    MissStep(left, right, i, j, k);
  }

  /** One step of CommBothIntersection. */
  lemma IntersectionStep(left: seq<int>, right: seq<int>, i: nat, j: nat, j': nat)
    requires Sorted(left, Cmp) && Sorted(right, Cmp) && i < |left| && j < |right|
    requires j' == NextRight(left[i], right, j, Cmp)
    requires multiset(CommBothFrom(left, right, i + 1, j', Cmp)) == multiset(left[i + 1..]) * multiset(right[j'..])
    ensures multiset(CommBothFrom(left, right, i, j, Cmp)) == multiset(left[i..]) * multiset(right[j..])
  {
    var k := SkipPast(left[i], right, j, Cmp);
    if Cancels(left[i], right, k, Cmp) {
      IntersectionMatch(left, right, i, j, k, j');
    } else {
      IntersectionMiss(left, right, i, j, k);
    }
  }

  /** CommBoth on sorted inputs is multiset intersection. */
  lemma {:induction false} CommBothIntersection(left: seq<int>, right: seq<int>, i: nat, j: nat)
    requires Sorted(left, Cmp) && Sorted(right, Cmp) && i <= |left| && j <= |right|
    ensures multiset(CommBothFrom(left, right, i, j, Cmp)) == multiset(left[i..]) * multiset(right[j..])
    decreases |left| - i
  {
    if i < |left| && j < |right| {
      var j' := NextRight(left[i], right, j, Cmp);
      CommBothIntersection(left, right, i + 1, j');
      IntersectionStep(left, right, i, j, j');
    } else if i == |left| {
      EmptyIntersection(left[i..], multiset(right[j..]));
    } else {
      EmptyIntersection(right[j..], multiset(left[i..]));
    }
  }

  // ---------------------------------------------------------------------
  // The cmp.Compare wrappers

  /** CommLeft: on sorted inputs, drained, the values of left not in right. */
  method CommLeft(left: seq<int>, right: seq<int>, c: Consumer) returns (out: seq<int>)
    ensures out == Observe(CommLeftOf(left, right, Cmp), c)
    ensures Subsequence(out, left)
    ensures c.Drain? && Sorted(left, Cmp) && Sorted(right, Cmp)
      ==> multiset(out) == multiset(left) - multiset(right)
  {
    out := CommLeftFunc(left, right, Cmp, c);
    CommLeftSubsequence(left, right, Cmp);
    SubsequencePrefix(CommLeftOf(left, right, Cmp), left, |out|);
    if c.Drain? && Sorted(left, Cmp) && Sorted(right, Cmp) {
      CommLeftDifference(left, right, 0, 0);
      assert left[0..] == left && right[0..] == right;
    }
  }

  /** CommRight: on sorted inputs, drained, the values of right not in left. */
  method CommRight(left: seq<int>, right: seq<int>, c: Consumer) returns (out: seq<int>)
    ensures out == Observe(CommLeftOf(right, left, Cmp), c)
    ensures Subsequence(out, right)
    ensures c.Drain? && Sorted(left, Cmp) && Sorted(right, Cmp)
      ==> multiset(out) == multiset(right) - multiset(left)
  {
    out := CommRightFunc(left, right, Cmp, c);
    if c.Drain? && Sorted(left, Cmp) && Sorted(right, Cmp) {
      CommLeftDifference(right, left, 0, 0);
      assert left[0..] == left && right[0..] == right;
    }
  }

  /** CommBoth: on sorted inputs, drained, the values in both. */
  method CommBoth(left: seq<int>, right: seq<int>, c: Consumer) returns (out: seq<int>)
    ensures out == Observe(CommBothOf(left, right, Cmp), c)
    ensures Subsequence(out, left)
    ensures c.Drain? && Sorted(left, Cmp) && Sorted(right, Cmp)
      ==> multiset(out) == multiset(left) * multiset(right)
  {
    out := CommBothFunc(left, right, Cmp, c);
    CommBothFromSubsequence(left, right, 0, 0, Cmp);
    assert left[0..] == left && right[0..] == right;
    SubsequencePrefix(CommBothOf(left, right, Cmp), left, |out|);
    if c.Drain? && Sorted(left, Cmp) && Sorted(right, Cmp) {
      CommBothIntersection(left, right, 0, 0);
    }
  }

  /** The examples of the package's tests. */
  lemma CommLeftExample()
    ensures CommLeftOf([1, 2, 3, 4], [2, 4, 6, 8], Cmp) == [1, 3]
  {
  }

  lemma CommRightExample()
    ensures CommLeftOf([2, 4, 6, 8], [1, 2, 3, 4], Cmp) == [6, 8]
  {
  }

  lemma CommBothExample()
    ensures CommBothOf([1, 2, 3, 4], [2, 4, 6, 8], Cmp) == [2, 4]
  {
  }
}
