/** last.go (and the copies of LastN and rotateSlice in n.go): the last value
    of a sequence, and the last n values kept in a ring buffer that is put in
    order at the end by an in-place rotation.  Go's zero value is the
    parameter `zero`, or the default value of a `T(0)` array element. */
module Last {
  import opened Iter

  /** Last: the final value and true, or the zero value and false. */
  method Last<T>(inp: seq<T>, zero: T) returns (last: T, ok: bool)
    ensures ok <==> inp != []
    ensures ok ==> last == inp[|inp| - 1]
    ensures !ok ==> last == zero
  {
    last, ok := zero, false;
    for i := 0 to |inp|
      invariant ok <==> i > 0
      invariant ok ==> last == inp[i - 1]
      invariant !ok ==> last == zero
    {
      last := inp[i];
      ok := true;
    }
  }

  /** Last2: the final pair, or the zero values and false. */
  method Last2<T, U>(inp: seq<(T, U)>, zeroT: T, zeroU: U) returns (lastT: T, lastU: U, ok: bool)
    ensures ok <==> inp != []
    ensures ok ==> (lastT, lastU) == inp[|inp| - 1]
    ensures !ok ==> lastT == zeroT && lastU == zeroU
  {
    var p;
    p, ok := Last(inp, (zeroT, zeroU));
    lastT, lastU := p.0, p.1;
  }

  /** The specification of Last, for the callers that are functions. */
  function LastOf<T>(s: seq<T>, zero: T): (r: (T, bool))
    ensures r.1 <==> s != []
    ensures r.1 ==> r.0 == s[|s| - 1]
    ensures !r.1 ==> r.0 == zero
  {
    if s == [] then (zero, false) else (s[|s| - 1], true)
  }

  // ---------------------------------------------------------------------
  // Rotation

  /** s rotated m places to the right: the last m values come first. */
  function RotateRight<T>(s: seq<T>, m: nat): seq<T>
    requires m <= |s|
  {
    s[|s| - m..] + s[..|s| - m]
  }

  /** s rotated k places to the left: the first k values go last. */
  function RotateLeft<T>(s: seq<T>, k: nat): seq<T>
    requires k <= |s|
  {
    s[k..] + s[..k]
  }

  /** A rotation is a permutation of the same length. */
  lemma RotationPermutes<T>(s: seq<T>, m: nat)
    requires m <= |s|
    ensures |RotateRight(s, m)| == |s| && multiset(RotateRight(s, m)) == multiset(s)
  {
    assert s == s[..|s| - m] + s[|s| - m..];
  }

  /** Rotating right undoes rotating left by the same amount. */
  lemma RotateRightUndoesLeft<T>(s: seq<T>, k: nat)
    requires k <= |s|
    ensures RotateRight(RotateLeft(s, k), k) == s
  {
    var l := RotateLeft(s, k);
    assert l[|l| - k..] == s[..k];
    assert l[..|l| - k] == s[k..];
    assert s == s[..k] + s[k..];
  }

  /** How far rotateSlice rotates to the right, with Go's `%`; both of its
      operands are non-negative here, so it agrees with Dafny's. */
  function RotationAmount(k: int, len: nat): (m: nat)
    requires len > 0
    ensures m <= len
  {
    if k < 0 then len - (-k) % len else k % len
  }

  /** A negative amount -k, for 0 < k < len, rotates len - k to the right. */
  lemma NegativeAmount(k: nat, len: nat)
    requires 0 < k < len
    ensures RotationAmount(-(k as int), len) == len - k
  {
    ModSmall(k, len);
    assert -(-(k as int)) == k;
  }

  lemma ModSmall(a: int, n: int)
    requires 0 <= a < n
    ensures a % n == a
  {
  }

  /** rotateSlice(s, -k), for 0 <= k < len, is a left rotation by k. */
  lemma RotationAmountLeft<T>(s: seq<T>, k: nat)
    requires k < |s|
    ensures RotateRight(s, RotationAmount(-(k as int), |s|)) == RotateLeft(s, k)
  {
    if k == 0 {
      assert RotateRight(s, 0) == s;
      assert RotateLeft(s, 0) == s;
    } else {
      NegativeAmount(k, |s|);
      assert |s| - (|s| - k) == k;
    }
  }

  /** Go's copy(s[m:len], s[:len-m]) on overlapping cells: done from the
      back so that no cell is read after it is written. */
  method CopyUp<T>(s: array<T>, len: nat, m: nat)
    requires m <= len <= s.Length
    modifies s
    ensures forall j :: m <= j < len ==> s[j] == old(s[j - m])
    ensures forall j :: 0 <= j < m ==> s[j] == old(s[j])
    ensures forall j :: len <= j < s.Length ==> s[j] == old(s[j])
  {
    var i := len;
    while i > m
      invariant m <= i <= len
      invariant forall j :: i <= j < len ==> s[j] == old(s[j - m])
      invariant forall j :: 0 <= j < i ==> s[j] == old(s[j])
      invariant forall j :: len <= j < s.Length ==> s[j] == old(s[j])
    {
      i := i - 1;
      s[i] := s[i - m];
    }
  }

  /** Go's copy(s, tmp) for a shorter tmp. */
  method CopyIn<T>(s: array<T>, tmp: array<T>)
    requires tmp.Length <= s.Length && s != tmp
    modifies s
    ensures forall j :: 0 <= j < tmp.Length ==> s[j] == tmp[j]
    ensures forall j :: tmp.Length <= j < s.Length ==> s[j] == old(s[j])
  {
    for j := 0 to tmp.Length
      invariant forall t :: 0 <= t < j ==> s[t] == tmp[t]
      invariant forall t :: j <= t < s.Length ==> s[t] == old(s[t])
    {
      s[j] := tmp[j];
    }
  }

  /** Cell by cell, the result of the three copies is the right rotation. */
  lemma RotatedCells<T>(orig: seq<T>, after: seq<T>, len: nat, m: nat)
    requires m <= len <= |orig| == |after|
    requires forall t :: 0 <= t < m ==> after[t] == orig[len - m + t]
    requires forall t :: m <= t < len ==> after[t] == orig[t - m]
    ensures after[..len] == RotateRight(orig[..len], m)
  {
    forall t | 0 <= t < len
      ensures after[..len][t] == RotateRight(orig[..len], m)[t]
    {
      if t < m {
        assert RotateRight(orig[..len], m)[t] == orig[..len][len - m + t];
      } else {
        assert RotateRight(orig[..len], m)[t] == orig[..len][t - m];
      }
    }
  }

  /** The three copies of rotateSlice on the first len cells of s, for
      0 < m <= len: the last m cells into a fresh tmp, the rest m places to
      the right, then tmp to the front. */
  method RotateRightInPlace<T>(s: array<T>, len: nat, m: nat)
    requires 0 < m <= len <= s.Length
    modifies s
    ensures s[..len] == RotateRight(old(s[..len]), m)
    ensures s[len..] == old(s[len..])
  {
    ghost var orig := s[..];
    var tmp := new T[m](j requires 0 <= j < m reads s => s[len - m + j]);
    assert forall j :: 0 <= j < m ==> tmp[j] == orig[len - m + j];
    CopyUp(s, len, m);
    ghost var mid := s[..];
    assert forall j :: m <= j < len ==> mid[j] == orig[j - m];
    CopyIn(s, tmp);
    ghost var after := s[..];
    assert forall t :: 0 <= t < m ==> after[t] == orig[len - m + t];
    assert forall t :: m <= t < len ==> after[t] == mid[t];
    RotatedCells(orig, after, len, m);
    assert orig[..len] == old(s[..len]);
  }

  /** rotateSlice on the slice s[..len]: k places to the right, or -k to the
      left.  As written, it takes `% len` first and so panics on an empty
      slice. */
  method RotateSlice<T>(s: array<T>, len: nat, k: int) returns (panics: bool)
    requires len <= s.Length
    modifies s
    ensures panics <==> len == 0
    ensures !panics ==> s[..len] == RotateRight(old(s[..len]), RotationAmount(k, len))
    ensures s[len..] == old(s[len..])
  {
    if len == 0 {
      return true;
    }
    var m := RotationAmount(k, len);
    if m == 0 {
      assert RotateRight(s[..len], 0) == s[..len];
      return false;
    }
    RotateRightInPlace(s, len, m);
    return false;
  }

  /** rotateSlice with the guard for the empty slice that it lacks. */
  method RotateSliceFixed<T>(s: array<T>, len: nat, k: int)
    requires len <= s.Length
    modifies s
    ensures len > 0 ==> s[..len] == RotateRight(old(s[..len]), RotationAmount(k, len))
    ensures len == 0 ==> s[..] == old(s[..])
    ensures s[len..] == old(s[len..])
  {
    if len == 0 {
      return;
    }
    var panics := RotateSlice(s, len, k);
  }

  lemma RotateExample()
    ensures RotateRight(['D', 'E', 'A', 'B', 'C'], RotationAmount(3, 5)) == ['A', 'B', 'C', 'D', 'E']
  {
  }

  // ---------------------------------------------------------------------
  // The ring buffer

  /** The buffer once full: rotated left by start, it holds the last values
      seen, oldest first. */
  lemma RingStep<T>(b: seq<T>, start: nat, window: seq<T>, v: T)
    requires start < |b| && RotateLeft(b, start) == window
    ensures RotateLeft(b[start := v], if start + 1 < |b| then start + 1 else 0) == window[1..] + [v]
  {
    var b' := b[start := v];
    assert window == b[start..] + b[..start];
    assert window[1..] == b[start + 1..] + b[..start];
    if start + 1 < |b| {
      assert b'[start + 1..] == b[start + 1..];
      assert b'[..start + 1] == b[..start] + [v];
      assert RotateLeft(b', start + 1) == b'[start + 1..] + b'[..start + 1];
    } else {
      assert b' == b[..start] + [v];
      assert RotateLeft(b', 0) == b';
    }
  }

  /** While the buffer is short, start stays 0 and the buffer is the input so far. */
  lemma RingGrow<T>(b: seq<T>, inp: seq<T>, i: nat)
    requires |b| <= i < |inp| && RotateLeft(b, 0) == inp[i - |b|..i]
    ensures RotateLeft(b + [inp[i]], 0) == inp[i - |b|..i + 1]
  {
    assert RotateLeft(b, 0) == b;
    assert RotateLeft(b + [inp[i]], 0) == b + [inp[i]];
    assert inp[i - |b|..i + 1] == inp[i - |b|..i] + [inp[i]];
  }

  /** Once full, each value slides the window by one. */
  lemma RingSlide<T>(b: seq<T>, start: nat, inp: seq<T>, i: nat)
    requires start < |b| <= i < |inp| && RotateLeft(b, start) == inp[i - |b|..i]
    ensures RotateLeft(b[start := inp[i]], if start + 1 < |b| then start + 1 else 0) == inp[i + 1 - |b|..i + 1]
  {
    RingStep(b, start, inp[i - |b|..i], inp[i]);
    assert inp[i - |b|..i][1..] + [inp[i]] == inp[i + 1 - |b|..i + 1];
  }

  lemma ModNext(start: nat, n: nat)
    requires start < n
    ensures (start + 1) % n == if start + 1 < n then start + 1 else 0
  {
  }

  /** The state of LastN's loop after i values, over the whole backing
      store b: the first len cells are in use, and rotated left by start
      they hold the last len values seen, oldest first. */
  ghost predicate Ring<T>(b: seq<T>, len: nat, start: nat, inp: seq<T>, i: nat)
  {
    && len <= |b| && i <= |inp| && len == Min(|b|, i)
    && (start < len || (len == 0 && start == 0))
    && (len < |b| ==> start == 0)
    && inp[i - len..i] == RotateLeft(b[..len], start)
  }

  lemma RingGrowStep<T>(b: seq<T>, len: nat, start: nat, inp: seq<T>, i: nat)
    requires Ring(b, len, start, inp, i) && i < |inp| && len < |b|
    ensures Ring(b[len := inp[i]], len + 1, start, inp, i + 1)
  {
    RingGrow(b[..len], inp, i);
    assert b[len := inp[i]][..len + 1] == b[..len] + [inp[i]];
  }

  lemma RingSlideStep<T>(b: seq<T>, len: nat, start: nat, inp: seq<T>, i: nat)
    requires Ring(b, len, start, inp, i) && i < |inp| && len == |b| > 0
    ensures Ring(b[start := inp[i]], len, if start + 1 < |b| then start + 1 else 0, inp, i + 1)
  {
    assert b[..len] == b;
    RingSlide(b, start, inp, i);
    assert b[start := inp[i]][..len] == b[start := inp[i]];
  }

  /** LastN's loop over a buffer of capacity n = buf.Length > 0: append
      while the buffer is short, then overwrite buf[start] and advance start
      modulo n.  Rotated left by start, the buffer holds the last
      min(n, |inp|) values in order. */
  method FillRing<T>(buf: array<T>, inp: seq<T>) returns (len: nat, start: nat)
    requires buf.Length > 0
    modifies buf
    ensures len == Min(buf.Length, |inp|)
    ensures start < len || (len == 0 && start == 0)
    ensures RotateLeft(buf[..len], start) == inp[|inp| - len..]
  {
    var n := buf.Length;
    len, start := 0, 0;
    for i := 0 to |inp|
      invariant Ring(buf[..], len, start, inp, i)
    {
      ghost var b := buf[..];
      if len < n {
        RingGrowStep(b, len, start, inp, i);
        buf[len] := inp[i];
        assert buf[..] == b[len := inp[i]];
        len := len + 1;
      } else {
        RingSlideStep(b, len, start, inp, i);
        buf[start] := inp[i];
        assert buf[..] == b[start := inp[i]];
        ModNext(start, n);
        start := (start + 1) % n;
      }
    }
    assert buf[..][..len] == buf[..len];
    assert inp[|inp| - len..|inp|] == inp[|inp| - len..];
  }

  /** The rotation that closes LastN puts the ring in order. */
  lemma RingInOrder<T>(before: seq<T>, start: nat, window: seq<T>)
    requires start < |before| && RotateLeft(before, start) == window
    ensures RotateRight(before, RotationAmount(-(start as int), |before|)) == window
  {
    RotationAmountLeft(before, start);
  }

  function Min(a: int, b: int): int
  {
    if a < b then a else b
  }

  /** LastN as written: `make` panics on a negative n; with n == 0 the first
      value hits `buf[start]` on an empty slice; and the closing rotateSlice
      panics whenever the buffer is empty, that is on an empty input. */
  method LastN<T(0)>(inp: seq<T>, n: int) returns (r: Outcome<seq<T>>)
    ensures r.Panics? <==> n <= 0 || inp == []
    ensures r.Returns? ==> r.value == inp[|inp| - Min(n, |inp|)..]
  {
    if n < 0 {
      return Panics;
    }
    var buf := new T[n];
    if n == 0 {
      if |inp| > 0 {
        return Panics;
      }
      var panics := RotateSlice(buf, 0, 0);
      return Panics;
    }
    var len, start := FillRing(buf, inp);
    ghost var before := buf[..len];
    var panics := RotateSlice(buf, len, -(start as int));
    if panics {
      return Panics;
    }
    RingInOrder(before, start, inp[|inp| - len..]);
    return Returns(buf[..len]);
  }

  /** Calling LastN on an empty input panics instead of returning nothing. */
  method LastNOfEmpty() returns (r: Outcome<seq<int>>)
    ensures r == Panics
  {
    r := LastN([], 7);
  }

  /** LastN as evidently intended: no values for n <= 0 or an empty input,
      otherwise the last min(n, |inp|) values in their original order. */
  method LastNFixed<T(0)>(inp: seq<T>, n: int) returns (r: seq<T>)
    ensures n <= 0 ==> r == []
    ensures n > 0 ==> r == inp[|inp| - Min(n, |inp|)..]
  {
    if n <= 0 || |inp| == 0 {
      return [];
    }
    var buf := new T[n];
    var len, start := FillRing(buf, inp);
    ghost var before := buf[..len];
    RotateSliceFixed(buf, len, -(start as int));
    RingInOrder(before, start, inp[|inp| - len..]);
    return buf[..len];
  }

  /** The example of the package's tests: the last 7 of 0..99, from LastN
      as written and from the corrected LastN alike. */
  method LastNExample() returns (r: Outcome<seq<int>>, fixed: seq<int>)
    ensures r == Returns([93, 94, 95, 96, 97, 98, 99])
    ensures fixed == [93, 94, 95, 96, 97, 98, 99]
  {
    var inp := seq(100, i => i);
    assert inp[0] == 0 && inp[93..] == [93, 94, 95, 96, 97, 98, 99];
    r := LastN(inp, 7);
    assert r.Returns? && r.value == inp[93..];
    fixed := LastNFixed(inp, 7);
  }
}
