/** pages.go: cutting the input into pages.  A page is handed on as soon as
    it holds pageSize values (with pageSize 0 that is after every value),
    and a last, shorter page is handed on at the end if it is not empty.
    A negative pageSize makes `make` panic before anything is pulled. */
module Pages {
  import opened Iter

  /** The page length the loop actually produces. */
  function Size(pageSize: int): (r: Positive)
    ensures pageSize >= 1 ==> r == pageSize
  {
    if pageSize >= 1 then pageSize else 1
  }

  /** The pages of s[start..], each a fresh sequence. */
  function PagesFrom<T>(s: seq<T>, start: nat, size: Positive): seq<seq<T>>
    requires start <= |s|
    decreases |s| - start
  {
    if start == |s| then []
    else if |s| - start < size then [s[start..]]
    else [s[start..start + size]] + PagesFrom(s, start + size, size)
  }

  function PagesOf<T>(s: seq<T>, size: Positive): seq<seq<T>>
  {
    PagesFrom(s, 0, size)
  }

  /** A full page at start, then the pages after it. */
  lemma PagesUnfold<T>(s: seq<T>, start: nat, size: Positive)
    requires start <= |s| && |s| - start >= size
    ensures PagesFrom(s, start, size) == [s[start..start + size]] + PagesFrom(s, start + size, size)
  {
  }

  /** The pages put back together are the input. */
  lemma {:induction false} PagesFromFlatten<T>(s: seq<T>, start: nat, size: Positive)
    requires start <= |s|
    ensures Flatten(PagesFrom(s, start, size)) == s[start..]
    decreases |s| - start
  {
    if start < |s| && |s| - start >= size {
      PagesFromFlatten(s, start + size, size);
      var page, rest := s[start..start + size], PagesFrom(s, start + size, size);
      PagesUnfold(s, start, size);
      assert ([page] + rest)[1..] == rest;
      assert Flatten([page] + rest) == page + Flatten(rest);
      assert s[start..] == page + s[start + size..];
    }
  }

  /** Every page but the last has exactly `size` values; the last has
      between 1 and `size`; there are no pages only when nothing is left. */
  lemma {:induction false} PagesFromSizes<T>(s: seq<T>, start: nat, size: Positive)
    requires start <= |s|
    ensures forall k :: 0 <= k < |PagesFrom(s, start, size)| - 1 ==> |PagesFrom(s, start, size)[k]| == size
    ensures PagesFrom(s, start, size) != [] ==>
      1 <= |PagesFrom(s, start, size)[|PagesFrom(s, start, size)| - 1]| <= size
    ensures PagesFrom(s, start, size) == [] <==> start == |s|
    decreases |s| - start
  {
    if start < |s| && |s| - start >= size {
      PagesFromSizes(s, start + size, size);
      var page, rest := s[start..start + size], PagesFrom(s, start + size, size);
      PagesUnfold(s, start, size);
      var ps := [page] + rest;
      forall k | 0 <= k < |ps| - 1
        ensures |ps[k]| == size
      {
        if k > 0 {
          assert ps[k] == rest[k - 1];
        }
      }
      if rest != [] {
        assert ps[|ps| - 1] == rest[|rest| - 1];
      }
    }
  }

  lemma PagesShape<T>(s: seq<T>, size: Positive)
    ensures var ps := PagesOf(s, size);
      && Flatten(ps) == s
      && (forall k :: 0 <= k < |ps| - 1 ==> |ps[k]| == size)
      && (ps != [] ==> 1 <= |ps[|ps| - 1]| <= size)
      && (ps == [] <==> s == [])
  {
    PagesFromFlatten(s, 0, size);
    PagesFromSizes(s, 0, size);
    assert s[0..] == s;
  }

  lemma PageFull<T>(out: seq<seq<T>>, s: seq<T>, start: nat, i: nat, size: Positive, whole: seq<seq<T>>)
    requires start <= i < |s| && i + 1 - start == size
    requires whole == out + PagesFrom(s, start, size)
    ensures whole == (out + [s[start..i + 1]]) + PagesFrom(s, i + 1, size)
  {
    assert PagesFrom(s, start, size) == [s[start..i + 1]] + PagesFrom(s, i + 1, size);
  }

  lemma LastPage<T>(out: seq<seq<T>>, s: seq<T>, start: nat, size: Positive, whole: seq<seq<T>>)
    requires start < |s| && |s| - start < size
    requires whole == out + PagesFrom(s, start, size)
    ensures whole == out + [s[start..]]
  {
  }

  /** Pages: `page` grows by one value per input and is replaced by a fresh
      empty page each time a full one is handed on. */
  method Pages<T>(s: seq<T>, pageSize: int, c: Consumer) returns (out: seq<seq<T>>, panics: bool)
    ensures panics <==> pageSize < 0
    ensures !panics ==> out == Observe(PagesOf(s, Size(pageSize)), c)
  {
    out := [];
    panics := pageSize < 0;
    if panics {
      return;
    }
    var size := Size(pageSize);
    ghost var whole := PagesOf(s, size);
    var page: seq<T> := [];
    ghost var start: nat := 0;
    for i := 0 to |s|
      invariant start <= i && page == s[start..i] && |page| < size
      invariant whole == out + PagesFrom(s, start, size)
      invariant Continues(c, |out|)
    {
      page := page + [s[i]];
      assert page == s[start..i + 1];
      if |page| >= pageSize {
        PageFull(out, s, start, i, size, whole);
        out := out + [page];
        if !Continues(c, |out|) {
          ObserveStopped(out, PagesFrom(s, i + 1, size), c);
          return;
        }
        page := [];
        start := i + 1;
      }
    }
    if |page| > 0 {
      assert page == s[start..];
      LastPage(out, s, start, size, whole);
      out := out + [page];
    }
  }

  /** The package's example: 1..10 in pages of 3. */
  lemma PagesExample()
    ensures PagesOf([1, 2, 3, 4, 5, 6, 7, 8, 9, 10], 3) == [[1, 2, 3], [4, 5, 6], [7, 8, 9], [10]]
  {
    var s := [1, 2, 3, 4, 5, 6, 7, 8, 9, 10];
    assert s[9..] == [10] && s[6..9] == [7, 8, 9] && s[3..6] == [4, 5, 6] && s[0..3] == [1, 2, 3];
    assert PagesFrom(s, 9, 3) == [[10]];
    assert PagesFrom(s, 6, 3) == [[7, 8, 9], [10]];
    assert PagesFrom(s, 3, 3) == [[4, 5, 6], [7, 8, 9], [10]];
  }
}
