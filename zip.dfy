/** zip.go: walking two sequences in parallel.  x is ranged over and y is
    pulled; a side that has ended carries Go's zero value, passed here as
    `z1` and `z2`.  The `...2` forms are the same walk over key/value pairs. */
module Zip {
  import opened Iter

  /** One item of Zip: each side's value and whether it is present. */
  datatype Zipped<V1, V2> = Zipped(v1: V1, ok1: bool, v2: V2, ok2: bool)

  /** What a side holds at position k: its value, or the zero value once it
      has ended. */
  function Padded<T>(s: seq<T>, k: nat, zero: T): T
  {
    if k < |s| then s[k] else zero
  }

  function Max(a: nat, b: nat): nat
  {
    if a < b then b else a
  }

  /** Zip from position i: first while x lasts, then while y lasts. */
  function ZipFrom<V1, V2>(x: seq<V1>, y: seq<V2>, i: nat, z1: V1, z2: V2): seq<Zipped<V1, V2>>
    decreases |x| + |y| - i
  {
    if i < |x| then [Zipped(x[i], true, Padded(y, i, z2), i < |y|)] + ZipFrom(x, y, i + 1, z1, z2)
    else if i < |y| then [Zipped(z1, false, y[i], true)] + ZipFrom(x, y, i + 1, z1, z2)
    else []
  }

  function ZipOf<V1, V2>(x: seq<V1>, y: seq<V2>, z1: V1, z2: V2): seq<Zipped<V1, V2>>
  {
    ZipFrom(x, y, 0, z1, z2)
  }

  /** Item by item: Zip yields max(|x|, |y|) items, and item k holds both
      sides at k, padded with the zero values. */
  lemma {:induction false} ZipFromAt<V1, V2>(x: seq<V1>, y: seq<V2>, i: nat, z1: V1, z2: V2)
    requires i <= Max(|x|, |y|)
    ensures |ZipFrom(x, y, i, z1, z2)| == Max(|x|, |y|) - i
    ensures forall k :: i <= k < Max(|x|, |y|) ==>
      ZipFrom(x, y, i, z1, z2)[k - i] == Zipped(Padded(x, k, z1), k < |x|, Padded(y, k, z2), k < |y|)
    decreases Max(|x|, |y|) - i
  {
    if i < Max(|x|, |y|) {
      ZipFromAt(x, y, i + 1, z1, z2);
    }
  }

  lemma ZipAt<V1, V2>(x: seq<V1>, y: seq<V2>, z1: V1, z2: V2)
    ensures |ZipOf(x, y, z1, z2)| == Max(|x|, |y|)
    ensures forall k :: 0 <= k < Max(|x|, |y|) ==>
      ZipOf(x, y, z1, z2)[k] == Zipped(Padded(x, k, z1), k < |x|, Padded(y, k, z2), k < |y|)
  {
    ZipFromAt(x, y, 0, z1, z2);
  }

  /** A side is never both missing and non-zero. */
  lemma ZipMissingIsZero<V1, V2>(x: seq<V1>, y: seq<V2>, z1: V1, z2: V2, k: nat)
    requires k < |ZipOf(x, y, z1, z2)|
    ensures !ZipOf(x, y, z1, z2)[k].ok1 ==> ZipOf(x, y, z1, z2)[k].v1 == z1
    ensures !ZipOf(x, y, z1, z2)[k].ok2 ==> ZipOf(x, y, z1, z2)[k].v2 == z2
    ensures ZipOf(x, y, z1, z2)[k].ok1 || ZipOf(x, y, z1, z2)[k].ok2
  {
    ZipAt(x, y, z1, z2);
  }

  lemma ZipEmit<V1, V2>(out: seq<Zipped<V1, V2>>, x: seq<V1>, y: seq<V2>, i: nat, z1: V1, z2: V2, whole: seq<Zipped<V1, V2>>)
    requires (i < |x| || i < |y|) && whole == out + ZipFrom(x, y, i, z1, z2)
    ensures whole == (out + [ZipFrom(x, y, i, z1, z2)[0]]) + ZipFrom(x, y, i + 1, z1, z2)
  {
    var rest := ZipFrom(x, y, i + 1, z1, z2);
    assert ZipFrom(x, y, i, z1, z2) == [ZipFrom(x, y, i, z1, z2)[0]] + rest;
    assert out + ([ZipFrom(x, y, i, z1, z2)[0]] + rest) == (out + [ZipFrom(x, y, i, z1, z2)[0]]) + rest;
  }

  /** One yield of Zip: the next item goes to the consumer. */
  method YieldItem<V1, V2>(x: seq<V1>, y: seq<V2>, i: nat, z1: V1, z2: V2, c: Consumer,
                           out0: seq<Zipped<V1, V2>>, ghost whole: seq<Zipped<V1, V2>>, item: Zipped<V1, V2>)
    returns (out: seq<Zipped<V1, V2>>, stopped: bool)
    requires (i < |x| || i < |y|) && item == ZipFrom(x, y, i, z1, z2)[0]
    requires whole == out0 + ZipFrom(x, y, i, z1, z2) && Continues(c, |out0|)
    ensures stopped ==> out == Observe(whole, c)
    ensures !stopped ==> whole == out + ZipFrom(x, y, i + 1, z1, z2) && Continues(c, |out|)
  {
    ZipEmit(out0, x, y, i, z1, z2, whole);
    out := out0 + [item];
    stopped := !Continues(c, |out|);
    if stopped {
      ObserveStopped(out, ZipFrom(x, y, i + 1, z1, z2), c);
    }
  }

  /** Zip: y is pulled once before the loop and once after each item; the
      pull count j is the position in y. */
  method Zip<V1, V2>(x: seq<V1>, y: seq<V2>, z1: V1, z2: V2, c: Consumer) returns (out: seq<Zipped<V1, V2>>)
    ensures out == Observe(ZipOf(x, y, z1, z2), c)
  {
    ghost var whole := ZipOf(x, y, z1, z2);
    var j: nat := 0;
    var r := PullAt(y, j);
    var stopped: bool;
    out := [];
    for i := 0 to |x|
      invariant j == i && r == PullAt(y, j)
      invariant Continues(c, |out|)
      invariant whole == out + ZipFrom(x, y, i, z1, z2)
    {
      var v2 := if r.Some? then r.value else z2;
      out, stopped := YieldItem(x, y, i, z1, z2, c, out, whole, Zipped(x[i], true, v2, r.Some?));
      if stopped {
        return;
      }
      j := j + 1;
      r := PullAt(y, j);
    }
    while r.Some?
      invariant |x| <= j && r == PullAt(y, j)
      invariant Continues(c, |out|)
      invariant whole == out + ZipFrom(x, y, j, z1, z2)
      decreases |y| - j
    {
      out, stopped := YieldItem(x, y, j, z1, z2, c, out, whole, Zipped(z1, false, r.value, true));
      if stopped {
        return;
      }
      j := j + 1;
      r := PullAt(y, j);
    }
  }

  /** Zip2: the same walk over key/value pairs; an item of Zip2 is a Zipped
      whose sides are pairs, and a missing side is the pair of zero values. */
  method Zip2<K1, V1, K2, V2>(x: seq<(K1, V1)>, y: seq<(K2, V2)>, zk1: K1, zv1: V1, zk2: K2, zv2: V2, c: Consumer)
    returns (out: seq<Zipped<(K1, V1), (K2, V2)>>)
    ensures out == Observe(ZipOf(x, y, (zk1, zv1), (zk2, zv2)), c)
    ensures forall k :: 0 <= k < |out| ==> out[k].ok1 == (k < |x|) && out[k].ok2 == (k < |y|)
  {
    out := Zip(x, y, (zk1, zv1), (zk2, zv2), c);
    ZipAt(x, y, (zk1, zv1), (zk2, zv2));
  }

  /** ZipVals: the two values of each Zip item, zero-padded. */
  function ZipVals<V1, V2>(x: seq<V1>, y: seq<V2>, z1: V1, z2: V2): (r: seq<(V1, V2)>)
    ensures |r| == Max(|x|, |y|)
    ensures forall k :: 0 <= k < |r| ==> r[k] == (Padded(x, k, z1), Padded(y, k, z2))
  {
    ZipAt(x, y, z1, z2);
    var z := ZipOf(x, y, z1, z2);
    seq(|z|, k requires 0 <= k < |z| => (z[k].v1, z[k].v2))
  }

  /** The package's ZipVals test: three pairs, all within its limit of 10. */
  lemma ZipValsExample()
    ensures ZipVals([1, 2, 3], [101, 102, 103], 0, 0) == [(1, 101), (2, 102), (3, 103)]
  {
    var r := ZipVals([1, 2, 3], [101, 102, 103], 0, 0);
    assert r[0] == (1, 101) && r[1] == (2, 102) && r[2] == (3, 103);
  }
}
