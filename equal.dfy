/** equal.go: comparing two sequences by ranging over their Zip and stopping
    at the first item whose sides are not both present or do not match. */
module Equal {
  import opened Iter
  import opened Zip

  /** Whether a Zip item passes the check of EqualFunc. */
  predicate Agrees<T, U>(z: Zipped<T, U>, f: (T, U) -> bool)
  {
    z.ok1 == z.ok2 && f(z.v1, z.v2)
  }

  /** The range over the Zip items with its early `return false`. */
  function AllAgree<T, U>(zs: seq<Zipped<T, U>>, f: (T, U) -> bool): (r: bool)
  {
    if zs == [] then true
    else if !Agrees(zs[0], f) then false
    else AllAgree(zs[1..], f)
  }

  lemma {:induction false} AllAgreeAt<T, U>(zs: seq<Zipped<T, U>>, f: (T, U) -> bool)
    ensures AllAgree(zs, f) <==> forall k :: 0 <= k < |zs| ==> Agrees(zs[k], f)
  {
    if zs != [] {
      AllAgreeAt(zs[1..], f);
      assert forall k :: 1 <= k < |zs| ==> zs[1..][k - 1] == zs[k];
    }
  }

  /** EqualFunc.  The zero values only pad the Zip items and never decide
      the answer (see EqualFuncMeans). */
  function EqualFunc<T, U>(x: seq<T>, y: seq<U>, f: (T, U) -> bool, z1: T, z2: U): bool
  {
    AllAgree(ZipOf(x, y, z1, z2), f)
  }

  /** EqualFunc is true exactly when the lengths match and f holds pairwise. */
  lemma EqualFuncMeans<T, U>(x: seq<T>, y: seq<U>, f: (T, U) -> bool, z1: T, z2: U)
    ensures EqualFunc(x, y, f, z1, z2) <==> |x| == |y| && forall k :: 0 <= k < |x| ==> f(x[k], y[k])
  {
    var zs := ZipOf(x, y, z1, z2);
    ZipAt(x, y, z1, z2);
    AllAgreeAt(zs, f);
    if |x| != |y| {
      var k := if |x| < |y| then |x| else |y|;
      assert !Agrees(zs[k], f);
    } else if EqualFunc(x, y, f, z1, z2) {
      forall k | 0 <= k < |x|
        ensures f(x[k], y[k])
      {
        assert Agrees(zs[k], f);
      }
    }
  }

  function Same<T(==)>(a: T, b: T): bool
  {
    a == b
  }

  /** Equal: EqualFunc with ==. */
  function Equal<T(==)>(x: seq<T>, y: seq<T>, zero: T): bool
  {
    EqualFunc(x, y, Same, zero, zero)
  }

  /** Equal is sequence equality; in particular a proper prefix is never
      Equal to the longer sequence, and two empty sequences are Equal. */
  lemma EqualMeans<T>(x: seq<T>, y: seq<T>, zero: T)
    ensures Equal(x, y, zero) <==> x == y
  {
    EqualFuncMeans(x, y, Same, zero, zero);
    if |x| == |y| && forall k :: 0 <= k < |x| ==> Same(x[k], y[k]) {
      assert x == y;
    }
  }

  /** Equal2: keys and values must both match pairwise. */
  function Equal2<K(==), V(==)>(x: seq<(K, V)>, y: seq<(K, V)>, zk: K, zv: V): bool
  {
    Equal(x, y, (zk, zv))
  }

  lemma Equal2Means<K, V>(x: seq<(K, V)>, y: seq<(K, V)>, zk: K, zv: V)
    ensures Equal2(x, y, zk, zv) <==>
      |x| == |y| && forall k :: 0 <= k < |x| ==> x[k].0 == y[k].0 && x[k].1 == y[k].1
  {
    EqualMeans(x, y, (zk, zv));
  }

  /** EqualFunc2: f sees both keys and both values. */
  function EqualFunc2<K1, V1, K2, V2>(x: seq<(K1, V1)>, y: seq<(K2, V2)>, f: (K1, V1, K2, V2) -> bool,
                                      zk1: K1, zv1: V1, zk2: K2, zv2: V2): bool
  {
    EqualFunc(x, y, (p: (K1, V1), q: (K2, V2)) => f(p.0, p.1, q.0, q.1), (zk1, zv1), (zk2, zv2))
  }

  lemma EqualFunc2Means<K1, V1, K2, V2>(x: seq<(K1, V1)>, y: seq<(K2, V2)>, f: (K1, V1, K2, V2) -> bool,
                                        zk1: K1, zv1: V1, zk2: K2, zv2: V2)
    ensures EqualFunc2(x, y, f, zk1, zv1, zk2, zv2) <==>
      |x| == |y| && forall k :: 0 <= k < |x| ==> f(x[k].0, x[k].1, y[k].0, y[k].1)
  {
    EqualFuncMeans(x, y, (p: (K1, V1), q: (K2, V2)) => f(p.0, p.1, q.0, q.1), (zk1, zv1), (zk2, zv2));
  }

  /** A stand-in for the tests' `strings.EqualFold`: letters compared one
      by one, ignoring ASCII case only. */
  function FoldEq(a: char, b: char): bool
  {
    a == b || ('a' <= a <= 'z' && b as int == a as int - 32) || ('a' <= b <= 'z' && a as int == b as int - 32)
  }

  lemma EqualExamples()
    ensures Equal([1, 2, 3], [1, 2, 3], 0)
    ensures !Equal([1, 2], [1, 2, 3], 0) && !Equal([1, 2, 3], [1, 2], 0)
    ensures Equal([], [], 0)
    ensures EqualFunc("abc", "ABC", FoldEq, ' ', ' ')
  {
    EqualMeans([1, 2, 3], [1, 2, 3], 0);
    EqualMeans([1, 2], [1, 2, 3], 0);
    EqualMeans([1, 2, 3], [1, 2], 0);
    EqualMeans([], [], 0);
    EqualFuncMeans("abc", "ABC", FoldEq, ' ', ' ');
  }
}
