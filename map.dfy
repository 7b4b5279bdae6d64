/** map.go: transforming each value.  A mapping function that may fail
    returns its result together with `Some(error)` or `None`; the error cell
    read after draining is the out-parameter `err`. */
module Map {
  import opened Iter

  /** What a drained Mapx yields, and what its error cell then holds. */
  datatype Mapped<U, E> = Mapped(values: seq<U>, err: Option<E>)

  /** Mapx's loop from position i. */
  function MapFrom<T, U, E>(inp: seq<T>, i: nat, f: T -> (U, Option<E>)): Mapped<U, E>
    requires i <= |inp|
    decreases |inp| - i
  {
    if i == |inp| then Mapped([], None)
    else if f(inp[i]).1.Some? then Mapped([], f(inp[i]).1)
    else
      var rest := MapFrom(inp, i + 1, f);
      Mapped([f(inp[i]).0] + rest.values, rest.err)
  }

  function MapOf<T, U, E>(inp: seq<T>, f: T -> (U, Option<E>)): Mapped<U, E>
  {
    MapFrom(inp, 0, f)
  }

  /** f succeeds on t, giving u. */
  ghost predicate MapsTo<T, U, E>(f: T -> (U, Option<E>), t: T, u: U)
  {
    f(t).1.None? && f(t).0 == u
  }

  /** Mapx maps value by value up to the first value f fails on; that value
      gives no output, and its error is the one reported. */
  lemma {:induction false} MapFromMeans<T, U, E>(inp: seq<T>, i: nat, f: T -> (U, Option<E>))
    requires i <= |inp|
    ensures var m := MapFrom(inp, i, f);
      && i + |m.values| <= |inp|
      && (forall k :: 0 <= k < |m.values| ==> MapsTo(f, inp[i + k], m.values[k]))
      && (m.err.None? ==> i + |m.values| == |inp|)
      && (m.err.Some? ==> i + |m.values| < |inp| && m.err == f(inp[i + |m.values|]).1)
    decreases |inp| - i
  {
    if i < |inp| && f(inp[i]).1.None? {
      MapFromMeans(inp, i + 1, f);
      var m, rest := MapFrom(inp, i, f), MapFrom(inp, i + 1, f);
      forall k | 0 <= k < |m.values|
        ensures MapsTo(f, inp[i + k], m.values[k])
      {
        if k > 0 {
          assert m.values[k] == rest.values[k - 1] && i + k == (i + 1) + (k - 1);
        }
      }
    }
  }

  lemma MapStep<T, U, E>(out: seq<U>, inp: seq<T>, i: nat, f: T -> (U, Option<E>), whole: Mapped<U, E>)
    requires i < |inp| && whole.values == out + MapFrom(inp, i, f).values
    requires MapFrom(inp, i, f).err == whole.err
    ensures f(inp[i]).1.Some? ==> whole.values == out && f(inp[i]).1 == whole.err
    ensures f(inp[i]).1.None? ==>
      && whole.values == (out + [f(inp[i]).0]) + MapFrom(inp, i + 1, f).values
      && MapFrom(inp, i + 1, f).err == whole.err
  {
    if f(inp[i]).1.None? {
      var rest := MapFrom(inp, i + 1, f).values;
      assert out + ([f(inp[i]).0] + rest) == (out + [f(inp[i]).0]) + rest;
    }
  }

  /** Mapx: the error cell is written on every step. */
  method Mapx<T, U, E>(inp: seq<T>, f: T -> (U, Option<E>), c: Consumer) returns (out: seq<U>, err: Option<E>)
    ensures out == Observe(MapOf(inp, f).values, c)
    ensures err == if Continues(c, |out|) then MapOf(inp, f).err else None
  {
    ghost var whole := MapOf(inp, f);
    out, err := [], None;
    for i := 0 to |inp|
      invariant Continues(c, |out|) && err.None?
      invariant whole.values == out + MapFrom(inp, i, f).values
      invariant MapFrom(inp, i, f).err == whole.err
    {
      MapStep(out, inp, i, f, whole);
      var r := f(inp[i]);
      err := r.1;
      if err.Some? {
        return;
      }
      out := out + [r.0];
      if !Continues(c, |out|) {
        ObserveStopped(out, MapFrom(inp, i + 1, f).values, c);
        return;
      }
    }
  }

  function NeverFails<T, U, E>(g: T -> U): T -> (U, Option<E>)
  {
    (t: T) => (g(t), None)
  }

  /** Map: one output per input the consumer lets through, output k being
      g(inp[k]). */
  method Map<T, U>(inp: seq<T>, g: T -> U, c: Consumer) returns (out: seq<U>)
    ensures |out| == |Observe(inp, c)|
    ensures forall k :: 0 <= k < |out| ==> out[k] == g(inp[k])
  {
    var err: Option<()>;
    out, err := Mapx(inp, NeverFails<T, U, ()>(g), c);
    MapFromMeans(inp, 0, NeverFails<T, U, ()>(g));
  }

  /** Map2x and Map2 work on pairs. */
  method Map2x<T1, U1, T2, U2, E>(inp: seq<(T1, U1)>, f: (T1, U1) -> (T2, U2, Option<E>), c: Consumer)
    returns (out: seq<(T2, U2)>, err: Option<E>)
    ensures var g := (p: (T1, U1)) => var (a, b, e) := f(p.0, p.1); ((a, b), e);
      && out == Observe(MapOf(inp, g).values, c)
      && err == if Continues(c, |out|) then MapOf(inp, g).err else None
  {
    out, err := Mapx(inp, (p: (T1, U1)) => var (a, b, e) := f(p.0, p.1); ((a, b), e), c);
  }

  method Map2<T1, U1, T2, U2>(inp: seq<(T1, U1)>, g: (T1, U1) -> (T2, U2), c: Consumer) returns (out: seq<(T2, U2)>)
    ensures |out| == |Observe(inp, c)|
    ensures forall k :: 0 <= k < |out| ==> out[k] == g(inp[k].0, inp[k].1)
  {
    out := Map(inp, (p: (T1, U1)) => g(p.0, p.1), c);
  }

  /** The example of the package's tests: squares. */
  method MapExample() returns (out: seq<int>)
    ensures out == [1, 4, 9, 16]
  {
    out := Map([1, 2, 3, 4], x => x * x, Drain);
  }
}
