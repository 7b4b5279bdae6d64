/** peek.go and empty.go: looking at the first value without losing it.
    Peek pulls one value from a fresh pull cursor over the input and hands
    back a sequence, `PeekSeq`, that yields that value and then keeps
    advancing the same cursor. */
module Peek {
  import opened Iter

  /** The sequence Peek returns.  With a first value it is the closure over
      that value and the cursor; without one it is Empty. */
  class PeekSeq<T> {
    const head: T
    const hasHead: bool
    const cur: Cursor<T>

    ghost predicate Valid()
      reads this, cur
    {
      cur.Valid() && (!hasHead ==> cur.Remaining() == [])
    }

    /** What ranging over this sequence yields to a consumer that takes
        everything. */
    function Contents(): seq<T>
      reads this, cur
      requires Valid()
    {
      if hasHead then [head] + cur.Remaining() else []
    }

    constructor (head: T, hasHead: bool, cur: Cursor<T>)
      requires cur.Valid() && (!hasHead ==> cur.Remaining() == [])
      ensures this.head == head && this.hasHead == hasHead && this.cur == cur
      ensures Valid()
    {
      this.head := head;
      this.hasHead := hasHead;
      this.cur := cur;
    }

    /** Ranging over the sequence: the stored value first, then the cursor's
        values; the deferred `stop` runs however the range ends. */
    method Range(c: Consumer) returns (out: seq<T>)
      requires Valid()
      modifies cur
      ensures Valid()
      ensures out == Observe(old(Contents()), c)
      ensures hasHead ==> cur.stopped
      ensures !hasHead ==> unchanged(cur)
    {
      out := [];
      if !hasHead {
        return;
      }
      ghost var whole := old(Contents());
      out := [head];
      if !Continues(c, |out|) {
        ObserveStopped(out, cur.Remaining(), c);
        cur.Stop();
        return;
      }
      out := Forward(c, out, whole);
    }

    /** The rest of Range after the stored value: pass on the cursor's
        values until it runs dry or the consumer stops, then stop it. */
    method Forward(c: Consumer, out0: seq<T>, ghost whole: seq<T>) returns (out: seq<T>)
      requires cur.Valid() && Continues(c, |out0|) && whole == out0 + cur.Remaining()
      modifies cur
      ensures cur.Valid() && cur.stopped
      ensures out == Observe(whole, c)
    {
      out := out0;
      while true
        invariant cur.Valid() && Continues(c, |out|)
        invariant whole == out + cur.Remaining()
        decreases |cur.input| - cur.pos
      {
        ghost var rest := cur.Remaining();
        var v := cur.Next();
        if v.None? {
          cur.Stop();
          return;
        }
        AppendHead(out, rest);
        out := out + [v.value];
        if !Continues(c, |out|) {
          ObserveStopped(out, cur.Remaining(), c);
          cur.Stop();
          return;
        }
      }
    }
  }

  /** Peek: exactly one value is pulled; an empty input stops the cursor at
      once and returns the zero value and Empty. */
  method Peek<T>(inp: seq<T>, zero: T) returns (v: T, ok: bool, rest: PeekSeq<T>)
    ensures ok <==> inp != []
    ensures ok ==> v == inp[0] && rest.cur.pos == 1
    ensures !ok ==> v == zero && rest.cur.stopped
    ensures fresh(rest) && fresh(rest.cur) && rest.cur.input == inp
    ensures rest.Valid() && rest.Contents() == inp
  {
    var cur := new Cursor(inp);
    var first := cur.Next();
    if first.Some? {
      v, ok := first.value, true;
      assert inp == [inp[0]] + inp[1..];
    } else {
      cur.Stop();
      v, ok := zero, false;
    }
    rest := new PeekSeq(v, ok, cur);
  }

  /** Peek2: Peek over pairs, with a zero value per side. */
  method Peek2<T, U>(inp: seq<(T, U)>, zt: T, zu: U) returns (t: T, u: U, ok: bool, rest: PeekSeq<(T, U)>)
    ensures ok <==> inp != []
    ensures ok ==> (t, u) == inp[0] && rest.cur.pos == 1
    ensures !ok ==> t == zt && u == zu && rest.cur.stopped
    ensures fresh(rest) && fresh(rest.cur) && rest.cur.input == inp
    ensures rest.Valid() && rest.Contents() == inp
  {
    var p;
    p, ok, rest := Peek(inp, (zt, zu));
    t, u := p.0, p.1;
  }

  /** Empty and Empty2 yield nothing to any consumer. */
  function Empty<T>(): (r: seq<T>)
    ensures forall c: Consumer :: Observe(r, c) == []
  {
    []
  }

  function Empty2<T, U>(): (r: seq<(T, U)>)
    ensures forall c: Consumer :: Observe(r, c) == []
  {
    []
  }

  /** CheckEmpty: Peek, keeping only whether a first value was found; the
      sequence it hands back yields the whole input. */
  method CheckEmpty<T(0)>(inp: seq<T>) returns (rest: PeekSeq<T>, isEmpty: bool)
    ensures isEmpty <==> inp == []
    ensures fresh(rest) && fresh(rest.cur)
    ensures rest.Valid() && rest.Contents() == inp
  {
    var zero: T := *;
    var v, ok;
    v, ok, rest := Peek(inp, zero);
    isEmpty := !ok;
  }

  method CheckEmpty2<T(0), U(0)>(inp: seq<(T, U)>) returns (rest: PeekSeq<(T, U)>, isEmpty: bool)
    ensures isEmpty <==> inp == []
    ensures fresh(rest) && fresh(rest.cur)
    ensures rest.Valid() && rest.Contents() == inp
  {
    rest, isEmpty := CheckEmpty(inp);
  }

  /** The package's examples: Peek of [1, 2, 3] gives 1 and a sequence that
      still yields all three; CheckEmpty of Empty reports empty. */
  method PeekExamples() returns (v: int, ok: bool, all: seq<int>, isEmpty: bool)
    ensures v == 1 && ok && all == [1, 2, 3] && isEmpty
  {
    var rest;
    v, ok, rest := Peek([1, 2, 3], 0);
    all := rest.Range(Drain);
    var none;
    none, isEmpty := CheckEmpty(Empty<int>());
  }
}
