/** resumable.go: a sequence that remembers where the last range over it
    stopped.  All ranges share one pull cursor; breaking out of a range
    leaves the cursor running, and only running out of input or the
    returned stop function stops it. */
module Resumable {
  import opened Iter

  class Resumable<T> {
    const cur: Cursor<T>
    /** The flag behind the returned stop function. */
    var stopped: bool
    /** How many times the returned stop function has stopped the cursor. */
    var stops: nat
    /** Every value handed out by every range so far, in order. */
    ghost var yielded: seq<T>

    ghost predicate Valid()
      reads this, cur
    {
      && cur.Valid()
      && yielded == cur.input[..cur.pos]
      && stops <= 1
      && (stopped <==> stops == 1)
      && (stopped ==> cur.stopped)
    }

    /** Resumable: the cursor is pulled from the input once, here. */
    constructor (inp: seq<T>)
      ensures Valid() && fresh(cur) && cur.input == inp && cur.Remaining() == inp
      ensures yielded == [] && !stopped
    {
      cur := new Cursor(inp);
      stopped := false;
      stops := 0;
      yielded := [];
    }

    /** One turn of a range: a pull, handed to the consumer when it gives
        a value; running out of input stops the cursor. */
    method Visit(c: Consumer, out0: seq<T>, ghost whole: seq<T>, ghost y0: seq<T>)
      returns (out: seq<T>, finished: bool)
      requires Valid() && Continues(c, |out0|)
      requires whole == out0 + cur.Remaining() && yielded == y0 + out0
      modifies this, cur
      ensures Valid() && stopped == old(stopped) && stops == old(stops) && yielded == y0 + out
      ensures old(cur.pos) <= cur.pos
      ensures finished ==> out == Observe(whole, c) && cur.stopped == (old(cur.stopped) || Continues(c, |out|))
      ensures !finished ==>
        && cur.stopped == old(cur.stopped) && cur.pos == old(cur.pos) + 1
        && whole == out + cur.Remaining() && Continues(c, |out|)
    {
      ghost var rest := cur.Remaining();
      var v := cur.Next();
      if v.None? {
        cur.Stop();
        return out0, true;
      }
      AppendHead(out0, rest);
      out := out0 + [v.value];
      yielded := yielded + [v.value];
      finished := !Continues(c, |out|);
      if finished {
        ObserveStopped(out, cur.Remaining(), c);
      }
    }

    /** One range: the consumer receives the values after the ones earlier
        ranges took; running out of input stops the cursor, a break does
        not. */
    method Range(c: Consumer) returns (out: seq<T>)
      requires Valid()
      modifies this, cur
      ensures Valid() && stopped == old(stopped) && stops == old(stops)
      ensures out == Observe(old(cur.Remaining()), c)
      ensures yielded == old(yielded) + out
      ensures cur.stopped == (old(cur.stopped) || Continues(c, |out|))
    {
      out := [];
      ghost var whole := cur.Remaining();
      ghost var y0 := yielded;
      var finished := false;
      while !finished
        invariant Valid() && stopped == old(stopped) && stops == old(stops) && yielded == y0 + out
        invariant finished ==> out == Observe(whole, c) && cur.stopped == (old(cur.stopped) || Continues(c, |out|))
        invariant !finished ==> cur.stopped == old(cur.stopped) && whole == out + cur.Remaining() && Continues(c, |out|)
        decreases |cur.input| - cur.pos, if finished then 0 else 1
      {
        out, finished := Visit(c, out, whole, y0);
      }
    }

    /** The returned stop function: it stops the cursor the first time it is
        called and does nothing afterwards. */
    method Stop()
      requires Valid()
      modifies this, cur
      ensures Valid() && stopped && stops == 1 && yielded == old(yielded)
      ensures cur.Remaining() == []
      ensures old(stopped) ==> unchanged(this, cur)
    {
      if !stopped {
        stopped := true;
        stops := stops + 1;
        cur.Stop();
      }
    }
  }

  /** Resumable2: the same over pairs. */
  method Resumable2<T, U>(inp: seq<(T, U)>) returns (r: Resumable<(T, U)>)
    ensures fresh(r) && fresh(r.cur) && r.Valid() && r.cur.Remaining() == inp && r.yielded == []
  {
    r := new Resumable(inp);
  }

  /** The values that ranges hand out, taken together, are always a prefix
      of the input: nothing is repeated and nothing skipped. */
  lemma YieldedIsPrefix<T>(r: Resumable<T>)
    requires r.Valid()
    ensures r.yielded <= r.cur.input
    ensures r.cur.stopped || r.yielded + r.cur.Remaining() == r.cur.input
  {
  }

  /** The package's example: a range that breaks at 5, then a second range
      that picks up after it, then a stop called twice. */
  method ResumableExample() returns (a: seq<int>, b: seq<int>, c: seq<int>)
    ensures a == [2, 3, 5] && b == [7, 11, 13] && c == []
  {
    var r := new Resumable([2, 3, 5, 7, 11, 13]);
    a := r.Range(BreakAfter(3));
    b := r.Range(Drain);
    r.Stop();
    r.Stop();
    assert r.stops == 1;
    c := r.Range(Drain);
  }
}
