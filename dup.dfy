/** dup.go: n copies of one input.  The producer goroutine and its channel
    are a cursor `src` over the input that stops handing out values once
    `done` is closed; the mutex is left out, so every read is one atomic
    step.  `bufOffset` is never reassigned, so the buffer holds every value
    pulled so far and is never trimmed; `TrimmedDup` is the trimming the
    comment at dup.go:13-15 describes. */
module Dup {
  import opened Iter

  class Dup<T> {
    const n: nat
    const src: Cursor<T>
    var buf: seq<T>
    const bufOffset: int := 0
    const offsets: array<int>
    var nrunning: int
    var done: bool

    ghost predicate Valid()
      reads this, src, offsets
    {
      && src.Valid() && !src.stopped
      && offsets.Length == n
      && buf == src.input[..src.pos]
      && (forall i :: 0 <= i < n ==> 0 <= offsets[i] <= bufOffset + |buf|)
      // the buffer is exactly as long as the copy that is farthest ahead
      && (n == 0 ==> buf == [])
      && (n > 0 ==> exists i :: 0 <= i < n && offsets[i] == |buf|)
      && nrunning <= n
      && (done ==> nrunning <= 0)
    }

    /** What the channel can still deliver, after what is buffered: the rest
        of the input, or nothing once `done` is closed. */
    function Available(): seq<T>
      reads this, src
      requires src.Valid()
    {
      if done then buf else src.input
    }

    constructor (inp: seq<T>, n: nat)
      ensures Valid() && fresh(src) && fresh(offsets)
      ensures src.input == inp && buf == [] && this.n == n && nrunning == n && !done
      ensures forall i :: 0 <= i < n ==> offsets[i] == 0
    {
      this.n := n;
      src := new Cursor(inp);
      buf := [];
      offsets := new int[n](_ => 0);
      nrunning := n;
      done := false;
      new;
      if n > 0 {
        assert offsets[0] == |buf|;
      }
    }

    /** `helper` without its final yield: the next value for copy i, read
        from the buffer, after pulling one more value into it when copy i
        is the one farthest ahead.  Only `offsets[i]` moves, by one. */
    method Read(i: nat) returns (v: Option<T>)
      requires Valid() && i < n
      modifies this, src, offsets
      ensures Valid() && nrunning == old(nrunning) && done == old(done)
      ensures v == PullAt(old(Available()), old(offsets[i]))
      ensures Available() == old(Available())
      ensures offsets[i] == old(offsets[i]) + if v.Some? then 1 else 0
      ensures forall j :: 0 <= j < n && j != i ==> offsets[j] == old(offsets[j])
      ensures buf == old(buf) || (|buf| == old(|buf|) + 1 == offsets[i])
    {
      ghost var ahead :| 0 <= ahead < n && offsets[ahead] == |buf|;
      var bufEnd := bufOffset + |buf|;
      if offsets[i] >= bufEnd {
        // the receive from the producer
        var r: Option<T> := None;
        if !done {
          r := src.Next();
        }
        if r.None? {
          return None;
        }
        buf := buf + [r.value];
        bufEnd := bufEnd + 1;
      }
      v := Some(buf[offsets[i] - bufOffset]);
      offsets[i] := offsets[i] + 1;
      if offsets[i] != |buf| {
        assert offsets[ahead] == |buf|;
      }
    }

    /** One turn of the loop below: a read for copy i, handed to the
        consumer when there is one. */
    method Visit(i: nat, c: Consumer, out0: seq<T>, ghost avail: seq<T>, ghost whole: seq<T>)
      returns (out: seq<T>, stopped: bool)
      requires Valid() && i < n && Available() == avail && offsets[i] <= |avail|
      requires whole == out0 + avail[offsets[i]..] && Continues(c, |out0|)
      modifies this, src, offsets
      ensures Valid() && nrunning == old(nrunning) && done == old(done)
      ensures Available() == avail && offsets[i] <= |avail|
      ensures offsets[i] == old(offsets[i]) + |out| - |out0|
      ensures forall j :: 0 <= j < n && j != i ==> offsets[j] == old(offsets[j])
      ensures stopped ==> out == Observe(whole, c)
      ensures !stopped ==>
        && whole == out + avail[offsets[i]..] && Continues(c, |out|)
        && offsets[i] == old(offsets[i]) + 1
    {
      ghost var at := offsets[i];
      var v := Read(i);
      if v.None? {
        assert avail[at..] == [];
        return out0, true;
      }
      AppendHead(out0, avail[at..]);
      out := out0 + [v.value];
      stopped := !Continues(c, |out|);
      if stopped {
        ObserveStopped(out, avail[at + 1..], c);
      }
    }

    /** The loop of ranging over copy i: reads until the input is used up
        or the consumer breaks. */
    method Forward(i: nat, c: Consumer) returns (out: seq<T>)
      requires Valid() && i < n
      modifies this, src, offsets
      ensures Valid() && nrunning == old(nrunning) && done == old(done)
      ensures Available() == old(Available())
      ensures out == Observe(old(Available())[old(offsets[i])..], c)
      ensures offsets[i] == old(offsets[i]) + |out|
      ensures forall j :: 0 <= j < n && j != i ==> offsets[j] == old(offsets[j])
    {
      out := [];
      ghost var avail := Available();
      ghost var whole := avail[offsets[i]..];
      var stopped := false;
      while !stopped
        invariant Valid() && nrunning == old(nrunning) && done == old(done)
        invariant Available() == avail && offsets[i] <= |avail|
        invariant offsets[i] == old(offsets[i]) + |out|
        invariant forall j :: 0 <= j < n && j != i ==> offsets[j] == old(offsets[j])
        invariant stopped ==> out == Observe(whole, c)
        invariant !stopped ==> whole == out + avail[offsets[i]..] && Continues(c, |out|)
        decreases |avail| - offsets[i], if stopped then 0 else 1
      {
        out, stopped := Visit(i, c, out, avail, whole);
      }
    }

    /** Ranging over copy i: the loop, then `nrunning` goes down by one and
        `done` is closed when it reaches 0.  Closing `done` a second time
        panics, as in Go; that happens when a copy is ranged over after
        `done` was closed. */
    method Range(i: nat, c: Consumer) returns (out: seq<T>, panics: bool)
      requires Valid() && i < n
      modifies this, src, offsets
      ensures Valid() && nrunning == old(nrunning) - 1
      ensures done == (old(done) || nrunning <= 0)
      ensures panics <==> old(done)
      ensures out == Observe(old(Available())[old(offsets[i])..], c)
      ensures offsets[i] == old(offsets[i]) + |out|
      ensures forall j :: 0 <= j < n && j != i ==> offsets[j] == old(offsets[j])
    {
      out := Forward(i, c);
      panics := false;
      nrunning := nrunning - 1;
      if nrunning <= 0 {
        panics := done;
        done := true;
      }
    }
  }

  /** Every copy, whenever it is read and however reads of the copies
      interleave, reads the input in order from where it stopped. */
  lemma CopiesReadTheInput<T>(d: Dup<T>, i: nat)
    requires d.Valid() && i < d.n && !d.done
    ensures d.Available() == d.src.input
    ensures d.offsets[i] <= |d.src.input|
  {
  }

  /** The package's example: two copies of 1..10, each ranged to the end,
      both see all of it, and the second range closes `done`. */
  method DupExample() returns (a: seq<int>, b: seq<int>, closed: bool)
    ensures a == [1, 2, 3, 4, 5, 6, 7, 8, 9, 10] && b == a && closed
  {
    var d := new Dup([1, 2, 3, 4, 5, 6, 7, 8, 9, 10], 2);
    var p: bool;
    a, p := d.Range(0, Drain);
    b, p := d.Range(1, Drain);
    closed := d.done;
  }

  /** The buffer is never trimmed: once both copies of 1..10 are drained
      they are at the same offset, yet all ten values are still buffered. */
  method UntrimmedBufferExample() returns (held: nat, gap: int)
    ensures held == 10 && gap == 0
  {
    var d := new Dup([1, 2, 3, 4, 5, 6, 7, 8, 9, 10], 2);
    var out: seq<int>;
    var p: bool;
    out, p := d.Range(0, Drain);
    out, p := d.Range(1, Drain);
    held := |d.buf|;
    gap := d.offsets[0] - d.offsets[1];
  }

  /** Dup's reads with the trimming the comment at dup.go:13-15 describes:
      `bufOffset` follows the copy that is farthest behind, and the values
      before it are dropped from the buffer.  The buffer then holds exactly
      the values between the slowest and the farthest copy. */
  class TrimmedDup<T> {
    const n: nat
    const src: Cursor<T>
    var buf: seq<T>
    var bufOffset: int
    const offsets: array<int>
    var nrunning: int
    var done: bool

    /** Everything but the trimming: the buffer holds the input from
        `bufOffset` to the farthest copy, and no copy is before `bufOffset`. */
    ghost predicate Buffered()
      reads this, src, offsets
    {
      && src.Valid() && !src.stopped
      && offsets.Length == n
      && 0 <= bufOffset <= src.pos
      && buf == src.input[bufOffset..src.pos]
      && (forall i :: 0 <= i < n ==> bufOffset <= offsets[i] <= src.pos)
      && (n == 0 ==> src.pos == 0)
      && (n > 0 ==> exists i :: 0 <= i < n && offsets[i] == src.pos)
      && nrunning <= n
      && (done ==> nrunning <= 0)
    }

    ghost predicate Valid()
      reads this, src, offsets
    {
      && Buffered()
      && (n > 0 ==> exists j :: 0 <= j < n && offsets[j] == bufOffset)
    }

    /** What the copies can still read, by absolute position: the input, or
        what was pulled before `done` was closed. */
    function Available(): seq<T>
      reads this, src
      requires src.Valid()
    {
      if done then src.input[..src.pos] else src.input
    }

    constructor (inp: seq<T>, n: nat)
      ensures Valid() && fresh(src) && fresh(offsets)
      ensures src.input == inp && buf == [] && this.n == n && nrunning == n && !done
      ensures forall i :: 0 <= i < n ==> offsets[i] == 0
    {
      this.n := n;
      src := new Cursor(inp);
      buf := [];
      bufOffset := 0;
      offsets := new int[n](_ => 0);
      nrunning := n;
      done := false;
      new;
      if n > 0 {
        assert offsets[0] == src.pos;
      }
    }

    /** The offset of a copy that is farthest behind. */
    method SlowestOffset() returns (m: int)
      requires n > 0 && offsets.Length == n
      ensures exists j :: 0 <= j < n && offsets[j] == m
      ensures forall k :: 0 <= k < n ==> m <= offsets[k]
    {
      m := offsets[0];
      ghost var at := 0;
      var k := 1;
      while k < n
        invariant 1 <= k <= n && 0 <= at < k && offsets[at] == m
        invariant forall q :: 0 <= q < k ==> m <= offsets[q]
      {
        if offsets[k] < m {
          m, at := offsets[k], k;
        }
        k := k + 1;
      }
    }

    /** Moves `bufOffset` up to the slowest copy and drops what is before it. */
    method Trim()
      requires Buffered() && n > 0
      modifies this
      ensures Valid() && nrunning == old(nrunning) && done == old(done)
      ensures buf == old(buf)[bufOffset - old(bufOffset)..]
    {
      var m := SlowestOffset();
      buf := buf[m - bufOffset..];
      bufOffset := m;
    }

    /** Dup's read before the trim: the buffer may now start before the
        slowest copy. */
    method Fill(i: nat) returns (v: Option<T>)
      requires Valid() && i < n
      modifies this, src, offsets
      ensures Buffered() && nrunning == old(nrunning) && done == old(done)
      ensures v == PullAt(old(Available()), old(offsets[i]))
      ensures Available() == old(Available())
      ensures offsets[i] == old(offsets[i]) + if v.Some? then 1 else 0
      ensures forall j :: 0 <= j < n && j != i ==> offsets[j] == old(offsets[j])
    {
      ghost var ahead :| 0 <= ahead < n && offsets[ahead] == src.pos;
      var bufEnd := bufOffset + |buf|;
      if offsets[i] >= bufEnd {
        // the receive from the producer
        var r: Option<T> := None;
        if !done {
          r := src.Next();
        }
        if r.None? {
          return None;
        }
        buf := buf + [r.value];
        bufEnd := bufEnd + 1;
      }
      v := Some(buf[offsets[i] - bufOffset]);
      offsets[i] := offsets[i] + 1;
      if offsets[i] != src.pos {
        assert offsets[ahead] == src.pos;
      }
    }

    /** Dup's read, followed by the trim: the same value for copy i, and the
        buffer spans exactly from the slowest copy to the farthest one. */
    method Read(i: nat) returns (v: Option<T>)
      requires Valid() && i < n
      modifies this, src, offsets
      ensures Valid() && nrunning == old(nrunning) && done == old(done)
      ensures v == PullAt(old(Available()), old(offsets[i]))
      ensures Available() == old(Available())
      ensures offsets[i] == old(offsets[i]) + if v.Some? then 1 else 0
      ensures forall j :: 0 <= j < n && j != i ==> offsets[j] == old(offsets[j])
      ensures |buf| == Farthest() - Slowest()
    {
      v := Fill(i);
      Trim();
      BufferIsGap();
    }

    /** The offsets of the copies farthest ahead and farthest behind. */
    ghost function Farthest(): int
      reads this, src
    {
      src.pos
    }

    ghost function Slowest(): int
      reads this
    {
      bufOffset
    }

    /** The buffer holds the values from the slowest copy to the farthest
        one: the gap the comment at dup.go:13-15 promises. */
    lemma BufferIsGap()
      requires Valid() && n > 0
      ensures exists a :: 0 <= a < n && offsets[a] == Farthest()
      ensures exists b :: 0 <= b < n && offsets[b] == Slowest()
      ensures forall k :: 0 <= k < n ==> Slowest() <= offsets[k] <= Farthest()
      ensures |buf| == Farthest() - Slowest()
    {
    }
  }

  /** Two trimmed copies of 1, 2, each read to the end: the buffer is empty
      again, where Dup's would still hold both values. */
  method TrimmedDupExample() returns (a: seq<Option<int>>, b: seq<Option<int>>, held: nat)
    ensures a == [Some(1), Some(2), None] && b == a && held == 0
  {
    var d := new TrimmedDup([1, 2], 2);
    var v0 := d.Read(0);
    var v1 := d.Read(0);
    var v2 := d.Read(0);
    a := [v0, v1, v2];
    assert d.offsets[0] == 2 && d.offsets[1] == 0;
    v0 := d.Read(1);
    v1 := d.Read(1);
    v2 := d.Read(1);
    b := [v0, v1, v2];
    held := |d.buf|;
  }
}
