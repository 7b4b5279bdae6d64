/** first.go: the first value of a sequence.  The range loop returns on the
    first value, so the input hands out at most one value. */
module First {
  import opened Iter

  /** First: (s[0], true), or (zero, false) for an empty s.  The value
      returned is everything a consumer that stops after one value sees. */
  function First<T>(s: seq<T>, zero: T): (r: (T, bool))
    ensures r.1 <==> s != []
    ensures r.1 ==> [r.0] == Observe(s, BreakAfter(1))
    ensures !r.1 ==> r.0 == zero
  {
    if s == [] then (zero, false) else (s[0], true)
  }

  /** First2: the same for the first pair, with a zero value per side. */
  function First2<T, U>(s: seq<(T, U)>, zt: T, zu: U): (r: (T, U, bool))
    ensures r.2 <==> s != []
    ensures r.2 ==> [(r.0, r.1)] == Observe(s, BreakAfter(1))
    ensures !r.2 ==> r.0 == zt && r.1 == zu
  {
    var (p, ok) := First(s, (zt, zu));
    (p.0, p.1, ok)
  }
}
