/** Hop counts with an "infinite" value, standing for the `double` entries
    of the distance matrix, where unreachable pairs hold `HUGE_VAL`.
    Only the values 0, 1, sums of those and `HUGE_VAL` ever occur, so
    naturals plus infinity describe them exactly. */
module HopCount {

  datatype Hop = Fin(count: nat) | Inf

  /** Floating-point addition restricted to these values: infinity absorbs. */
  function Plus(x: Hop, y: Hop): (r: Hop)
    ensures r.Fin? <==> x.Fin? && y.Fin?
    ensures r.Fin? ==> r.count == x.count + y.count
  {
    if x.Fin? && y.Fin? then Fin(x.count + y.count) else Inf
  }

  /** The strict comparison `x < y`; `HUGE_VAL < HUGE_VAL` is false. */
  predicate Below(x: Hop, y: Hop) {
    x.Fin? && (y.Inf? || x.count < y.count)
  }

  /** `x <= y` */
  predicate AtMost(x: Hop, y: Hop) {
    y.Inf? || (x.Fin? && x.count <= y.count)
  }

  /** `std::min (a, b)`, which is `(b < a) ? b : a`: on a tie it keeps `a`. */
  function Min(a: Hop, b: Hop): (r: Hop)
    ensures AtMost(r, a) && AtMost(r, b)
    ensures r == a || r == b
    ensures r != a <==> Below(b, a)
  {
    if Below(b, a) then b else a
  }
}
