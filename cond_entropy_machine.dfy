/**
  The streaming conditional-entropy counter of CondEntropy as a state machine
  on values. A state holds the fields of one instance; each of the two entropy
  estimators is represented by the sequence of counts pushed into it, which is
  all the estimator ever receives.
*/
module CondEntropyMachine {
  import opened Wrappers
  import opened RunLength
  import opened Pairs

  /**
    The fields of a CondEntropy instance: the last tuple seen (None for Java's
    null), the length of the current (x, y) run and of the current x run, the
    last non-zero comparison, and the counts pushed into the joint estimator
    (`comb`) and into the marginal x estimator (`condX`).
  */
  datatype CounterState = CounterState(
    xy: Option<Pair>,
    cxy: nat,
    cx: nat,
    lastCmp: int,
    comb: seq<nat>,
    condX: seq<nat>)

  /** The "Out of order!" exception with the values its message reports. */
  datatype OrderError = OutOfOrder(previous: Pair, present: Pair, cmp: int, lastCmp: int)

  /** What accumulate leaves behind: the state, and the error if it stopped at a tuple. */
  datatype Accumulated = Accumulated(state: CounterState, failure: Option<OrderError>)

  /** The state cleanup establishes, in which getValue finds an empty stream. */
  function Empty(): CounterState
  {
    CounterState(None, 0, 0, 0, [], [])
  }

  /** The present comparison goes the other way from the remembered one. */
  predicate Reverses(cmp: int, lastCmp: int)
  {
    (cmp < 0 && lastCmp > 0) || (cmp > 0 && lastCmp < 0)
  }

  /** A remembered comparison keeps its sign, and is only ever replaced by a non-zero one. */
  predicate KeepsDirection(before: int, after: int)
  {
    && (before > 0 ==> after > 0)
    && (before < 0 ==> after < 0)
    && (after != before ==> after != 0)
  }

  /**
    The flush at a tuple `t` that compares `cmp` with its predecessor `prev`:
    when they differ the (x, y) run is pushed and the direction remembered,
    and when also the x differs the x run is pushed.
  */
  function Flush(s: CounterState, prev: Pair, t: Pair, cmp: int): CounterState
  {
    if cmp == 0 then s
    else
      var joint := s.(comb := s.comb + [s.cxy], cxy := 0, lastCmp := cmp);
      if CompareValue(prev.x, t.x) != 0 then joint.(condX := s.condX + [s.cx], cx := 0) else joint
  }

  /** `t` becomes the last tuple and both open runs grow by one. */
  function Count(s: CounterState, t: Pair): CounterState
  {
    s.(xy := Some(t), cx := s.cx + 1, cxy := s.cxy + 1)
  }

  /** One iteration of the loop in accumulate, for the tuple `t`. */
  function Step(s: CounterState, t: Pair): (r: Result<CounterState, OrderError>)
    ensures r.Failure? <==> s.xy.Some? && Reverses(Compare(t, s.xy.value), s.lastCmp)
    ensures r.Failure? ==> r.error == OutOfOrder(s.xy.value, t, Compare(t, s.xy.value), s.lastCmp)
    ensures r.Success? ==> r.value.xy == Some(t)
    ensures r.Success? ==> KeepsDirection(s.lastCmp, r.value.lastCmp)
    ensures r.Success? ==> Sum(r.value.comb) + r.value.cxy == Sum(s.comb) + s.cxy + 1
    ensures r.Success? ==> Sum(r.value.condX) + r.value.cx == Sum(s.condX) + s.cx + 1
    ensures r.Success? ==> r.value.comb == s.comb || r.value.comb == s.comb + [s.cxy]
    ensures r.Success? ==> r.value.condX == s.condX || r.value.condX == s.condX + [s.cx]
    ensures r.Success? ==> (|r.value.comb| == |s.comb| + 1 <==> s.xy.Some? && s.xy.value != t)
    ensures r.Success? ==> (|r.value.condX| == |s.condX| + 1 <==> s.xy.Some? && s.xy.value.x != t.x)
  {
    SumSnoc(s.comb, s.cxy);
    SumSnoc(s.condX, s.cx);
    match s.xy
    case None => Success(Count(s, t))
    case Some(prev) =>
      var cmp := Compare(t, prev);
      if Reverses(cmp, s.lastCmp) then Failure(OutOfOrder(prev, t, cmp, s.lastCmp))
      else Success(Count(Flush(s, prev, t, cmp), t))
  }

  /** accumulate over a bag: the loop, stopping at the first out-of-order tuple. */
  function Accumulate(s: CounterState, bag: seq<Pair>): (r: Accumulated)
    ensures r.failure.None? && bag != [] ==> r.state.xy == Some(bag[|bag| - 1])
    ensures r.failure.Some? ==>
      && r.state.xy == Some(r.failure.value.previous)
      && r.failure.value.lastCmp == r.state.lastCmp
      && Reverses(r.failure.value.cmp, r.state.lastCmp)
    decreases |bag|
  {
    if bag == [] then Accumulated(s, None)
    else
      match Step(s, bag[0])
      case Failure(e) => Accumulated(s, Some(e))
      case Success(s') => Accumulate(s', bag[1..])
  }

  /** getValue's flush of the open runs into the two estimators. */
  function Finish(s: CounterState): (r: CounterState)
    ensures Sum(r.comb) == Sum(s.comb) + s.cxy && |r.comb| == |s.comb| + 1
    ensures Sum(r.condX) == Sum(s.condX) + s.cx && |r.condX| == |s.condX| + 1
    ensures r.xy == s.xy && r.cxy == s.cxy && r.cx == s.cx && r.lastCmp == s.lastCmp
  {
    SumSnoc(s.comb, s.cxy);
    SumSnoc(s.condX, s.cx);
    s.(comb := s.comb + [s.cxy], condX := s.condX + [s.cx])
  }

}
