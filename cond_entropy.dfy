/**
  The CondEntropy accumulator: an object whose fields are updated in place as
  bags of (x, y) tuples stream through it. Each method is proved to leave the
  object in the state the machine of CondEntropyMachine prescribes, so the
  theorems of CondEntropyTheorems hold of the object.
*/
module EntropyUdf {
  import opened Wrappers
  import opened Pairs
  import opened CondEntropyMachine
  import RunLength
  import CondEntropyTheorems

  class CondEntropy {
    /** Last visited tuple; None before the first one. */
    var xy: Option<Pair>
    /** Occurrences of the last visited (x, y) in its current run. */
    var cxy: nat
    /** Occurrences of the last visited x in its current run. */
    var cx: nat
    /** The last non-zero comparison of a tuple with its predecessor. */
    var lastCmp: int
    /** The counts pushed into the estimator for H(X,Y). */
    var combCounts: seq<nat>
    /** The counts pushed into the estimator for H(X). */
    var condXCounts: seq<nat>
    /** The estimator policy: the entropy of a distribution given its occurrence counts. */
    const entropy: seq<nat> -> real

    function State(): CounterState
      reads this
    {
      CounterState(xy, cxy, cx, lastCmp, combCounts, condXCounts)
    }

    /** Both estimators get the same policy; the instance starts cleaned up. */
    constructor (entropy: seq<nat> -> real)
      ensures State() == Empty()
      ensures this.entropy == entropy
    {
      this.entropy := entropy;
      new;
      Cleanup();
    }

    /**
      Streams the tuples of one bag through the counters. On an out-of-order
      tuple it stops and reports it, leaving the state the tuples before it
      produced.
    */
    method Accumulate(bag: seq<Pair>) returns (failure: Option<OrderError>)
      modifies this
      ensures Accumulated(State(), failure) == CondEntropyMachine.Accumulate(old(State()), bag)
    {
      failure := None;
      ghost var goal := CondEntropyMachine.Accumulate(State(), bag);
      var i := 0;
      while i < |bag|
        invariant 0 <= i <= |bag|
        invariant CondEntropyMachine.Accumulate(State(), bag[i..]) == goal
        invariant failure == None
      {
        ghost var before := State();
        assert bag[i..][0] == bag[i] && bag[i..][1..] == bag[i + 1..];
        CondEntropyTheorems.AccumulateCons(before, bag[i..]);
        failure := Visit(bag[i]);
        if failure.Some? {
          return;
        }
        i := i + 1;
      }
    }

    /**
      The body of accumulate's loop for one tuple `t`: the order check, the
      flushes of finished runs, and the count of `t`. An out-of-order tuple
      changes nothing.
    */
    method Visit(t: Pair) returns (failure: Option<OrderError>)
      modifies this
      ensures Step(old(State()), t).Failure? ==>
        failure == Some(Step(old(State()), t).error) && State() == old(State())
      ensures Step(old(State()), t).Success? ==>
        failure == None && State() == Step(old(State()), t).value
    {
      ghost var before := State();
      if xy.Some? {
        var cmp := Compare(t, xy.value);
        if (cmp < 0 && lastCmp > 0) || (cmp > 0 && lastCmp < 0) {
          failure := Some(OutOfOrder(xy.value, t, cmp, lastCmp));
          assert Step(before, t) == Failure(failure.value);
          return;
        }
        ghost var prev := xy.value;
        if cmp != 0 {
          combCounts := combCounts + [cxy];
          cxy := 0;
          lastCmp := cmp;
          if CompareValue(xy.value.x, t.x) != 0 {
            condXCounts := condXCounts + [cx];
            cx := 0;
          }
        }
        assert State() == Flush(before, prev, t, cmp);
      }
      ghost var after := Count(State(), t);
      assert Step(before, t) == Success(after);
      xy := Some(t);
      cx := cx + 1;
      cxy := cxy + 1;
      failure := None;
      assert State() == after;
    }

    /**
      Pushes the open runs into the estimators and returns H(X,Y) - H(X). The
      tuple and the open counts are left as they are.
    */
    method GetValue() returns (v: real)
      modifies this
      ensures State() == Finish(old(State()))
      ensures v == entropy(combCounts) - entropy(condXCounts)
    {
      combCounts := combCounts + [cxy];
      condXCounts := condXCounts + [cx];
      v := entropy(combCounts) - entropy(condXCounts);
    }

    /** Returns the instance to its empty state, resetting both estimators. */
    method Cleanup()
      modifies this
      ensures State() == Empty()
      ensures xy == None && cxy == 0 && cx == 0 && lastCmp == 0
      ensures combCounts == [] && condXCounts == []
    {
      xy := None;
      cxy := 0;
      cx := 0;
      lastCmp := 0;
      combCounts := [];
      condXCounts := [];
    }
  }

  /**
    A caller's view: after cleanup, two bags accumulated one after the other
    and a getValue, on a stream sorted as a whole.
  */
  method TwoBatches(c: CondEntropy, b1: seq<Pair>, b2: seq<Pair>) returns (v: real)
    requires Monotone(b1 + b2) && b1 + b2 != []
    modifies c
    ensures c.combCounts == RunLength.Lengths(RunLength.Runs(b1 + b2))
    ensures c.condXCounts == RunLength.Lengths(RunLength.Runs(Xs(b1 + b2)))
    ensures v == c.entropy(c.combCounts) - c.entropy(c.condXCounts)
  {
    c.Cleanup();
    var f1 := c.Accumulate(b1);
    var f2 := c.Accumulate(b2);
    CondEntropyTheorems.AccumulateConcat(Empty(), b1, b2);
    CondEntropyTheorems.GetValueCounts(b1 + b2);
    v := c.GetValue();
  }
}
