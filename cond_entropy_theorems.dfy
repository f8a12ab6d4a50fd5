/**
  What the counter computes: accumulation is a fold that can be split at any
  point, it accepts exactly the streams sorted one way or the other, the sign
  it remembers never flips, and on an accepted stream getValue hands the
  estimators the run lengths of the pairs and of the x values.
*/
module CondEntropyTheorems {
  import opened Wrappers
  import opened RunLength
  import opened Pairs
  import opened CondEntropyMachine

  /** Accumulating `b1 + b2` is accumulating `b1`, then `b2` unless `b1` already failed. */
  lemma {:induction false} AccumulateConcat(s: CounterState, b1: seq<Pair>, b2: seq<Pair>)
    ensures Accumulate(s, b1 + b2) ==
      var r := Accumulate(s, b1);
      if r.failure.Some? then r else Accumulate(r.state, b2)
    decreases |b1|
  {
    if b1 == [] {
      assert b1 + b2 == b2;
    } else {
      assert (b1 + b2)[0] == b1[0];
      assert (b1 + b2)[1..] == b1[1..] + b2;
      match Step(s, b1[0])
      case Failure(_) =>
      case Success(s') => AccumulateConcat(s', b1[1..], b2);
    }
  }

  /** Accumulating a non-empty bag is a step on its first tuple, then the rest. */
  lemma AccumulateCons(s: CounterState, b: seq<Pair>)
    requires b != []
    ensures Step(s, b[0]).Failure? ==> Accumulate(s, b) == Accumulated(s, Some(Step(s, b[0]).error))
    ensures Step(s, b[0]).Success? ==> Accumulate(s, b) == Accumulate(Step(s, b[0]).value, b[1..])
  {
  }

  /** Accumulating one more tuple is one more step. */
  lemma AccumulateSnoc(s: CounterState, b: seq<Pair>, t: Pair)
    ensures Accumulate(s, b + [t]) ==
      var r := Accumulate(s, b);
      if r.failure.Some? then r
      else match Step(r.state, t)
        case Failure(e) => Accumulated(r.state, Some(e))
        case Success(s') => Accumulated(s', None)
  {
    AccumulateConcat(s, b, [t]);
    var r := Accumulate(s, b);
    assert [t][1..] == [];
  }

  /**
    A failed accumulation stops at some tuple `b[k]`: the tuples before it were
    all accepted, and the state is the one they left, which `b[k]` reverses.
  */
  lemma {:induction false} FailureStopsAtTuple(s: CounterState, b: seq<Pair>)
    requires Accumulate(s, b).failure.Some?
    ensures exists k ::
              && 0 <= k < |b|
              && Accumulate(s, b[..k]) == Accumulated(Accumulate(s, b).state, None)
              && Step(Accumulate(s, b).state, b[k]) == Failure(Accumulate(s, b).failure.value)
    decreases |b|
  {
    var r := Accumulate(s, b);
    match Step(s, b[0])
    case Failure(e) =>
      assert b[..0] == [];
      assert Accumulate(s, b[..0]) == Accumulated(r.state, None);
    case Success(s') =>
      FailureStopsAtTuple(s', b[1..]);
      var k :| 0 <= k < |b[1..]|
        && Accumulate(s', b[1..][..k]) == Accumulated(r.state, None)
        && Step(r.state, b[1..][k]) == Failure(r.failure.value);
      var pre := b[..k + 1];
      assert pre[0] == b[0] && pre[1..] == b[1..][..k];
      AccumulateCons(s, pre);
      assert Accumulate(s, pre) == Accumulated(r.state, None);
      assert b[k + 1] == b[1..][k];
  }

  /** Once set, the remembered comparison keeps its sign for the rest of the accumulation. */
  lemma {:induction false} AccumulateKeepsDirection(s: CounterState, b: seq<Pair>)
    ensures KeepsDirection(s.lastCmp, Accumulate(s, b).state.lastCmp)
    decreases |b|
  {
    if b != [] {
      match Step(s, b[0])
      case Failure(_) =>
      case Success(s') => AccumulateKeepsDirection(s', b[1..]);
    }
  }

  /** The remembered comparison says how the prefix seen so far is ordered. */
  ghost predicate OrderTracked(lastCmp: int, p: seq<Pair>)
  {
    && (lastCmp == 0 <==> AllEqual(p))
    && (lastCmp > 0 ==> NonDecreasing(p))
    && (lastCmp < 0 ==> NonIncreasing(p))
  }

  /**
    The state after accepting the prefix `p`: the counts pushed so far, followed
    by the open count, are the run lengths of `p` and of its x column.
  */
  ghost predicate Tracks(s: CounterState, p: seq<Pair>)
  {
    if p == [] then s == Empty()
    else
      && s.xy == Some(p[|p| - 1])
      && s.comb + [s.cxy] == Lengths(Runs(p))
      && s.condX + [s.cx] == Lengths(Runs(Xs(p)))
      && OrderTracked(s.lastCmp, p)
  }

  lemma OrderSnoc(p: seq<Pair>, t: Pair)
    requires p != []
    ensures NonDecreasing(p + [t]) <==> NonDecreasing(p) && Compare(t, p[|p| - 1]) >= 0
    ensures NonIncreasing(p + [t]) <==> NonIncreasing(p) && Compare(t, p[|p| - 1]) <= 0
    ensures AllEqual(p + [t]) <==> AllEqual(p) && t == p[|p| - 1]
  {
    var s := p + [t];
    assert forall i :: 0 <= i < |p| ==> s[i] == p[i];
    assert s[|p|] == t;
  }

  lemma BothWaysAllEqual(p: seq<Pair>)
    ensures NonDecreasing(p) && NonIncreasing(p) <==> AllEqual(p)
  {
  }

  /** One step keeps the ordering facts, and it succeeds exactly when the longer prefix is sorted. */
  lemma StepOrder(s: CounterState, p: seq<Pair>, t: Pair)
    requires p != [] && s.xy == Some(p[|p| - 1]) && OrderTracked(s.lastCmp, p)
    ensures Step(s, t).Success? <==> Monotone(p + [t])
    ensures Step(s, t).Success? ==> OrderTracked(Step(s, t).value.lastCmp, p + [t])
  {
    OrderSnoc(p, t);
    BothWaysAllEqual(p);
    BothWaysAllEqual(p + [t]);
  }

  /** What an accepted step does to the counters, case by case. */
  lemma StepCases(s: CounterState, t: Pair)
    requires s.xy.Some? && Step(s, t).Success?
    ensures var s', prev := Step(s, t).value, s.xy.value;
      && (t == prev ==> s'.comb == s.comb && s'.cxy == s.cxy + 1)
      && (t != prev ==> s'.comb == s.comb + [s.cxy] && s'.cxy == 1)
      && (t.x == prev.x ==> s'.condX == s.condX && s'.cx == s.cx + 1)
      && (t.x != prev.x ==> s'.condX == s.condX + [s.cx] && s'.cx == 1)
  {
  }

  /**
    A counter that follows the runs of `p` with `flushed` and `open` follows
    those of `p + [t]` once it keeps counting on an equal element and flushes
    and restarts on a different one.
  */
  lemma CounterFollows<T>(p: seq<T>, t: T, flushed: seq<nat>, open: nat, flushed': seq<nat>, open': nat)
    requires p != [] && flushed + [open] == Lengths(Runs(p))
    requires t == p[|p| - 1] ==> flushed' == flushed && open' == open + 1
    requires t != p[|p| - 1] ==> flushed' == flushed + [open] && open' == 1
    ensures flushed' + [open'] == Lengths(Runs(p + [t]))
  {
    RunsSnoc(p, t);
    OpenRunStep(Runs(p), flushed, open, t);
  }

  /** One accepted step keeps the joint counts equal to the run lengths of the pairs. */
  lemma StepJointCounts(s: CounterState, p: seq<Pair>, t: Pair)
    requires p != [] && s.xy == Some(p[|p| - 1])
    requires s.comb + [s.cxy] == Lengths(Runs(p))
    requires Step(s, t).Success?
    ensures Step(s, t).value.comb + [Step(s, t).value.cxy] == Lengths(Runs(p + [t]))
  {
    StepCases(s, t);
    CounterFollows(p, t, s.comb, s.cxy, Step(s, t).value.comb, Step(s, t).value.cxy);
  }

  /** One accepted step keeps the x counts equal to the run lengths of the x column. */
  lemma StepMarginalCounts(s: CounterState, p: seq<Pair>, t: Pair)
    requires p != [] && s.xy == Some(p[|p| - 1])
    requires s.condX + [s.cx] == Lengths(Runs(Xs(p)))
    requires Step(s, t).Success?
    ensures Step(s, t).value.condX + [Step(s, t).value.cx] == Lengths(Runs(Xs(p + [t])))
  {
    StepCases(s, t);
    assert Xs(p + [t]) == Xs(p) + [t.x];
    assert Xs(p)[|p| - 1] == p[|p| - 1].x;
    CounterFollows(Xs(p), t.x, s.condX, s.cx, Step(s, t).value.condX, Step(s, t).value.cx);
  }

  /** One step from a tracked state succeeds exactly on a sorted extension, and tracks it. */
  lemma StepTracks(s: CounterState, p: seq<Pair>, t: Pair)
    requires Tracks(s, p)
    ensures Step(s, t).Success? <==> Monotone(p + [t])
    ensures Step(s, t).Success? ==> Tracks(Step(s, t).value, p + [t])
  {
    if p == [] {
      assert p + [t] == [t];
      assert Runs([t]) == [Run(t, 1)] by { RunsSnoc([], t); }
      assert Xs([t]) == [t.x];
      assert Runs([t.x]) == [Run(t.x, 1)] by { RunsSnoc([], t.x); }
    } else {
      StepOrder(s, p, t);
      if Step(s, t).Success? {
        StepJointCounts(s, p, t);
        StepMarginalCounts(s, p, t);
      }
    }
  }

  lemma MonotonePrefix(p: seq<Pair>, t: Pair)
    requires Monotone(p + [t])
    ensures Monotone(p)
  {
    if p != [] {
      OrderSnoc(p, t);
    }
  }

  /**
    Accumulating from the empty state succeeds exactly on the streams that are
    sorted one way or the other, and then the state tracks the whole stream.
  */
  lemma {:induction false} AcceptedIffSorted(b: seq<Pair>)
    ensures Accumulate(Empty(), b).failure.None? <==> Monotone(b)
    ensures Accumulate(Empty(), b).failure.None? ==> Tracks(Accumulate(Empty(), b).state, b)
    decreases |b|
  {
    if b != [] {
      var q, t := b[..|b| - 1], b[|b| - 1];
      assert b == q + [t];
      AcceptedIffSorted(q);
      AccumulateSnoc(Empty(), q, t);
      var r := Accumulate(Empty(), q);
      if r.failure.None? {
        StepTracks(r.state, q, t);
      } else if Monotone(b) {
        MonotonePrefix(q, t);
      }
    }
  }

  /**
    getValue on a sorted stream: after the flush of the open runs, the joint
    estimator holds the run lengths of the pairs, the x estimator the run
    lengths of the x column, and each x count is the sum of the joint counts
    of the neighbouring pairs with that x.
  */
  lemma GetValueCounts(b: seq<Pair>)
    requires Monotone(b) && b != []
    ensures Accumulate(Empty(), b).failure.None?
    ensures Finish(Accumulate(Empty(), b).state).comb == Lengths(Runs(b))
    ensures Finish(Accumulate(Empty(), b).state).condX == Lengths(Runs(Xs(b)))
    ensures Runs(Xs(b)) == Coarsen(Runs(b))
  {
    AcceptedIffSorted(b);
    RunsOfXs(b);
  }

  /**
    On a sorted stream the counts are multiplicities: the joint estimator
    holds, in stream order, the number of occurrences of each distinct pair
    (every pair of the stream has exactly one count), and the x estimator the
    number of occurrences of each distinct x.
  */
  lemma SortedMultiplicities(b: seq<Pair>)
    requires Monotone(b) && b != []
    ensures var f := Finish(Accumulate(Empty(), b).state);
      && (forall e :: e in b <==> exists i :: 0 <= i < |Runs(b)| && Runs(b)[i].key == e)
      && (forall i, j :: 0 <= i < j < |Runs(b)| ==> Runs(b)[i].key != Runs(b)[j].key)
      && |f.comb| == |Runs(b)|
      && (forall i :: 0 <= i < |f.comb| ==> f.comb[i] == multiset(b)[Runs(b)[i].key])
      && (forall v :: v in Xs(b) <==> exists i :: 0 <= i < |Runs(Xs(b))| && Runs(Xs(b))[i].key == v)
      && (forall i, j :: 0 <= i < j < |Runs(Xs(b))| ==> Runs(Xs(b))[i].key != Runs(Xs(b))[j].key)
      && |f.condX| == |Runs(Xs(b))|
      && (forall i :: 0 <= i < |f.condX| ==> f.condX[i] == multiset(Xs(b))[Runs(Xs(b))[i].key])
  {
    GetValueCounts(b);
    var f := Finish(Accumulate(Empty(), b).state);
    var rs, xr := Runs(b), Runs(Xs(b));
    SortedGrouped(b);
    RunsMultiplicity(b);
    RunsMultiplicity(Xs(b));
    assert Counted(b, rs) && Counted(Xs(b), xr);
    forall i | 0 <= i < |f.comb| ensures f.comb[i] == multiset(b)[rs[i].key] {
      assert f.comb[i] == rs[i].length;
    }
    forall i | 0 <= i < |f.condX| ensures f.condX[i] == multiset(Xs(b))[xr[i].key] {
      assert f.condX[i] == xr[i].length;
    }
    RunsDecode(b);
    forall e ensures e in b <==> exists i :: 0 <= i < |rs| && rs[i].key == e {
      ExpandMembers(rs, e);
    }
    RunsDecode(Xs(b));
    forall v ensures v in Xs(b) <==> exists i :: 0 <= i < |xr| && xr[i].key == v {
      ExpandMembers(xr, v);
    }
  }

  /** getValue right after cleanup pushes a count of 0 into each estimator. */
  lemma GetValueOnEmpty()
    ensures Finish(Empty()).comb == [0] && Finish(Empty()).condX == [0]
  {
  }

  /**
    The counting invariant for `n` accepted tuples: the counts pushed into each
    estimator plus its open count add up to `n`, every pushed count is at least
    1, and the x estimator has received no more counts than the joint one.
  */
  ghost predicate CountsOk(s: CounterState, n: nat)
  {
    && Sum(s.comb) + s.cxy == n
    && Sum(s.condX) + s.cx == n
    && |s.condX| <= |s.comb|
    && (forall i :: 0 <= i < |s.comb| ==> s.comb[i] >= 1)
    && (forall i :: 0 <= i < |s.condX| ==> s.condX[i] >= 1)
  }

  /** The counting invariant of a state that tracks a non-empty accepted prefix. */
  lemma TrackedCounts(s: CounterState, b: seq<Pair>)
    requires b != [] && Tracks(s, b)
    ensures CountsOk(s, |b|)
  {
    RunCounts(b, s.comb, s.cxy);
    RunCounts(Xs(b), s.condX, s.cx);
    RunsOfXs(b);
    assert |Runs(Xs(b))| == |Coarsen(Runs(b))| <= |Runs(b)|;
    assert |s.condX| + 1 == |Runs(Xs(b))| && |s.comb| + 1 == |Runs(b)|;
  }

  lemma AcceptedCountsOk(b: seq<Pair>)
    requires Accumulate(Empty(), b).failure.None?
    ensures CountsOk(Accumulate(Empty(), b).state, |b|)
  {
    AcceptedIffSorted(b);
    var s := Accumulate(Empty(), b).state;
    assert Tracks(s, b);
    if b != [] {
      TrackedCounts(s, b);
    }
  }

  /**
    The counting invariant on every outcome of accumulate after cleanup: it
    holds for the whole bag when no error was raised, and otherwise for the
    `k` tuples before the one that raised it, which alone lead to the same state.
  */
  lemma AcceptedCounts(b: seq<Pair>)
    ensures var r := Accumulate(Empty(), b);
      && (r.failure.None? ==> CountsOk(r.state, |b|))
      && (r.failure.Some? ==> exists k ::
            && 0 <= k < |b|
            && Accumulate(Empty(), b[..k]) == Accumulated(r.state, None)
            && CountsOk(r.state, k))
  {
    var r := Accumulate(Empty(), b);
    if r.failure.None? {
      AcceptedCountsOk(b);
    } else {
      FailureStopsAtTuple(Empty(), b);
      var k :| 0 <= k < |b|
        && Accumulate(Empty(), b[..k]) == Accumulated(r.state, None)
        && Step(r.state, b[k]) == Failure(r.failure.value);
      AcceptedCountsOk(b[..k]);
      assert CountsOk(r.state, k);
    }
  }

  /** The sorted stream (1,a), (1,a), (1,b), (2,a), with a = 1 and b = 2. */
  lemma SortedExample()
    ensures var r := Accumulate(Empty(), [Pair(1, 1), Pair(1, 1), Pair(1, 2), Pair(2, 1)]);
      && r.failure == None
      && Finish(r.state).comb == [2, 1, 1]
      && Finish(r.state).condX == [3, 1]
  {
  }

  /** The same tuples with the last two swapped: the fourth one reverses the direction. */
  lemma SwappedExample()
    ensures Accumulate(Empty(), [Pair(1, 1), Pair(1, 1), Pair(2, 1), Pair(1, 2)]).failure
      == Some(OutOfOrder(Pair(2, 1), Pair(1, 2), -1, 1))
  {
  }
}
