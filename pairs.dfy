/**
  The input tuples of the conditional-entropy function: two-field tuples
  (x, y) compared lexicographically, x first, as Pig compares tuples field by
  field. Also the marginal view of a pair stream (its x column) and how the
  runs of the x column arise from the runs of the pairs.
*/
module Pairs {
  import opened RunLength

  /** A field value; the fields are compared as ordered scalars. */
  type Value = int

  datatype Pair = Pair(x: Value, y: Value)

  /** Reference order on pairs: lexicographic, x first. */
  predicate LexLess(a: Pair, b: Pair)
  {
    a.x < b.x || (a.x == b.x && a.y < b.y)
  }

  /** Three-way comparison of field values (Pig's DataType.compare). */
  function CompareValue(a: Value, b: Value): (r: int)
    ensures -1 <= r <= 1
    ensures r == 0 <==> a == b
    ensures r < 0 <==> a < b
  {
    if a < b then -1 else if a == b then 0 else 1
  }

  /** Three-way comparison of tuples, field by field (Pig's Tuple.compareTo). */
  function Compare(t: Pair, u: Pair): (r: int)
    ensures -1 <= r <= 1
    ensures r < 0 <==> LexLess(t, u)
    ensures r > 0 <==> LexLess(u, t)
    ensures r == 0 <==> t == u
    ensures t.x != u.x ==> r != 0
  {
    var c := CompareValue(t.x, u.x);
    if c != 0 then c else CompareValue(t.y, u.y)
  }

  /** Every tuple compares at least as large as its predecessor (ORDER BY x, y). */
  ghost predicate NonDecreasing(p: seq<Pair>)
  {
    forall i :: 0 < i < |p| ==> Compare(p[i], p[i - 1]) >= 0
  }

  /** Every tuple compares at most as large as its predecessor (ORDER BY x DESC, y DESC). */
  ghost predicate NonIncreasing(p: seq<Pair>)
  {
    forall i :: 0 < i < |p| ==> Compare(p[i], p[i - 1]) <= 0
  }

  ghost predicate AllEqual(p: seq<Pair>)
  {
    forall i :: 0 < i < |p| ==> p[i] == p[i - 1]
  }

  /** Sorted one way or the other. */
  ghost predicate Monotone(p: seq<Pair>)
  {
    NonDecreasing(p) || NonIncreasing(p)
  }

  /** The x column of a pair stream. */
  function Xs(p: seq<Pair>): (xs: seq<Value>)
    ensures |xs| == |p|
    ensures forall i :: 0 <= i < |p| ==> xs[i] == p[i].x
  {
    seq(|p|, i requires 0 <= i < |p| => p[i].x)
  }

  /**
    Merges neighbouring runs of pairs that share their x into one run of that
    x whose length is the sum of theirs.
  */
  function Coarsen(rs: seq<Run<Pair>>): (cs: seq<Run<Value>>)
    ensures |cs| <= |rs|
    ensures rs != [] ==> cs != [] && cs[|cs| - 1].key == rs[|rs| - 1].key.x
  {
    if rs == [] then []
    else Add(Coarsen(rs[..|rs| - 1]), Run(rs[|rs| - 1].key.x, rs[|rs| - 1].length))
  }

  /** Unfolding `Coarsen` at a one-run extension. */
  lemma CoarsenSnoc(rs: seq<Run<Pair>>, r: Run<Pair>)
    ensures Coarsen(rs + [r]) == Add(Coarsen(rs), Run(r.key.x, r.length))
  {
    assert (rs + [r])[..|rs|] == rs;
  }

  /** Coarsening commutes with adding a run. */
  lemma CoarsenAdd(rs: seq<Run<Pair>>, r: Run<Pair>)
    ensures Coarsen(Add(rs, r)) == Add(Coarsen(rs), Run(r.key.x, r.length))
  {
    if rs != [] && rs[|rs| - 1].key == r.key {
      var front, last := rs[..|rs| - 1], rs[|rs| - 1];
      assert rs == front + [last];
      CoarsenSnoc(front, last);
      CoarsenSnoc(front, Run(r.key, last.length + r.length));
      AddTwice(Coarsen(front), r.key.x, last.length, r.length);
    } else {
      CoarsenSnoc(rs, r);
    }
  }

  /**
    The runs of the x column are the runs of the pairs merged by x: each x
    count is the sum of the counts of the neighbouring pairs sharing that x.
  */
  lemma {:induction false} RunsOfXs(p: seq<Pair>)
    ensures Runs(Xs(p)) == Coarsen(Runs(p))
    decreases |p|
  {
    if p != [] {
      var q, t := p[..|p| - 1], p[|p| - 1];
      assert p == q + [t];
      assert Xs(p) == Xs(q) + [t.x];
      RunsOfXs(q);
      RunsSnoc(q, t);
      RunsSnoc(Xs(q), t.x);
      CoarsenAdd(Runs(q), Run(t, 1));
    }
  }

  /** In a sorted stream no tuple is out of order with any earlier one. */
  lemma {:induction false} MonotoneOrdered(p: seq<Pair>, i: nat, j: nat)
    requires i <= j < |p|
    ensures NonDecreasing(p) ==> !LexLess(p[j], p[i])
    ensures NonIncreasing(p) ==> !LexLess(p[i], p[j])
    decreases j - i
  {
    if i < j {
      MonotoneOrdered(p, i + 1, j);
      assert Compare(p[i + 1], p[i]) == Compare(p[i + 1], p[i + 1 - 1]);
    }
  }

  /** A sorted stream, and its x column, keep equal elements together. */
  lemma SortedGrouped(p: seq<Pair>)
    requires Monotone(p)
    ensures Grouped(p)
    ensures Grouped(Xs(p))
  {
    forall i, j, k | 0 <= i < j < k < |p| && p[i].x == p[k].x
      ensures p[j].x == p[i].x && (p[i] == p[k] ==> p[j] == p[i])
    {
      MonotoneOrdered(p, i, j);
      MonotoneOrdered(p, j, k);
    }
    var xs := Xs(p);
    forall i, j, k | 0 <= i < j < k < |xs| && xs[i] == xs[k] ensures xs[j] == xs[i] {
      assert p[i].x == p[k].x;
    }
  }
}
