/**
  Run-length view of a sequence: the maximal blocks of consecutive equal
  elements, each with its key and its length. This is the reference against
  which the streaming counters of the conditional-entropy machine are proved.
*/
module RunLength {

  /** A maximal block of `length` consecutive copies of `key`. */
  datatype Run<T> = Run(key: T, length: nat)

  /** Appends run `r` to `rs`, merging it into the last run when the keys agree. */
  function Add<T(==)>(rs: seq<Run<T>>, r: Run<T>): (rs': seq<Run<T>>)
    ensures |rs'| > 0 && rs'[|rs'| - 1].key == r.key
  {
    if rs != [] && rs[|rs| - 1].key == r.key then rs[..|rs| - 1] + [Run(r.key, rs[|rs| - 1].length + r.length)]
    else rs + [r]
  }

  /** Two runs of the same key added in turn are one run of their joint length. */
  lemma AddTwice<T>(rs: seq<Run<T>>, k: T, a: nat, b: nat)
    ensures Add(Add(rs, Run(k, a)), Run(k, b)) == Add(rs, Run(k, a + b))
  {
    var once := Add(rs, Run(k, a));
    assert once[..|once| - 1] == if rs != [] && rs[|rs| - 1].key == k then rs[..|rs| - 1] else rs;
  }

  /** The runs of `s`, built from the left end; the last run is the one of the last element. */
  function Runs<T(==)>(s: seq<T>): (rs: seq<Run<T>>)
    ensures |rs| <= |s|
    ensures |s| > 0 ==> |rs| > 0 && rs[|rs| - 1].key == s[|s| - 1]
    decreases |s|
  {
    if |s| == 0 then [] else Add(Runs(s[..|s| - 1]), Run(s[|s| - 1], 1))
  }

  /** The lengths of the runs, in order. */
  function Lengths<T>(rs: seq<Run<T>>): (cs: seq<nat>)
    ensures |cs| == |rs|
    ensures forall i :: 0 <= i < |rs| ==> cs[i] == rs[i].length
  {
    seq(|rs|, i requires 0 <= i < |rs| => rs[i].length)
  }

  function Repeat<T>(v: T, n: nat): (s: seq<T>)
    ensures |s| == n
    ensures forall i :: 0 <= i < n ==> s[i] == v
  {
    seq(n, _ => v)
  }

  /** Run-length decoding: each run expanded to `length` copies of its key. */
  function Expand<T>(rs: seq<Run<T>>): seq<T>
  {
    if rs == [] then []
    else Expand(rs[..|rs| - 1]) + Repeat(rs[|rs| - 1].key, rs[|rs| - 1].length)
  }

  function Sum(cs: seq<nat>): nat
  {
    if cs == [] then 0 else Sum(cs[..|cs| - 1]) + cs[|cs| - 1]
  }

  lemma SumSnoc(cs: seq<nat>, c: nat)
    ensures Sum(cs + [c]) == Sum(cs) + c
  {
    assert (cs + [c])[..|cs|] == cs;
  }

  /** The lengths after adding a run: the last length grows, or the new length is appended. */
  lemma LengthsAdd<T>(rs: seq<Run<T>>, r: Run<T>)
    ensures Lengths(Add(rs, r)) ==
      if rs != [] && rs[|rs| - 1].key == r.key then Lengths(rs)[..|rs| - 1] + [rs[|rs| - 1].length + r.length]
      else Lengths(rs) + [r.length]
  {
  }

  /**
    A streaming counter that has pushed `flushed` and holds `open` for the
    current run follows the runs: the next element either extends the open
    run or closes it and opens a run of one.
  */
  lemma OpenRunStep<T>(rs: seq<Run<T>>, flushed: seq<nat>, open: nat, t: T)
    requires rs != [] && flushed + [open] == Lengths(rs)
    ensures rs[|rs| - 1].key == t ==> flushed + [open + 1] == Lengths(Add(rs, Run(t, 1)))
    ensures rs[|rs| - 1].key != t ==> flushed + [open] + [1] == Lengths(Add(rs, Run(t, 1)))
  {
    LengthsAdd(rs, Run(t, 1));
    assert Lengths(rs)[|rs| - 1] == open && Lengths(rs)[..|rs| - 1] == flushed;
  }

  /** A counter that follows non-empty runs has pushed only positive counts, adding up with the open one. */
  lemma FlushedTotal<T>(rs: seq<Run<T>>, flushed: seq<nat>, open: nat)
    requires flushed + [open] == Lengths(rs)
    requires Positive(rs)
    ensures Sum(flushed) + open == Sum(Lengths(rs))
    ensures open >= 1
    ensures forall i :: 0 <= i < |flushed| ==> flushed[i] >= 1
  {
    SumSnoc(flushed, open);
    assert open == Lengths(rs)[|flushed|] == rs[|flushed|].length;
    forall i | 0 <= i < |flushed| ensures flushed[i] >= 1 {
      assert flushed[i] == Lengths(rs)[i] == rs[i].length;
    }
  }

  /** Every run holds at least one element. */
  ghost predicate Positive<T>(rs: seq<Run<T>>)
  {
    forall i :: 0 <= i < |rs| ==> rs[i].length >= 1
  }

  /** Neighbouring runs have different keys, so no two runs could be merged. */
  ghost predicate Maximal<T>(rs: seq<Run<T>>)
  {
    forall i :: 0 < i < |rs| ==> rs[i - 1].key != rs[i].key
  }

  /** Equal elements of `s` stand next to each other (as in a sorted sequence). */
  ghost predicate Grouped<T>(s: seq<T>)
  {
    forall i, j, k :: 0 <= i < j < k < |s| && s[i] == s[k] ==> s[j] == s[i]
  }

  /** Unfolding `Runs` at a one-element extension. */
  lemma RunsSnoc<T>(p: seq<T>, t: T)
    ensures Runs(p + [t]) == Add(Runs(p), Run(t, 1))
  {
    assert (p + [t])[..|p|] == p;
  }

  /** Adding a run decodes to the old decoding followed by the run's copies. */
  lemma AddExpand<T>(rs: seq<Run<T>>, r: Run<T>)
    ensures Expand(Add(rs, r)) == Expand(rs) + Repeat(r.key, r.length)
    ensures Positive(rs) && r.length >= 1 ==> Positive(Add(rs, r))
    ensures Maximal(rs) ==> Maximal(Add(rs, r))
  {
    var rs' := Add(rs, r);
    assert rs'[..|rs'| - 1] == if rs != [] && rs[|rs| - 1].key == r.key then rs[..|rs| - 1] else rs;
    if rs != [] && rs[|rs| - 1].key == r.key {
      var front, last := rs[..|rs| - 1], rs[|rs| - 1];
      assert rs == front + [last];
      assert Expand(rs) == Expand(front) + Repeat(r.key, last.length);
      assert Repeat(r.key, last.length + r.length) == Repeat(r.key, last.length) + Repeat(r.key, r.length);
    }
  }

  /** The runs of a sequence decode back to it; they are non-empty and maximal. */
  lemma {:induction false} RunsDecode<T>(s: seq<T>)
    ensures Expand(Runs(s)) == s
    ensures Positive(Runs(s))
    ensures Maximal(Runs(s))
    decreases |s|
  {
    if s != [] {
      var p, t := s[..|s| - 1], s[|s| - 1];
      var rp := Runs(p);
      assert Runs(s) == Add(rp, Run(t, 1));
      RunsDecode(p);
      AddExpand(rp, Run(t, 1));
      assert Repeat(t, 1) == [t];
      assert s == p + [t];
    }
  }

  /** Decoding produces exactly as many elements as the lengths add up to. */
  lemma {:induction false} ExpandLength<T>(rs: seq<Run<T>>)
    ensures |Expand(rs)| == Sum(Lengths(rs))
    decreases |rs|
  {
    if rs != [] {
      ExpandLength(rs[..|rs| - 1]);
      assert Lengths(rs)[..|rs| - 1] == Lengths(rs[..|rs| - 1]);
    }
  }

  /** The run lengths of `s` add up to its length. */
  lemma RunsTotal<T>(s: seq<T>)
    ensures Sum(Lengths(Runs(s))) == |s|
  {
    RunsDecode(s);
    ExpandLength(Runs(s));
  }

  /**
    Counts that follow the runs of `s` (all but the last pushed, the last one
    open) add up to `|s|` and are all at least 1.
  */
  lemma RunCounts<T>(s: seq<T>, flushed: seq<nat>, open: nat)
    requires flushed + [open] == Lengths(Runs(s))
    ensures Sum(flushed) + open == |s|
    ensures open >= 1
    ensures forall i :: 0 <= i < |flushed| ==> flushed[i] >= 1
  {
    RunsTotal(s);
    RunsDecode(s);
    FlushedTotal(Runs(s), flushed, open);
  }

  /** A non-empty block of copies holds exactly its key. */
  lemma RepeatMembers<T>(k: T, n: nat, e: T)
    requires n >= 1
    ensures e in Repeat(k, n) <==> k == e
  {
    if k == e {
      assert Repeat(k, n)[0] == e;
    }
  }

  /** A key occurs among the runs with one more run appended iff it occurs before or is the new run's. */
  lemma KeysSnoc<T>(front: seq<Run<T>>, last: Run<T>, e: T)
    ensures (exists i :: 0 <= i < |front| + 1 && (front + [last])[i].key == e) <==>
      (exists i :: 0 <= i < |front| && front[i].key == e) || last.key == e
  {
    var rs := front + [last];
    if exists i :: 0 <= i < |rs| && rs[i].key == e {
      var i :| 0 <= i < |rs| && rs[i].key == e;
      if i < |front| {
        assert front[i].key == e;
      }
    }
    if exists i :: 0 <= i < |front| && front[i].key == e {
      var i :| 0 <= i < |front| && front[i].key == e;
      assert rs[i].key == e;
    }
    if last.key == e {
      assert rs[|front|].key == e;
    }
  }

  /** The elements of a decoding are the keys of its non-empty runs. */
  lemma {:induction false} ExpandMembers<T>(rs: seq<Run<T>>, e: T)
    requires Positive(rs)
    ensures e in Expand(rs) <==> exists i :: 0 <= i < |rs| && rs[i].key == e
    decreases |rs|
  {
    if rs != [] {
      var front, last := rs[..|rs| - 1], rs[|rs| - 1];
      assert Expand(rs) == Expand(front) + Repeat(last.key, last.length);
      ExpandMembers(front, e);
      RepeatMembers(last.key, last.length, e);
      KeysSnoc(front, last, e);
      assert rs == front + [last];
    }
  }

  /** The multiplicity property, as carried from a prefix `p` to `s`. */
  ghost predicate Counted<T>(s: seq<T>, rs: seq<Run<T>>)
  {
    && (forall i, j :: 0 <= i < j < |rs| ==> rs[i].key != rs[j].key)
    && (forall i :: 0 <= i < |rs| ==> multiset(s)[rs[i].key] == rs[i].length)
  }

  /** Extending the last run by one more copy of its key keeps every run's multiplicity. */
  lemma CountedExtendLast<T>(p: seq<T>, rp: seq<Run<T>>, t: T)
    requires |rp| > 0 && rp[|rp| - 1].key == t
    requires Counted(p, rp)
    ensures Counted(p + [t], rp[..|rp| - 1] + [Run(t, rp[|rp| - 1].length + 1)])
  {
    var n := |rp| - 1;
    var rs := rp[..n] + [Run(t, rp[n].length + 1)];
    var ms := multiset(p + [t]);
    assert ms == multiset(p) + multiset{t};
    forall i | 0 <= i < |rs| ensures ms[rs[i].key] == rs[i].length {
      if i < n {
        assert rs[i] == rp[i] && rp[i].key != rp[n].key;
      } else {
        assert rs[i] == Run(t, rp[n].length + 1);
      }
    }
    forall i, j | 0 <= i < j < |rs| ensures rs[i].key != rs[j].key {
      assert rs[i].key == rp[i].key && rs[j].key == rp[j].key;
    }
  }

  /** Opening a run for an element not seen before keeps every run's multiplicity. */
  lemma CountedOpen<T>(p: seq<T>, rp: seq<Run<T>>, t: T)
    requires t !in multiset(p)
    requires Counted(p, rp)
    requires Positive(rp)
    ensures Counted(p + [t], rp + [Run(t, 1)])
  {
    var rs := rp + [Run(t, 1)];
    var ms := multiset(p + [t]);
    assert ms == multiset(p) + multiset{t};
    forall i | 0 <= i < |rp| ensures rp[i].key != t {
      assert multiset(p)[rp[i].key] >= 1;
    }
    forall i | 0 <= i < |rs| ensures ms[rs[i].key] == rs[i].length {
      if i < |rp| {
        assert rs[i] == rp[i];
      }
    }
    forall i, j | 0 <= i < j < |rs| ensures rs[i].key != rs[j].key {
      assert rs[i] == rp[i];
    }
  }

  /** Adding one element to the runs keeps the multiplicities when it extends the last run or is new. */
  lemma CountedAdd<T>(p: seq<T>, rp: seq<Run<T>>, t: T)
    requires Counted(p, rp) && Positive(rp)
    requires (rp != [] && rp[|rp| - 1].key == t) || t !in multiset(p)
    ensures Counted(p + [t], Add(rp, Run(t, 1)))
  {
    if rp != [] && rp[|rp| - 1].key == t {
      CountedExtendLast(p, rp, t);
    } else {
      CountedOpen(p, rp, t);
    }
  }

  /** In a grouped sequence, an element different from the last one does not occur before. */
  lemma GroupedFresh<T>(p: seq<T>, t: T)
    requires Grouped(p + [t])
    requires p == [] || p[|p| - 1] != t
    ensures t !in multiset(p)
  {
    var s := p + [t];
    forall i | 0 <= i < |p| ensures p[i] != t {
      assert s[i] == p[i] && s[|p|] == t;
      if i < |p| - 1 {
        assert s[|p| - 1] == p[|p| - 1];
      }
    }
  }

  lemma GroupedPrefix<T>(p: seq<T>, t: T)
    requires Grouped(p + [t])
    ensures Grouped(p)
  {
    var s := p + [t];
    forall i, j, k | 0 <= i < j < k < |p| && p[i] == p[k] ensures p[j] == p[i] {
      assert s[i] == p[i] && s[j] == p[j] && s[k] == p[k];
    }
  }

  /**
    In a grouped sequence each element occurs in exactly one run: the keys of
    the runs are pairwise distinct and each run's length is the multiplicity
    of its key.
  */
  lemma {:induction false} RunsMultiplicity<T>(s: seq<T>)
    requires Grouped(s)
    ensures Counted(s, Runs(s))
    decreases |s|
  {
    if s != [] {
      var p, t := s[..|s| - 1], s[|s| - 1];
      assert s == p + [t];
      GroupedPrefix(p, t);
      RunsMultiplicity(p);
      RunsDecode(p);
      if p == [] || p[|p| - 1] != t {
        GroupedFresh(p, t);
      }
      CountedAdd(p, Runs(p), t);
      RunsSnoc(p, t);
    }
  }
}
