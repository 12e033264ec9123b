/** The `sustained_240` relation of maritime_convert.py. */
module SustainedRelation {
  import opened Lists
  import opened IntervalAlgebra

  /*
   The interval algebra that `convert` runs on a vessel pair, proved to say what the relation's
   definition says about seconds.
   */

  const SUSTAINED_MIN_S: int := 240

  /** One vessel's parsed interval lists; the parser keeps an interval only if it is non-empty. */
  datatype Vessel = Vessel(low: seq<Interval>, stoppedFar: seq<Interval>, nearPorts: seq<Interval>,
                           nearCoast: seq<Interval>) {
    predicate Valid() {
      NonEmpty(low) && NonEmpty(stoppedFar) && NonEmpty(nearPorts) && NonEmpty(nearCoast)
    }
  }

  /** Both vessels, near each other, are slow and away from ports and coast at second `t`. */
  ghost predicate Rendezvousing(proximity: seq<Interval>, v1: Vessel, v2: Vessel, t: int) {
    && Covered(proximity, t)
    && (Covered(v1.low, t) || Covered(v1.stoppedFar, t))
    && (Covered(v2.low, t) || Covered(v2.stoppedFar, t))
    && !Covered(v1.nearPorts, t) && !Covered(v1.nearCoast, t)
    && !Covered(v2.nearPorts, t) && !Covered(v2.nearCoast, t)
  }

  /** Second `t` lies in some window of at least 240 seconds in which the pair rendezvous throughout. */
  ghost predicate Sustained(proximity: seq<Interval>, v1: Vessel, v2: Vessel, t: int) {
    exists s, e :: s <= t < e && e - s >= SUSTAINED_MIN_S && ThroughoutWindow(proximity, v1, v2, s, e)
  }

  ghost predicate ThroughoutWindow(proximity: seq<Interval>, v1: Vessel, v2: Vessel, s: int, e: int) {
    forall u :: s <= u < e ==> Rendezvousing(proximity, v1, v2, u)
  }

  function StartEnd(): Interval -> (int, int) {
    (iv: Interval) => (iv.st, iv.et)
  }

  lemma SortedKeepsSeconds(ivs: seq<Interval>)
    requires NonEmpty(ivs)
    ensures SortedByStart(Sorted(ivs, StartEnd())) && NonEmpty(Sorted(ivs, StartEnd()))
    ensures forall t :: Covered(Sorted(ivs, StartEnd()), t) <==> Covered(ivs, t)
  {
    var s := Sorted(ivs, StartEnd());
    SameElements(s, ivs);
    forall i | 0 <= i < |s|
      ensures s[i].st < s[i].et
    {
      assert s[i] in s;
    }
    forall i, j | 0 <= i < j < |s|
      ensures s[i].st <= s[j].st
    {
      assert KeyLeq(StartEnd()(s[i]), StartEnd()(s[j]));
    }
    SameSeconds(s, ivs);
    SameSeconds(ivs, s);
  }

  lemma SameSeconds(a: seq<Interval>, b: seq<Interval>)
    requires forall x :: x in a ==> x in b
    ensures forall t :: Covered(a, t) ==> Covered(b, t)
  {
    forall t | Covered(a, t)
      ensures Covered(b, t)
    {
      var i :| 0 <= i < |a| && a[i].Has(t);
      assert a[i] in b;
      var j :| 0 <= j < |b| && b[j] == a[i];
      assert b[j].Has(t);
    }
  }

  lemma CoveredByEither(a: seq<Interval>, b: seq<Interval>, t: int)
    ensures Covered(a + b, t) <==> Covered(a, t) || Covered(b, t)
  {
    if Covered(a, t) {
      var i :| 0 <= i < |a| && a[i].Has(t);
      assert (a + b)[i].Has(t);
    }
    if Covered(b, t) {
      var i :| 0 <= i < |b| && b[i].Has(t);
      assert (a + b)[|a| + i].Has(t);
    }
  }

  /** `_merge_sorted_intervals(sorted(a + b))`, the shape of both per-vessel helpers. */
  method MergeUnion(a: seq<Interval>, b: seq<Interval>) returns (merged: seq<Interval>)
    requires NonEmpty(a) && NonEmpty(b)
    ensures Separated(merged)
    ensures forall t :: Covered(merged, t) <==> Covered(a, t) || Covered(b, t)
  {
    SortedKeepsSeconds(a + b);
    forall t
      ensures Covered(a + b, t) <==> Covered(a, t) || Covered(b, t)
    {
      CoveredByEither(a, b, t);
    }
    merged := MergeSorted(Sorted(a + b, StartEnd()));
  }

  /** The second lies in an interval that lasts long enough. */
  ghost predicate InLong(all: seq<Interval>, t: int) {
    exists i :: 0 <= i < |all| && all[i].Has(t) && all[i].et - all[i].st >= SUSTAINED_MIN_S
  }

  /** The components of a separated list that last long enough. */
  ghost predicate LongOnly(all: seq<Interval>, long: seq<Interval>) {
    && Disjoint(long)
    && forall t :: Covered(long, t) <==> InLong(all, t)
  }

  /** The duration filter of `convert`. */
  method KeepLong(all: seq<Interval>) returns (long: seq<Interval>)
    requires Separated(all)
    ensures LongOnly(all, long)
  {
    long := [];
    for i := 0 to |all|
      invariant LongSoFar(all, i, long)
    {
      KeepStep(all, i, long);
      if all[i].et - all[i].st >= SUSTAINED_MIN_S {
        long := long + [all[i]];
      }
    }
    assert all[..|all|] == all;
  }

  /** The long ones among the first `i`, all of which end before the next begins. */
  ghost predicate LongSoFar(all: seq<Interval>, i: nat, long: seq<Interval>) {
    && i <= |all| && LongOnly(all[..i], long)
    && (i < |all| ==> forall k :: 0 <= k < |long| ==> long[k].et < all[i].st)
  }

  lemma KeepStep(all: seq<Interval>, i: nat, long: seq<Interval>)
    requires Separated(all) && i < |all| && LongSoFar(all, i, long)
    ensures LongSoFar(all, i + 1, if all[i].et - all[i].st >= SUSTAINED_MIN_S then long + [all[i]] else long)
  {
    var next := if all[i].et - all[i].st >= SUSTAINED_MIN_S then long + [all[i]] else long;
    var before, after := all[..i], all[..i + 1];
    forall t
      ensures Covered(next, t)
              <==> exists k :: 0 <= k < |after| && after[k].Has(t) && after[k].et - after[k].st >= SUSTAINED_MIN_S
    {
      CoveredAppend(long, all[i], t);
      if Covered(long, t) {
        var k :| 0 <= k < |before| && before[k].Has(t) && before[k].et - before[k].st >= SUSTAINED_MIN_S;
        assert after[k] == before[k];
      }
      if k :| 0 <= k < |after| && after[k].Has(t) && after[k].et - after[k].st >= SUSTAINED_MIN_S {
        if k < i {
          assert before[k] == after[k];
        }
      }
      assert after[i] == all[i];
    }
  }

  /** The pair's sustained intervals, as `convert` computes them before its row loop. */
  method SustainedIntervals(proximity: seq<Interval>, v1: Vessel, v2: Vessel) returns (sustained: seq<Interval>)
    requires NonEmpty(proximity) && v1.Valid() && v2.Valid()
    ensures Disjoint(sustained)
    ensures forall t :: Covered(sustained, t) <==> Sustained(proximity, v1, v2, t)
  {
    var prox := MergeUnion(proximity, []);
    var slow1 := MergeUnion(v1.low, v1.stoppedFar);
    var slow2 := MergeUnion(v2.low, v2.stoppedFar);
    var near1 := MergeUnion(v1.nearPorts, v1.nearCoast);
    var near2 := MergeUnion(v2.nearPorts, v2.nearCoast);
    var bothSlow := IntersectSorted(slow1, slow2);
    var inter := IntersectSorted(prox, bothSlow);
    var nearUnion := MergeUnion(near1, near2);
    var all := SubtractSorted(inter, nearUnion);
    forall t
      ensures Covered(all, t) <==> Rendezvousing(proximity, v1, v2, t)
    {
      assert Covered(all, t) <==> CoveredByFirstOnly(inter, nearUnion, t);
      assert Covered(inter, t) <==> CoveredByBoth(prox, bothSlow, t);
      assert Covered(bothSlow, t) <==> CoveredByBoth(slow1, slow2, t);
      assert !Covered([], t);
    }
    sustained := KeepLong(all);
    forall t
      ensures Covered(sustained, t) <==> Sustained(proximity, v1, v2, t)
    {
      LongComponentIsWindow(all, proximity, v1, v2, t);
    }
  }

  /** A second is in a long maximal component exactly when some long window of such seconds holds it. */
  lemma LongComponentIsWindow(all: seq<Interval>, proximity: seq<Interval>, v1: Vessel, v2: Vessel, t: int)
    requires Separated(all) && forall u :: Covered(all, u) <==> Rendezvousing(proximity, v1, v2, u)
    ensures InLong(all, t) <==> Sustained(proximity, v1, v2, t)
  {
    if i :| 0 <= i < |all| && all[i].Has(t) && all[i].et - all[i].st >= SUSTAINED_MIN_S {
      forall u | all[i].st <= u < all[i].et
        ensures Rendezvousing(proximity, v1, v2, u)
      {
        assert all[i].Has(u);
        assert Covered(all, u);
      }
      assert ThroughoutWindow(proximity, v1, v2, all[i].st, all[i].et);
    }
    if Sustained(proximity, v1, v2, t) {
      var s, e :| s <= t < e && e - s >= SUSTAINED_MIN_S && ThroughoutWindow(proximity, v1, v2, s, e);
      forall u | s <= u <= e - 1
        ensures Covered(all, u)
      {
        assert Rendezvousing(proximity, v1, v2, u);
      }
      RunInOneInterval(all, s, e - 1);
    }
  }

  /** The rows of `times`, ascending, at which `p` holds. */
  ghost predicate RowsWhere(rows: seq<nat>, times: seq<int>, n: nat, p: int -> bool)
    requires n <= |times|
  {
    && (forall k :: 0 <= k < |rows| ==> rows[k] < n)
    && (forall j, k :: 0 <= j < k < |rows| ==> rows[j] < rows[k])
    && (forall r: nat :: r < n ==> (r in rows <==> p(times[r])))
  }

  /** The `sustained_240` rows of one pair's timeline. */
  method SustainedRows(proximity: seq<Interval>, v1: Vessel, v2: Vessel, times: seq<int>) returns (rows: seq<nat>)
    requires NonEmpty(proximity) && v1.Valid() && v2.Valid()
    ensures RowsWhere(rows, times, |times|, t => Sustained(proximity, v1, v2, t))
  {
    var sustained := SustainedIntervals(proximity, v1, v2);
    rows := [];
    ghost var p := t => Sustained(proximity, v1, v2, t);
    for r := 0 to |times|
      invariant RowsWhere(rows, times, r, p)
    {
      var here := Covers(sustained, times[r]);
      assert here <==> p(times[r]);
      if here {
        rows := rows + [r];
      }
    }
  }
}
