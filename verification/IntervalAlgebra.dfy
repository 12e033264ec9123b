/** The interval-list algebra of maritime_convert.py. */
module IntervalAlgebra {
  import opened Lists

  /*
   Merge, cover, intersect and subtract over lists of half-open intervals of seconds, each proved
   against the set of seconds its list stands for.
   */

  /** The seconds `st <= t < et`. */
  datatype Interval = Interval(st: int, et: int) {
    predicate Has(t: int) {
      st <= t < et
    }
  }

  /** Second `t` lies in some interval of the list. */
  ghost predicate Covered(ivs: seq<Interval>, t: int) {
    exists i :: 0 <= i < |ivs| && ivs[i].Has(t)
  }

  predicate NonEmpty(ivs: seq<Interval>) {
    forall i :: 0 <= i < |ivs| ==> ivs[i].st < ivs[i].et
  }

  predicate SortedByStart(ivs: seq<Interval>) {
    forall i, j :: 0 <= i < j < |ivs| ==> ivs[i].st <= ivs[j].st
  }

  /** Sorted by start and pairwise disjoint (touching allowed). */
  predicate Disjoint(ivs: seq<Interval>) {
    NonEmpty(ivs) && forall i, j :: 0 <= i < j < |ivs| ==> ivs[i].et <= ivs[j].st
  }

  /** Strictly separated: each interval is a maximal run of the seconds the list covers. */
  predicate Separated(ivs: seq<Interval>) {
    NonEmpty(ivs) && forall i, j :: 0 <= i < j < |ivs| ==> ivs[i].et < ivs[j].st
  }

  lemma CoveredAppend(ivs: seq<Interval>, x: Interval, t: int)
    ensures Covered(ivs + [x], t) <==> Covered(ivs, t) || x.Has(t)
  {
    var s := ivs + [x];
    if Covered(ivs, t) {
      var i :| 0 <= i < |ivs| && ivs[i].Has(t);
      assert s[i].Has(t);
    }
    if x.Has(t) {
      assert s[|ivs|].Has(t);
    }
  }

  /** A run of covered seconds stays inside one interval of a separated list. */
  lemma {:induction false} RunInOneInterval(ivs: seq<Interval>, lo: int, hi: int)
    requires Separated(ivs) && lo <= hi && forall t :: lo <= t <= hi ==> Covered(ivs, t)
    ensures exists i :: 0 <= i < |ivs| && ivs[i].st <= lo && hi < ivs[i].et
    decreases hi - lo
  {
    if lo < hi {
      RunInOneInterval(ivs, lo, hi - 1);
      var i :| 0 <= i < |ivs| && ivs[i].st <= lo && hi - 1 < ivs[i].et;
      assert Covered(ivs, hi);
      var j :| 0 <= j < |ivs| && ivs[j].Has(hi);
    } else {
      assert Covered(ivs, lo);
    }
  }

  /** There is only one separated list for a set of seconds, so a point-set contract fixes the output. */
  lemma {:induction false} SeparatedIsUnique(a: seq<Interval>, b: seq<Interval>)
    requires Separated(a) && Separated(b)
    requires forall t :: Covered(a, t) <==> Covered(b, t)
    ensures a == b
  {
    if |b| < |a| {
      SamePosition(a, b, |b|);
    }
    if |a| < |b| {
      SamePosition(b, a, |a|);
    }
    forall k | 0 <= k < |a|
      ensures a[k] == b[k]
    {
      SamePosition(a, b, k);
    }
  }

  lemma {:induction false} SamePosition(a: seq<Interval>, b: seq<Interval>, k: nat)
    requires Separated(a) && Separated(b) && k < |a|
    requires forall t :: Covered(a, t) <==> Covered(b, t)
    ensures k < |b| && a[k] == b[k]
  {
    if k > 0 {
      SamePosition(a, b, k - 1);
    }
    var i := SameInterval(a, b, k);
    if i > k {
      var j := SameInterval(b, a, k);
      assert false;
    }
  }

  lemma SameInterval(a: seq<Interval>, b: seq<Interval>, k: nat) returns (i: nat)
    requires Separated(a) && Separated(b) && k < |a|
    requires forall t :: Covered(a, t) <==> Covered(b, t)
    ensures i < |b| && b[i] == a[k]
  {
    i := Containing(a, b, k);
    var j := Containing(b, a, i);
    assert a[k].Has(a[k].st);
    assert a[j].Has(a[k].st);
  }

  lemma Containing(a: seq<Interval>, b: seq<Interval>, k: nat) returns (i: nat)
    requires Separated(a) && Separated(b) && k < |a|
    requires forall t :: Covered(a, t) <==> Covered(b, t)
    ensures i < |b| && b[i].st <= a[k].st && a[k].et <= b[i].et
  {
    forall t | a[k].st <= t <= a[k].et - 1
      ensures Covered(b, t)
    {
      assert a[k].Has(t);
      assert Covered(a, t);
    }
    RunInOneInterval(b, a[k].st, a[k].et - 1);
    i :| 0 <= i < |b| && b[i].st <= a[k].st && a[k].et - 1 < b[i].et;
  }

  // ---------------------------------------------------------------- merge

  /** One turn of the merge loop. */
  function MergeOne(merged: seq<Interval>, x: Interval): seq<Interval> {
    var k := |merged| - 1;
    if |merged| > 0 && x.st <= merged[k].et then
      if x.et > merged[k].et then merged[..k] + [Interval(merged[k].st, x.et)] else merged
    else
      merged + [x]
  }

  /** The loop of `_merge_sorted_intervals` has consumed the first `i` intervals. */
  ghost predicate MergedSoFar(merged: seq<Interval>, ivs: seq<Interval>, i: nat) {
    && i <= |ivs| && Separated(merged)
    && (forall t :: Covered(merged, t) <==> Covered(ivs[..i], t))
    && (i < |ivs| ==> forall k :: 0 <= k < |merged| ==> merged[k].st <= ivs[i].st)
  }

  lemma MergeStep(merged: seq<Interval>, ivs: seq<Interval>, i: nat)
    requires SortedByStart(ivs) && NonEmpty(ivs) && i < |ivs| && MergedSoFar(merged, ivs, i)
    ensures MergedSoFar(MergeOne(merged, ivs[i]), ivs, i + 1)
  {
    var x, out, k := ivs[i], MergeOne(merged, ivs[i]), |merged| - 1;
    assert ivs[..i + 1] == ivs[..i] + [x];
    forall t
      ensures Covered(out, t) <==> Covered(ivs[..i + 1], t)
    {
      CoveredAppend(ivs[..i], x, t);
      if |merged| > 0 && x.st <= merged[k].et {
        assert merged == merged[..k] + [merged[k]];
        CoveredAppend(merged[..k], merged[k], t);
        CoveredAppend(merged[..k], Interval(merged[k].st, x.et), t);
      } else {
        CoveredAppend(merged, x, t);
      }
    }
  }

  /** `_merge_sorted_intervals`: the maximal runs of the seconds covered by `ivs`. */
  method MergeSorted(ivs: seq<Interval>) returns (merged: seq<Interval>)
    requires SortedByStart(ivs) && NonEmpty(ivs)
    ensures Separated(merged)
    ensures forall t :: Covered(merged, t) <==> Covered(ivs, t)
  {
    merged := [];
    for i := 0 to |ivs|
      invariant MergedSoFar(merged, ivs, i)
    {
      MergeStep(merged, ivs, i);
      ghost var next := MergeOne(merged, ivs[i]);
      var x, last := ivs[i], |merged| - 1;
      if |merged| > 0 && x.st <= merged[last].et {
        if x.et > merged[last].et {
          merged := merged[..last] + [Interval(merged[last].st, x.et)];
        }
      } else {
        merged := merged + [x];
      }
      assert merged == next;
    }
    assert ivs[..|ivs|] == ivs;
  }

  // ---------------------------------------------------------------- cover

  /** `bisect_right(starts, t)` for the ascending list of start times. */
  method BisectRight(ivs: seq<Interval>, t: int) returns (idx: nat)
    requires SortedByStart(ivs)
    ensures idx <= |ivs|
    ensures forall i :: 0 <= i < idx ==> ivs[i].st <= t
    ensures forall i :: idx <= i < |ivs| ==> t < ivs[i].st
  {
    var lo, hi := 0, |ivs|;
    while lo < hi
      invariant 0 <= lo <= hi <= |ivs|
      invariant forall i :: 0 <= i < lo ==> ivs[i].st <= t
      invariant forall i :: hi <= i < |ivs| ==> t < ivs[i].st
    {
      var mid := (lo + hi) / 2;
      if t < ivs[mid].st {
        hi := mid;
      } else {
        lo := mid + 1;
      }
    }
    idx := lo;
  }

  /** The interval with the last start at or before `t` covers `t`. */
  ghost predicate LastStartCovers(ivs: seq<Interval>, t: int) {
    exists i :: 0 <= i < |ivs| && ivs[i].Has(t) && forall j :: i < j < |ivs| ==> t < ivs[j].st
  }

  /** `_covers` looks at one interval only; on disjoint lists that is the whole answer. */
  method Covers(ivs: seq<Interval>, t: int) returns (covered: bool)
    requires SortedByStart(ivs)
    ensures covered <==> LastStartCovers(ivs, t)
    ensures Disjoint(ivs) ==> (covered <==> Covered(ivs, t))
  {
    if |ivs| == 0 {
      return false;
    }
    var idx := BisectRight(ivs, t);
    if idx == 0 {
      return false;
    }
    covered := ivs[idx - 1].Has(t);
  }

  // ---------------------------------------------------------------- intersection

  ghost predicate CoveredByBoth(a: seq<Interval>, b: seq<Interval>, t: int) {
    Covered(a, t) && Covered(b, t)
  }

  /** `out` is the intersection up to the point the two pointers `i` and `j` have reached. */
  ghost predicate IntersectedSoFar(a: seq<Interval>, b: seq<Interval>, i: nat, j: nat, out: seq<Interval>) {
    && i <= |a| && j <= |b| && Separated(out)
    // what was emitted is in both lists
    && (forall t :: Covered(out, t) ==> CoveredByBoth(a, b, t))
    // what is in both lists was emitted, or is still ahead of both pointers
    && (forall p, q, t :: 0 <= p < |a| && 0 <= q < |b| && a[p].Has(t) && b[q].Has(t) ==>
          Covered(out, t) || (i <= p && j <= q))
    // the pointers are past the last emitted interval, with a gap
    && (forall k :: 0 <= k < |out| ==>
          && (i < |a| && j < |b| ==> out[k].et < a[i].st || out[k].et < b[j].st))
  }

  function Overlap(x: Interval, y: Interval): Interval {
    Interval(if x.st >= y.st then x.st else y.st, if x.et <= y.et then x.et else y.et)
  }

  lemma OverlapHas(x: Interval, y: Interval, t: int)
    ensures Overlap(x, y).Has(t) <==> x.Has(t) && y.Has(t)
  {
  }

  function IntersectOne(a: seq<Interval>, b: seq<Interval>, i: nat, j: nat, out: seq<Interval>): seq<Interval>
    requires i < |a| && j < |b|
  {
    var o := Overlap(a[i], b[j]);
    if o.st < o.et then out + [o] else out
  }

  lemma IntersectStep(a: seq<Interval>, b: seq<Interval>, i: nat, j: nat, out: seq<Interval>)
    requires Separated(a) && Separated(b) && i < |a| && j < |b| && IntersectedSoFar(a, b, i, j, out)
    ensures var next := IntersectOne(a, b, i, j, out);
            if a[i].et <= b[j].et then IntersectedSoFar(a, b, i + 1, j, next)
            else IntersectedSoFar(a, b, i, j + 1, next)
  {
    var o, next := Overlap(a[i], b[j]), IntersectOne(a, b, i, j, out);
    forall t
      ensures Covered(next, t) <==> Covered(out, t) || (a[i].Has(t) && b[j].Has(t))
    {
      OverlapHas(a[i], b[j], t);
      CoveredAppend(out, o, t);
    }
  }

  /** `_intersect_sorted`: the maximal runs of the seconds covered by both lists. */
  method IntersectSorted(a: seq<Interval>, b: seq<Interval>) returns (out: seq<Interval>)
    requires Separated(a) && Separated(b)
    ensures Separated(out)
    ensures forall t :: Covered(out, t) <==> CoveredByBoth(a, b, t)
  {
    out := [];
    var i, j := 0, 0;
    while i < |a| && j < |b|
      invariant IntersectedSoFar(a, b, i, j, out)
      decreases |a| - i + |b| - j
    {
      IntersectStep(a, b, i, j, out);
      ghost var next := IntersectOne(a, b, i, j, out);
      var st := if a[i].st >= b[j].st then a[i].st else b[j].st;
      var et := if a[i].et <= b[j].et then a[i].et else b[j].et;
      if st < et {
        out := out + [Interval(st, et)];
      }
      assert out == next;
      if a[i].et <= b[j].et {
        i := i + 1;
      } else {
        j := j + 1;
      }
    }
  }

  // ---------------------------------------------------------------- difference

  ghost predicate CoveredByFirstOnly(a: seq<Interval>, b: seq<Interval>, t: int) {
    Covered(a, t) && !Covered(b, t)
  }

  /** `out` is the difference for the intervals before `a[i]`; the first `j` of `b` end by then. */
  ghost predicate SubtractedSoFar(a: seq<Interval>, b: seq<Interval>, i: nat, j: nat, out: seq<Interval>) {
    && i <= |a| && j <= |b| && Separated(out)
    && (forall t :: Covered(out, t) <==> CoveredByFirstOnly(a[..i], b, t))
    && (forall k :: 0 <= k < |out| && i < |a| ==> out[k].et < a[i].st)
    && (forall q :: 0 <= q < j && i < |a| ==> b[q].et <= a[i].st)
  }

  /** Inside `x`: `out` adds to `before` what is left of `x` up to `cur`; the first `k` of `b` end by `cur`. */
  ghost predicate CutSoFar(x: Interval, b: seq<Interval>, k: nat, cur: int, before: seq<Interval>, out: seq<Interval>) {
    && k <= |b| && Separated(out) && x.st <= cur && x.st < x.et
    && (forall t :: Covered(out, t) <==> Covered(before, t) || (x.st <= t < cur && t < x.et && !Covered(b, t)))
    && (forall q :: 0 <= q < k ==> b[q].et <= cur)
    && (forall p :: 0 <= p < |out| ==> out[p].et < x.st || (out[p].et < cur && out[p].et < x.et))
  }

  /** What the next hole leaves of the part up to its end. */
  function CutOut(hole: Interval, cur: int, out: seq<Interval>): seq<Interval> {
    if hole.st > cur then out + [Interval(cur, hole.st)] else out
  }

  function CutEnd(hole: Interval, cur: int): int {
    if cur >= hole.et then cur else hole.et
  }

  /** Between the holes that end by `cur` and the next hole, every second survives. */
  lemma SurvivesBefore(b: seq<Interval>, k: nat, cur: int, t: int)
    requires Separated(b) && k < |b| && (forall q :: 0 <= q < k ==> b[q].et <= cur) && cur <= t < b[k].et
    ensures Covered(b, t) <==> b[k].st <= t
  {
    if b[k].st <= t {
      assert b[k].Has(t);
    }
  }

  lemma CutSeconds(x: Interval, b: seq<Interval>, k: nat, cur: int, before: seq<Interval>, out: seq<Interval>, t: int)
    requires Separated(b) && k < |b| && b[k].st < x.et && cur < x.et && CutSoFar(x, b, k, cur, before, out)
    ensures Covered(CutOut(b[k], cur, out), t)
            <==> Covered(before, t) || (x.st <= t < CutEnd(b[k], cur) && t < x.et && !Covered(b, t))
  {
    CoveredAppend(out, Interval(cur, b[k].st), t);
    if cur <= t < b[k].et {
      SurvivesBefore(b, k, cur, t);
    }
  }

  lemma CutStep(x: Interval, b: seq<Interval>, k: nat, cur: int, before: seq<Interval>, out: seq<Interval>)
    requires Separated(b) && k < |b| && b[k].st < x.et && cur < x.et && CutSoFar(x, b, k, cur, before, out)
    ensures CutSoFar(x, b, k + 1, CutEnd(b[k], cur), before, CutOut(b[k], cur, out))
  {
    forall t
      ensures Covered(CutOut(b[k], cur, out), t)
              <==> Covered(before, t) || (x.st <= t < CutEnd(b[k], cur) && t < x.et && !Covered(b, t))
    {
      CutSeconds(x, b, k, cur, before, out, t);
    }
    CutShape(x, b[k], cur, out);
  }

  lemma CutShape(x: Interval, hole: Interval, cur: int, out: seq<Interval>)
    requires Separated(out) && x.st <= cur < x.et && hole.st < x.et && hole.st < hole.et
    requires forall p :: 0 <= p < |out| ==> out[p].et < x.st || (out[p].et < cur && out[p].et < x.et)
    ensures var next := CutOut(hole, cur, out);
            && Separated(next)
            && forall p :: 0 <= p < |next| ==>
                 next[p].et < x.st || (next[p].et < CutEnd(hole, cur) && next[p].et < x.et)
  {
  }

  lemma CutFinish(x: Interval, b: seq<Interval>, k: nat, cur: int, before: seq<Interval>, out: seq<Interval>)
    requires Separated(b) && CutSoFar(x, b, k, cur, before, out)
    requires cur < x.et ==> k == |b| || x.et <= b[k].st
    ensures var done := if cur < x.et then out + [Interval(cur, x.et)] else out;
            && Separated(done)
            && (forall t :: Covered(done, t) <==> Covered(before, t) || (x.Has(t) && !Covered(b, t)))
            && (forall p :: 0 <= p < |done| ==> done[p].et < x.st || done[p].et <= x.et)
  {
    var done := if cur < x.et then out + [Interval(cur, x.et)] else out;
    forall t
      ensures Covered(done, t) <==> Covered(before, t) || (x.Has(t) && !Covered(b, t))
    {
      CoveredAppend(out, Interval(cur, x.et), t);
      if cur <= t < x.et {
        assert !Covered(b, t);
      }
    }
  }

  lemma SubtractStep(a: seq<Interval>, b: seq<Interval>, i: nat, j: nat, out: seq<Interval>, done: seq<Interval>)
    requires Separated(a) && Separated(b) && i < |a| && SubtractedSoFar(a, b, i, j, out)
    requires Separated(done)
    requires forall t :: Covered(done, t) <==> Covered(out, t) || (a[i].Has(t) && !Covered(b, t))
    requires forall p :: 0 <= p < |done| ==> done[p].et < a[i].st || done[p].et <= a[i].et
    ensures SubtractedSoFar(a, b, i + 1, j, done)
  {
    assert a[..i + 1] == a[..i] + [a[i]];
    forall t
      ensures Covered(done, t) <==> CoveredByFirstOnly(a[..i + 1], b, t)
    {
      CoveredAppend(a[..i], a[i], t);
    }
  }

  /** The inner loop of `_subtract_sorted`: cut the holes of `b` out of one interval. */
  method CutOne(x: Interval, b: seq<Interval>, j: nat, before: seq<Interval>) returns (out: seq<Interval>)
    requires Separated(b) && CutSoFar(x, b, j, x.st, before, before)
    ensures Separated(out)
    ensures forall t :: Covered(out, t) <==> Covered(before, t) || (x.Has(t) && !Covered(b, t))
    ensures forall p :: 0 <= p < |out| ==> out[p].et < x.st || out[p].et <= x.et
  {
    out := before;
    var cur, k := x.st, j;
    ghost var passed := k;
    while k < |b| && b[k].st < x.et
      invariant CutSoFar(x, b, k, cur, before, out) && cur < x.et && passed == k
    {
      CutStep(x, b, k, cur, before, out);
      passed := k + 1;
      if b[k].st > cur {
        out := out + [Interval(cur, b[k].st)];
      }
      cur := if cur >= b[k].et then cur else b[k].et;
      if b[k].et >= x.et {
        break;
      }
      k := k + 1;
    }
    CutFinish(x, b, passed, cur, before, out);
    if cur < x.et {
      out := out + [Interval(cur, x.et)];
    }
  }

  /** `_subtract_sorted`: the maximal runs of the seconds covered by `a` and not by `b`. */
  method SubtractSorted(a: seq<Interval>, b: seq<Interval>) returns (out: seq<Interval>)
    requires Separated(a) && Separated(b)
    ensures Separated(out)
    ensures forall t :: Covered(out, t) <==> CoveredByFirstOnly(a, b, t)
  {
    out := [];
    var j := 0;
    for i := 0 to |a|
      invariant SubtractedSoFar(a, b, i, j, out)
    {
      while j < |b| && b[j].et <= a[i].st
        invariant SubtractedSoFar(a, b, i, j, out)
      {
        j := j + 1;
      }
      var done := CutOne(a[i], b, j, out);
      SubtractStep(a, b, i, j, out, done);
      out := done;
    }
    assert a[..|a|] == a;
  }
}
