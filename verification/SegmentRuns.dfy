/**
 Interval scoring of run_maritime_cv.py: maximal runs inside segments, matched intervals, and the
 re-indexing of a fold's segments into the coordinates of its own sorted rows.
 */
module SegmentRuns {
  import opened Lists
  import Scorer

  /** A number read off two lists of the same length. */
  type Measure = (seq<bool>, seq<bool>) -> int

  /** A half-open range of rows. */
  type Span = (nat, nat)

  // ---------------------------------------------------------------- maximal runs of one list

  /** The maximal runs of True, in order. */
  function RunsOf(s: seq<bool>): seq<Span> {
    if |s| == 0 then [] else
      var k := |s| - 1;
      NextRuns(s[..k], RunsOf(s[..k]), s[k])
  }

  /** The runs of `s + [x]`, from those of `s`. */
  function NextRuns(s: seq<bool>, runs: seq<Span>, x: bool): seq<Span> {
    if !x then runs
    else if |s| > 0 && s[|s| - 1] && |runs| > 0 then runs[..|runs| - 1] + [(runs[|runs| - 1].0, |s| + 1)]
    else runs + [(|s|, |s| + 1)]
  }

  /** `[a, b)` is a run of True that cannot be extended. */
  ghost predicate IsMaximalRun(s: seq<bool>, a: nat, b: nat) {
    && a < b <= |s|
    && (forall i :: a <= i < b ==> s[i])
    && (a == 0 || !s[a - 1])
    && (b == |s| || !s[b])
  }

  ghost predicate ListsMaximalRuns(s: seq<bool>, runs: seq<Span>) {
    && (forall r :: 0 <= r < |runs| ==> IsMaximalRun(s, runs[r].0, runs[r].1))
    && (forall q, r :: 0 <= q < r < |runs| ==> runs[q].1 < runs[r].0)
    && (forall i :: 0 <= i < |s| && s[i] ==> InSome(runs, i))
    && (|s| > 0 && s[|s| - 1] ==> |runs| > 0 && runs[|runs| - 1].1 == |s|)
  }

  /** `RunsOf` lists exactly the maximal runs, left to right. */
  lemma {:induction false} RunsAreMaximal(s: seq<bool>)
    ensures ListsMaximalRuns(s, RunsOf(s))
  {
    if |s| > 0 {
      var k := |s| - 1;
      RunsAreMaximal(s[..k]);
      MaximalStep(s[..k], RunsOf(s[..k]), s[k]);
      assert s[..k] + [s[k]] == s;
    }
  }

  lemma MaximalStep(s: seq<bool>, runs: seq<Span>, x: bool)
    requires ListsMaximalRuns(s, runs)
    ensures ListsMaximalRuns(s + [x], NextRuns(s, runs, x))
  {
    forall r | 0 <= r < |NextRuns(s, runs, x)|
      ensures IsMaximalRun(s + [x], NextRuns(s, runs, x)[r].0, NextRuns(s, runs, x)[r].1)
    {
      StillMaximal(s, runs, x, r);
    }
    forall i | 0 <= i < |s + [x]| && (s + [x])[i]
      ensures InSome(NextRuns(s, runs, x), i)
    {
      StillCovered(s, runs, x, i);
    }
    StillOrdered(s, runs, x);
  }

  lemma StillOrdered(s: seq<bool>, runs: seq<Span>, x: bool)
    requires ListsMaximalRuns(s, runs)
    ensures var next := NextRuns(s, runs, x);
            && (forall q, r :: 0 <= q < r < |next| ==> next[q].1 < next[r].0)
            && (x ==> |next| > 0 && next[|next| - 1].1 == |s| + 1)
  {
    if x && !(|s| > 0 && s[|s| - 1]) && |runs| > 0 {
      var last := runs[|runs| - 1];
      assert IsMaximalRun(s, last.0, last.1);
      assert |s| > 0 ==> last.1 < |s|;
    }
  }

  lemma RunKept(s: seq<bool>, a: nat, b: nat, x: bool)
    requires IsMaximalRun(s, a, b) && (b < |s| || !x)
    ensures IsMaximalRun(s + [x], a, b)
  {
  }

  lemma RunStretched(s: seq<bool>, a: nat)
    requires IsMaximalRun(s, a, |s|)
    ensures IsMaximalRun(s + [true], a, |s| + 1)
  {
  }

  lemma RunBegun(s: seq<bool>)
    requires |s| > 0 ==> !s[|s| - 1]
    ensures IsMaximalRun(s + [true], |s|, |s| + 1)
  {
  }

  lemma StillMaximal(s: seq<bool>, runs: seq<Span>, x: bool, r: nat)
    requires ListsMaximalRuns(s, runs) && r < |NextRuns(s, runs, x)|
    ensures IsMaximalRun(s + [x], NextRuns(s, runs, x)[r].0, NextRuns(s, runs, x)[r].1)
  {
    if r == |runs| {
      RunBegun(s);
    } else {
      var (a, b) := runs[r];
      assert IsMaximalRun(s, a, b);
      if x && b == |s| {
        assert r == |runs| - 1;
        RunStretched(s, a);
      } else {
        RunKept(s, a, b, x);
      }
    }
  }

  lemma StillCovered(s: seq<bool>, runs: seq<Span>, x: bool, i: nat)
    requires ListsMaximalRuns(s, runs) && i <= |s| && (s + [x])[i]
    ensures InSome(NextRuns(s, runs, x), i)
  {
    var next := NextRuns(s, runs, x);
    if i < |s| {
      assert InSome(runs, i);
      var r :| 0 <= r < |runs| && runs[r].0 <= i < runs[r].1;
      assert next[r].0 <= i < next[r].1;
    } else {
      assert next[|next| - 1].1 == |s| + 1;
    }
  }

  ghost predicate InSome(runs: seq<Span>, i: nat) {
    exists r :: 0 <= r < |runs| && runs[r].0 <= i < runs[r].1
  }

  lemma MaximalRunIsListed(s: seq<bool>, a: nat, b: nat)
    requires IsMaximalRun(s, a, b)
    ensures (a, b) in RunsOf(s)
  {
    RunsAreMaximal(s);
    assert InSome(RunsOf(s), a);
    var r :| 0 <= r < |RunsOf(s)| && RunsOf(s)[r].0 <= a < RunsOf(s)[r].1;
    var run := RunsOf(s)[r];
    assert IsMaximalRun(s, run.0, run.1);
    assert run == (a, b);
  }

  // ---------------------------------------------------------------- runs within segments

  /** Consecutive non-empty segments that cover rows 0..n-1. */
  predicate Partition(segments: seq<Span>, n: nat) {
    && (forall k :: 0 <= k < |segments| ==> segments[k].0 < segments[k].1)
    && (forall j, k :: 0 <= j < |segments| && 0 <= k < |segments| && k == j + 1 ==> segments[j].1 == segments[k].0)
    && (|segments| == 0 ==> n == 0)
    && (|segments| > 0 ==> segments[0].0 == 0 && segments[|segments| - 1].1 == n)
  }

  predicate InBounds(segments: seq<Span>, n: nat) {
    forall k :: 0 <= k < |segments| ==> segments[k].0 <= segments[k].1 <= n
  }

  function Shift(runs: seq<Span>, d: nat): (r: seq<Span>)
    ensures |r| == |runs| && forall i :: 0 <= i < |r| ==> r[i] == (runs[i].0 + d, runs[i].1 + d)
  {
    seq(|runs|, i requires 0 <= i < |runs| => (runs[i].0 + d, runs[i].1 + d))
  }

  /** The runs of every segment, never bridging a segment boundary. */
  function RunsWithin(flags: seq<bool>, segments: seq<Span>): seq<Span>
    requires InBounds(segments, |flags|)
  {
    if |segments| == 0 then [] else
      var (lo, hi) := segments[|segments| - 1];
      RunsWithin(flags, segments[..|segments| - 1]) + Shift(RunsOf(flags[lo..hi]), lo)
  }

  /** How the runs of a list change when one more row is read. */
  lemma RunsGrow(s: seq<bool>, x: bool)
    ensures RunsOf(s + [x]) == NextRuns(s, RunsOf(s), x)
    ensures |s| > 0 && s[|s| - 1] ==> |RunsOf(s)| > 0
  {
    assert (s + [x])[..|s|] == s;
    RunsAreMaximal(s);
  }

  /** The runs emitted so far and the one still open at row `i`, if any. */
  function WithOpen(runs: seq<Span>, start: Option<nat>, i: nat): seq<Span> {
    if start.Some? then runs + [(start.value, i)] else runs
  }

  ghost predicate RunsSoFar(flags: seq<bool>, lo: nat, i: nat, runs0: seq<Span>, runs: seq<Span>, start: Option<nat>)
    requires lo <= i <= |flags|
  {
    && (start.Some? <==> i > lo && flags[i - 1])
    && (start.Some? ==> lo <= start.value < i)
    && runs0 + Shift(RunsOf(flags[lo..i]), lo) == WithOpen(runs, start, i)
  }

  function NextOpen(runs: seq<Span>, start: Option<nat>, i: nat, x: bool): (seq<Span>, Option<nat>) {
    if x then (runs, if start.None? then Some(i) else start) else (WithOpen(runs, start, i), None)
  }

  lemma RunsStep(flags: seq<bool>, lo: nat, i: nat, runs0: seq<Span>, runs: seq<Span>, start: Option<nat>)
    requires lo <= i < |flags| && RunsSoFar(flags, lo, i, runs0, runs, start)
    ensures var (runs', start') := NextOpen(runs, start, i, flags[i]);
            RunsSoFar(flags, lo, i + 1, runs0, runs', start')
  {
    var s := flags[lo..i];
    var more := flags[lo..i + 1];
    assert more == s + [flags[i]];
    assert |s| > 0 ==> s[|s| - 1] == flags[i - 1];
    RunsGrowBy(s, flags[i]);
    var was, grown := RunsOf(s), RunsOf(more);
    assert Grows(was, grown, i - lo, flags[i], start.Some?);
    RowRead(was, grown, i, flags[i], lo, runs0, runs, start);
  }

  predicate Grows(was: seq<Span>, grown: seq<Span>, m: nat, x: bool, open: bool) {
    if !x then grown == was
    else if open then |was| > 0 && grown == was[..|was| - 1] + [(was[|was| - 1].0, m + 1)]
    else grown == was + [(m, m + 1)]
  }

  lemma RunsGrowBy(s: seq<bool>, x: bool)
    ensures Grows(RunsOf(s), RunsOf(s + [x]), |s|, x, |s| > 0 && s[|s| - 1])
  {
    RunsGrow(s, x);
  }

  /** One more row of the list read so far: its runs were `was` and become `grown`. */
  lemma RowRead(was: seq<Span>, grown: seq<Span>, i: nat, x: bool, lo: nat, runs0: seq<Span>, runs: seq<Span>,
                start: Option<nat>)
    requires lo <= i && runs0 + Shift(was, lo) == WithOpen(runs, start, i)
    requires Grows(was, grown, i - lo, x, start.Some?)
    ensures var (runs', start') := NextOpen(runs, start, i, x);
            runs0 + Shift(grown, lo) == WithOpen(runs', start', i + 1)
  {
    if x && start.Some? {
      StretchLast(runs0, was, runs, lo, start.value, i - lo);
    } else if x {
      RunOpens(runs0, was, runs, lo, i - lo);
    }
  }

  lemma ShiftAppend(runs: seq<Span>, a: nat, b: nat, d: nat)
    ensures Shift(runs + [(a, b)], d) == Shift(runs, d) + [(d + a, d + b)]
  {
  }

  lemma RunOpens(runs0: seq<Span>, was: seq<Span>, runs: seq<Span>, lo: nat, m: nat)
    requires runs0 + Shift(was, lo) == runs
    ensures runs0 + Shift(was + [(m, m + 1)], lo) == runs + [(lo + m, lo + m + 1)]
  {
    ShiftAppend(was, m, m + 1, lo);
    Regroup(runs0, Shift(was, lo), [(lo + m, lo + m + 1)]);
  }

  /** Lengthening the last run commutes with shifting. */
  lemma StretchLast(runs0: seq<Span>, was: seq<Span>, runs: seq<Span>, lo: nat, start: nat, m: nat)
    requires |was| > 0 && runs0 + Shift(was, lo) == runs + [(start, lo + m)]
    ensures runs0 + Shift(was[..|was| - 1] + [(was[|was| - 1].0, m + 1)], lo) == runs + [(start, lo + m + 1)]
  {
    var k := |was| - 1;
    var all := runs0 + Shift(was, lo);
    assert all[|runs0| + k] == (was[k].0 + lo, was[k].1 + lo);
    assert all[|runs|] == (start, lo + m);
    assert runs == all[..|runs|] == runs0 + Shift(was[..k], lo);
    ShiftAppend(was[..k], was[k].0, m + 1, lo);
    Regroup(runs0, Shift(was[..k], lo), [(start, lo + m + 1)]);
  }

  /** The loop over one segment in `_runs`. */
  method RunsOfSegment(flags: seq<bool>, lo: nat, hi: nat, runs0: seq<Span>) returns (runs: seq<Span>)
    requires lo <= hi <= |flags|
    ensures runs == runs0 + Shift(RunsOf(flags[lo..hi]), lo)
  {
    runs := runs0;
    var start: Option<nat> := None;
    for i := lo to hi
      invariant RunsSoFar(flags, lo, i, runs0, runs, start)
    {
      RunsStep(flags, lo, i, runs0, runs, start);
      if flags[i] && start.None? {
        start := Some(i);
      } else if !flags[i] && start.Some? {
        runs := runs + [(start.value, i)];
        start := None;
      }
    }
    if start.Some? {
      runs := runs + [(start.value, hi)];
    }
  }

  /** `_runs`. */
  method Runs(flags: seq<bool>, segments: seq<Span>) returns (runs: seq<Span>)
    requires InBounds(segments, |flags|)
    ensures runs == RunsWithin(flags, segments)
  {
    runs := [];
    for k := 0 to |segments|
      invariant runs == RunsWithin(flags, segments[..k])
    {
      assert segments[..k + 1][..k] == segments[..k];
      runs := RunsOfSegment(flags, segments[k].0, segments[k].1, runs);
    }
    assert segments[..|segments|] == segments;
  }

  // ---------------------------------------------------------------- interval scores

  predicate Meets(x: Span, y: Span) {
    x.0 < y.1 && y.0 < x.1
  }

  /** The run shares a row with some run of the list. */
  function MeetsSome(others: seq<Span>): Span -> bool {
    (x: Span) => exists j :: 0 <= j < |others| && Meets(x, others[j])
  }

  /** The run contains a True of `other`. */
  function Touches(other: seq<bool>): Span -> bool {
    (x: Span) => exists i :: x.0 <= i < x.1 && i < |other| && other[i]
  }

  /** Runs of a segment that touch a True of the other list. */
  function Matched(s: seq<bool>, other: seq<bool>): int {
    Count(RunsOf(s), Touches(other))
  }

  /** The sum over segments of a measure of the two lists' slices. */
  function OverSegments(a: seq<bool>, b: seq<bool>, segments: seq<Span>, f: Measure): int
    requires |a| == |b| && InBounds(segments, |a|)
  {
    if |segments| == 0 then 0 else
      var (lo, hi) := segments[|segments| - 1];
      OverSegments(a, b, segments[..|segments| - 1], f) + f(a[lo..hi], b[lo..hi])
  }

  function RunCount(): Measure {
    (s: seq<bool>, _) => |RunsOf(s)|
  }

  function MatchCount(): Measure {
    (s: seq<bool>, other: seq<bool>) => Matched(s, other)
  }

  lemma {:induction false} RunsWithinCount(flags: seq<bool>, other: seq<bool>, segments: seq<Span>)
    requires |flags| == |other| && InBounds(segments, |flags|)
    ensures |RunsWithin(flags, segments)| == OverSegments(flags, other, segments, RunCount())
  {
    if |segments| > 0 {
      RunsWithinCount(flags, other, segments[..|segments| - 1]);
    }
  }

  /** A run of some segment lies inside that segment. */
  lemma {:induction false} RunsStayInside(flags: seq<bool>, segments: seq<Span>)
    requires InBounds(segments, |flags|)
    ensures forall r :: 0 <= r < |RunsWithin(flags, segments)| ==>
              RunWithin(flags, segments, RunsWithin(flags, segments)[r])
  {
    if |segments| > 0 {
      var before := segments[..|segments| - 1];
      var (lo, hi) := segments[|segments| - 1];
      RunsStayInside(flags, before);
      RunsAreMaximal(flags[lo..hi]);
      var was, all := RunsWithin(flags, before), RunsWithin(flags, segments);
      forall r | 0 <= r < |all|
        ensures RunWithin(flags, segments, all[r])
      {
        if r < |was| {
          assert all[r] == was[r];
          var k :| 0 <= k < |before| && before[k].0 <= was[r].0 && was[r].1 <= before[k].1;
          assert segments[k] == before[k];
        } else {
          var run := RunsOf(flags[lo..hi])[r - |was|];
          assert all[r] == (lo + run.0, lo + run.1);
          LastRunWithin(flags, segments, run);
        }
      }
    }
  }

  /** The run lies in some segment, and is True throughout. */
  ghost predicate RunWithin(flags: seq<bool>, segments: seq<Span>, run: Span) {
    && run.0 < run.1
    && (exists k :: 0 <= k < |segments| && segments[k].0 <= run.0 && run.1 <= segments[k].1)
    && forall i :: run.0 <= i < run.1 && i < |flags| ==> flags[i]
  }

  lemma LastRunWithin(flags: seq<bool>, segments: seq<Span>, run: Span)
    requires InBounds(segments, |flags|) && |segments| > 0
    requires var (lo, hi) := segments[|segments| - 1]; IsMaximalRun(flags[lo..hi], run.0, run.1)
    ensures var lo := segments[|segments| - 1].0; RunWithin(flags, segments, (lo + run.0, lo + run.1))
  {
    var (lo, hi) := segments[|segments| - 1];
    forall i | lo + run.0 <= i < lo + run.1
      ensures flags[i]
    {
      assert flags[lo..hi][i - lo];
    }
  }

  /** Every True row of a segment lies in a run. */
  lemma {:induction false} RunsCoverSegment(flags: seq<bool>, segments: seq<Span>, k: nat, i: nat)
    requires InBounds(segments, |flags|) && k < |segments| && segments[k].0 <= i < segments[k].1 && flags[i]
    ensures InSome(RunsWithin(flags, segments), i)
  {
    var last := |segments| - 1;
    var (lo, hi) := segments[last];
    var was, all := RunsWithin(flags, segments[..last]), RunsWithin(flags, segments);
    if k < last {
      RunsCoverSegment(flags, segments[..last], k, i);
      var r :| 0 <= r < |was| && was[r].0 <= i < was[r].1;
      assert all[r] == was[r];
    } else {
      RunOfSegmentCovers(flags, lo, hi, was, i);
    }
  }

  lemma RunOfSegmentCovers(flags: seq<bool>, lo: nat, hi: nat, was: seq<Span>, i: nat)
    requires lo <= i < hi <= |flags| && flags[i]
    ensures InSome(was + Shift(RunsOf(flags[lo..hi]), lo), i)
  {
    var s := flags[lo..hi];
    RunsAreMaximal(s);
    assert s[i - lo];
    var r :| 0 <= r < |RunsOf(s)| && RunsOf(s)[r].0 <= i - lo < RunsOf(s)[r].1;
    var all := was + Shift(RunsOf(s), lo);
    assert all[|was| + r].0 <= i < all[|was| + r].1;
  }

  /** Over all segments too, a run is matched exactly when it contains a True row of the other list. */
  lemma MatchedIffTouches(flags: seq<bool>, other: seq<bool>, segments: seq<Span>, r: nat)
    requires |flags| == |other| && InBounds(segments, |flags|) && r < |RunsWithin(flags, segments)|
    ensures MeetsSome(RunsWithin(other, segments))(RunsWithin(flags, segments)[r])
            <==> Touches(other)(RunsWithin(flags, segments)[r])
  {
    RunsStayInside(flags, segments);
    RunsStayInside(other, segments);
    var run, others := RunsWithin(flags, segments)[r], RunsWithin(other, segments);
    if MeetsSome(others)(run) {
      var j :| 0 <= j < |others| && Meets(run, others[j]);
      var met := others[j];
      var i := if met.0 >= run.0 then met.0 else run.0;
      assert run.0 <= i < run.1 && i < |other| && other[i];
    }
    if Touches(other)(run) {
      var i :| run.0 <= i < run.1 && i < |other| && other[i];
      var k :| 0 <= k < |segments| && segments[k].0 <= run.0 && run.1 <= segments[k].1;
      RunsCoverSegment(other, segments, k, i);
      var j :| 0 <= j < |others| && others[j].0 <= i < others[j].1;
      assert Meets(run, others[j]);
    }
  }

  lemma {:induction false} CountEqual(s: seq<Span>, p: Span -> bool, q: Span -> bool)
    requires forall i :: 0 <= i < |s| ==> p(s[i]) == q(s[i])
    ensures Count(s, p) == Count(s, q)
  {
    if |s| > 0 {
      CountEqual(s[1..], p, q);
    }
  }

  lemma {:induction false} CountShifted(s: seq<Span>, other: seq<bool>, lo: nat, hi: nat)
    requires lo <= hi <= |other| && forall i :: 0 <= i < |s| ==> s[i].1 <= hi - lo
    ensures Count(Shift(s, lo), Touches(other)) == Count(s, Touches(other[lo..hi]))
  {
    if |s| > 0 {
      CountShifted(s[1..], other, lo, hi);
      assert Shift(s, lo)[1..] == Shift(s[1..], lo);
      var x, y := s[0], Shift(s, lo)[0];
      if Touches(other)(y) {
        var i :| y.0 <= i < y.1 && i < |other| && other[i];
        assert other[lo..hi][i - lo];
      }
      if Touches(other[lo..hi])(x) {
        var i :| x.0 <= i < x.1 && i < hi - lo && other[lo..hi][i];
        assert other[i + lo];
      }
    }
  }

  /** The number of touched runs adds up over segments. */
  lemma {:induction false} MatchedAddsUp(flags: seq<bool>, other: seq<bool>, segments: seq<Span>)
    requires |flags| == |other| && InBounds(segments, |flags|)
    ensures Count(RunsWithin(flags, segments), Touches(other)) == OverSegments(flags, other, segments, MatchCount())
  {
    if |segments| > 0 {
      var before := segments[..|segments| - 1];
      var (lo, hi) := segments[|segments| - 1];
      MatchedAddsUp(flags, other, before);
      CountConcat(RunsWithin(flags, before), Shift(RunsOf(flags[lo..hi]), lo), Touches(other));
      RunsAreMaximal(flags[lo..hi]);
      CountShifted(RunsOf(flags[lo..hi]), other, lo, hi);
    }
  }

  datatype IntervalScore = IntervalScore(nGold: int, nPred: int, matchedGold: int, matchedPred: int,
                                         precision: real, recall: real, f1: real)

  /** The counts of a score are sums over segments, so nothing outside a segment affects them. */
  ghost predicate ScoreOf(s: IntervalScore, pred: seq<bool>, gold: seq<bool>, segments: seq<Span>)
    requires |pred| == |gold| && InBounds(segments, |gold|)
  {
    && s.nGold == OverSegments(gold, pred, segments, RunCount())
    && s.nPred == OverSegments(pred, gold, segments, RunCount())
    && s.matchedGold == OverSegments(gold, pred, segments, MatchCount())
    && s.matchedPred == OverSegments(pred, gold, segments, MatchCount())
    && s.precision == Scorer.Ratio(s.matchedPred, s.nPred) && s.recall == Scorer.Ratio(s.matchedGold, s.nGold)
    && s.f1 == Scorer.HarmonicMean(s.precision, s.recall)
  }

  /** `interval_prf1`. */
  method IntervalPrf1(pred: seq<bool>, gold: seq<bool>, segments: seq<Span>) returns (s: IntervalScore)
    requires |pred| == |gold| && InBounds(segments, |gold|)
    ensures ScoreOf(s, pred, gold, segments)
  {
    var goldRuns := Runs(gold, segments);
    var predRuns := Runs(pred, segments);
    var matchedGold := Count(goldRuns, MeetsSome(predRuns));
    var matchedPred := Count(predRuns, MeetsSome(goldRuns));
    MatchedMeasure(gold, pred, segments);
    MatchedMeasure(pred, gold, segments);
    RunsWithinCount(gold, pred, segments);
    RunsWithinCount(pred, gold, segments);
    var precision, recall := Scorer.Ratio(matchedPred, |predRuns|), Scorer.Ratio(matchedGold, |goldRuns|);
    var f1 := Scorer.HarmonicMean(precision, recall);
    s := IntervalScore(|goldRuns|, |predRuns|, matchedGold, matchedPred, precision, recall, f1);
  }

  lemma MatchedMeasure(flags: seq<bool>, other: seq<bool>, segments: seq<Span>)
    requires |flags| == |other| && InBounds(segments, |flags|)
    ensures Count(RunsWithin(flags, segments), MeetsSome(RunsWithin(other, segments)))
            == OverSegments(flags, other, segments, MatchCount())
  {
    forall r | 0 <= r < |RunsWithin(flags, segments)|
      ensures MeetsSome(RunsWithin(other, segments))(RunsWithin(flags, segments)[r])
              == Touches(other)(RunsWithin(flags, segments)[r])
    {
      MatchedIffTouches(flags, other, segments, r);
    }
    CountEqual(RunsWithin(flags, segments), MeetsSome(RunsWithin(other, segments)), Touches(other));
    MatchedAddsUp(flags, other, segments);
  }

  // ---------------------------------------------------------------- folds

  /** A converted corpus cut into folds: row segments, the pair of each row, the fold of each pair. */
  datatype Corpus = Corpus(segments: seq<Span>, pairOf: seq<nat>, foldOf: seq<nat>) {
    /** Segments partition the rows in order and stay within one pair. */
    ghost predicate Valid() {
      && Partition(segments, |pairOf|) && InBounds(segments, |pairOf|)
      && (forall pt :: 0 <= pt < |pairOf| ==> pairOf[pt] < |foldOf|)
      && (forall k, pt :: 0 <= k < |segments| && segments[k].0 <= pt < segments[k].1 ==>
            pairOf[pt] == pairOf[segments[k].0])
    }

    /** The fold of segment `k`, decided by its first row. */
    function FoldOfSegment(k: nat): nat
      requires Valid() && k < |segments|
    {
      foldOf[pairOf[segments[k].0]]
    }

    /** The rows below `n` whose pair sits in `fold`, ascending. */
    function FoldRows(fold: nat, n: nat): (rows: seq<nat>)
      requires Valid() && n <= |pairOf|
      ensures forall i :: 0 <= i < |rows| ==> rows[i] < n
    {
      if n == 0 then []
      else FoldRows(fold, n - 1) + if foldOf[pairOf[n - 1]] == fold then [n - 1] else []
    }

    function OtherRows(fold: nat, n: nat): (rows: seq<nat>)
      requires Valid() && n <= |pairOf|
      ensures forall i :: 0 <= i < |rows| ==> rows[i] < n
    {
      if n == 0 then []
      else OtherRows(fold, n - 1) + if foldOf[pairOf[n - 1]] == fold then [] else [n - 1]
    }

    /** Local bounds of the fold's segments among the first `k`. */
    function LocalBounds(fold: nat, k: nat): seq<Span>
      requires Valid() && k <= |segments|
    {
      if k == 0 then [] else
        var (lo, hi) := segments[k - 1];
        var offset := |FoldRows(fold, lo)|;
        LocalBounds(fold, k - 1) + if FoldOfSegment(k - 1) == fold then [(offset, offset + (hi - lo))] else []
    }
  }

  lemma {:induction false} FoldRowsMember(c: Corpus, fold: nat, n: nat, pt: nat)
    requires c.Valid() && n <= |c.pairOf|
    ensures pt in c.FoldRows(fold, n) <==> pt < n && c.foldOf[c.pairOf[pt]] == fold
  {
    if n > 0 {
      FoldRowsMember(c, fold, n - 1, pt);
    }
  }

  lemma {:induction false} OtherRowsMember(c: Corpus, fold: nat, n: nat, pt: nat)
    requires c.Valid() && n <= |c.pairOf|
    ensures pt in c.OtherRows(fold, n) <==> pt < n && c.foldOf[c.pairOf[pt]] != fold
  {
    if n > 0 {
      OtherRowsMember(c, fold, n - 1, pt);
    }
  }

  ghost predicate Ascending(s: seq<nat>) {
    forall i, j :: 0 <= i < j < |s| ==> s[i] < s[j]
  }

  lemma {:induction false} RowsAscend(c: Corpus, fold: nat, n: nat)
    requires c.Valid() && n <= |c.pairOf|
    ensures Ascending(c.FoldRows(fold, n)) && Ascending(c.OtherRows(fold, n))
  {
    if n > 0 {
      RowsAscend(c, fold, n - 1);
    }
  }

  /** `fold_pt_indices`. */
  method FoldPtIndices(c: Corpus, fold: nat) returns (train: seq<nat>, test: seq<nat>)
    requires c.Valid()
    ensures test == c.FoldRows(fold, |c.pairOf|)
    ensures Ascending(test) && forall pt: nat :: pt in test <==> pt < |c.pairOf| && c.foldOf[c.pairOf[pt]] == fold
    ensures Ascending(train) && forall pt: nat :: pt in train <==> pt < |c.pairOf| && c.foldOf[c.pairOf[pt]] != fold
  {
    train, test := [], [];
    for pt := 0 to |c.pairOf|
      invariant test == c.FoldRows(fold, pt) && train == c.OtherRows(fold, pt)
    {
      if c.foldOf[c.pairOf[pt]] == fold {
        test := test + [pt];
      } else {
        train := train + [pt];
      }
    }
    RowsAscend(c, fold, |c.pairOf|);
    forall pt: nat
      ensures pt in test <==> pt < |c.pairOf| && c.foldOf[c.pairOf[pt]] == fold
      ensures pt in train <==> pt < |c.pairOf| && c.foldOf[c.pairOf[pt]] != fold
    {
      FoldRowsMember(c, fold, |c.pairOf|, pt);
      OtherRowsMember(c, fold, |c.pairOf|, pt);
    }
  }

  /** A whole segment lands in the fold's rows together, or not at all. */
  lemma {:induction false} SegmentLandsTogether(c: Corpus, fold: nat, k: nat, hi: nat)
    requires c.Valid() && k < |c.segments| && c.segments[k].0 <= hi <= c.segments[k].1
    ensures var lo := c.segments[k].0;
            c.FoldRows(fold, hi) == c.FoldRows(fold, lo) + if c.FoldOfSegment(k) == fold then RangeNat(lo, hi) else []
    decreases hi
  {
    var lo := c.segments[k].0;
    if lo < hi {
      SegmentLandsTogether(c, fold, k, hi - 1);
      assert c.pairOf[hi - 1] == c.pairOf[lo];
      assert RangeNat(lo, hi) == RangeNat(lo, hi - 1) + [hi - 1];
    }
  }

  /** `_test_segment_bounds`: running offsets agree with the positions of the fold's sorted rows. */
  method TestSegmentBounds(c: Corpus, fold: nat, test: seq<nat>) returns (bounds: seq<Span>)
    requires c.Valid() && test == c.FoldRows(fold, |c.pairOf|)
    ensures bounds == c.LocalBounds(fold, |c.segments|)
  {
    bounds := [];
    var offset := 0;
    for k := 0 to |c.segments|
      invariant bounds == c.LocalBounds(fold, k)
      invariant k < |c.segments| ==> offset == |c.FoldRows(fold, c.segments[k].0)|
    {
      var (lo, hi) := c.segments[k];
      BoundsStep(c, fold, k);
      if lo in test {
        bounds := bounds + [(offset, offset + (hi - lo))];
        offset := offset + (hi - lo);
      }
    }
  }

  /** What the next segment adds to the bounds, and to the rows of the fold before the one after it. */
  lemma BoundsStep(c: Corpus, fold: nat, k: nat)
    requires c.Valid() && k < |c.segments|
    ensures var (lo, hi) := c.segments[k];
            var offset, hit := |c.FoldRows(fold, lo)|, lo in c.FoldRows(fold, |c.pairOf|);
            && c.LocalBounds(fold, k + 1)
               == c.LocalBounds(fold, k) + (if hit then [(offset, offset + (hi - lo))] else [])
            && |c.FoldRows(fold, hi)| == offset + if hit then hi - lo else 0
  {
    HitIsOwnFold(c, fold, k);
    SegmentLandsTogether(c, fold, k, c.segments[k].1);
  }

  lemma HitIsOwnFold(c: Corpus, fold: nat, k: nat)
    requires c.Valid() && k < |c.segments|
    ensures c.segments[k].0 in c.FoldRows(fold, |c.pairOf|) <==> c.FoldOfSegment(k) == fold
  {
    FoldRowsMember(c, fold, |c.pairOf|, c.segments[k].0);
  }

  lemma {:induction false} FoldRowsPrefix(c: Corpus, fold: nat, m: nat, n: nat)
    requires c.Valid() && m <= n <= |c.pairOf|
    ensures c.FoldRows(fold, m) <= c.FoldRows(fold, n)
  {
    if m < n {
      FoldRowsPrefix(c, fold, m, n - 1);
    }
  }

  /** Rows `lo..hi` of the corpus are consecutive rows of the fold, so the slices agree. */
  lemma SliceOfSegment(flags: seq<bool>, c: Corpus, fold: nat, k: nat)
    requires c.Valid() && |flags| == |c.pairOf| && k < |c.segments| && c.FoldOfSegment(k) == fold
    ensures var (lo, hi) := c.segments[k];
            var a := |c.FoldRows(fold, lo)|;
            var rows := c.FoldRows(fold, |c.pairOf|);
            a + (hi - lo) <= |rows| && Gather(flags, rows)[a..a + (hi - lo)] == flags[lo..hi]
  {
    var (lo, hi) := c.segments[k];
    SegmentLandsTogether(c, fold, k, hi);
    FoldRowsPrefix(c, fold, hi, |c.pairOf|);
    var rows, upto, a := c.FoldRows(fold, |c.pairOf|), c.FoldRows(fold, hi), |c.FoldRows(fold, lo)|;
    forall i | 0 <= i < hi - lo
      ensures Gather(flags, rows)[a..a + (hi - lo)][i] == flags[lo..hi][i]
    {
      assert rows[a + i] == upto[a + i] == lo + i;
    }
  }

  /** A measure added up over the segments of one fold, in corpus coordinates. */
  function OverFold(a: seq<bool>, b: seq<bool>, c: Corpus, fold: nat, k: nat, f: Measure): int
    requires c.Valid() && |a| == |b| == |c.pairOf| && k <= |c.segments|
  {
    if k == 0 then 0 else
      var (lo, hi) := c.segments[k - 1];
      OverFold(a, b, c, fold, k - 1, f) + if c.FoldOfSegment(k - 1) == fold then f(a[lo..hi], b[lo..hi]) else 0
  }

  lemma {:induction false} BoundsInRange(c: Corpus, fold: nat, k: nat)
    requires c.Valid() && k <= |c.segments|
    ensures InBounds(c.LocalBounds(fold, k), |c.FoldRows(fold, |c.pairOf|)|)
  {
    if k > 0 {
      BoundsInRange(c, fold, k - 1);
      if c.FoldOfSegment(k - 1) == fold {
        SliceOfSegment(seq(|c.pairOf|, _ => true), c, fold, k - 1);
      }
    }
  }

  /** A measure of one fold, taken in the fold's own row coordinates. */
  function LocalMeasure(a: seq<bool>, b: seq<bool>, c: Corpus, fold: nat, k: nat, f: Measure): int
    requires c.Valid() && |a| == |b| == |c.pairOf| && k <= |c.segments|
  {
    var rows := c.FoldRows(fold, |c.pairOf|);
    BoundsInRange(c, fold, k);
    OverSegments(Gather(a, rows), Gather(b, rows), c.LocalBounds(fold, k), f)
  }

  /** Scoring a fold in its own coordinates is scoring its segments in the corpus. */
  lemma {:induction false} LocalEqualsGlobal(a: seq<bool>, b: seq<bool>, c: Corpus, fold: nat, k: nat, f: Measure)
    requires c.Valid() && |a| == |b| == |c.pairOf| && k <= |c.segments|
    ensures LocalMeasure(a, b, c, fold, k, f) == OverFold(a, b, c, fold, k, f)
  {
    if k > 0 {
      LocalEqualsGlobal(a, b, c, fold, k - 1, f);
      BoundsInRange(c, fold, k - 1);
      if c.FoldOfSegment(k - 1) == fold {
        LocalStep(a, b, c, fold, k, f);
      } else {
        assert c.LocalBounds(fold, k) == c.LocalBounds(fold, k - 1);
      }
    }
  }

  lemma LocalStep(a: seq<bool>, b: seq<bool>, c: Corpus, fold: nat, k: nat, f: Measure)
    requires c.Valid() && |a| == |b| == |c.pairOf| && 0 < k <= |c.segments| && c.FoldOfSegment(k - 1) == fold
    ensures var (lo, hi) := c.segments[k - 1];
            LocalMeasure(a, b, c, fold, k, f) == LocalMeasure(a, b, c, fold, k - 1, f) + f(a[lo..hi], b[lo..hi])
  {
    var (lo, hi) := c.segments[k - 1];
    var bounds, rows := c.LocalBounds(fold, k), c.FoldRows(fold, |c.pairOf|);
    var x, y := bounds[|bounds| - 1].0, bounds[|bounds| - 1].1;
    assert bounds[..|bounds| - 1] == c.LocalBounds(fold, k - 1);
    BoundsInRange(c, fold, k);
    SliceOfSegment(a, c, fold, k - 1);
    SliceOfSegment(b, c, fold, k - 1);
    assert Gather(a, rows)[x..y] == a[lo..hi] && Gather(b, rows)[x..y] == b[lo..hi];
  }

  function SumOverFolds(a: seq<bool>, b: seq<bool>, c: Corpus, n: nat, k: nat, f: Measure): int
    requires c.Valid() && |a| == |b| == |c.pairOf| && k <= |c.segments|
  {
    if n == 0 then 0 else SumOverFolds(a, b, c, n - 1, k, f) + OverFold(a, b, c, n - 1, k, f)
  }

  lemma {:induction false} FoldSumStep(a: seq<bool>, b: seq<bool>, c: Corpus, n: nat, k: nat, f: Measure)
    requires c.Valid() && |a| == |b| == |c.pairOf| && 0 < k <= |c.segments|
    ensures var (lo, hi) := c.segments[k - 1];
            SumOverFolds(a, b, c, n, k, f)
            == SumOverFolds(a, b, c, n, k - 1, f) + if c.FoldOfSegment(k - 1) < n then f(a[lo..hi], b[lo..hi]) else 0
  {
    if n > 0 {
      FoldSumStep(a, b, c, n - 1, k, f);
    }
  }

  lemma {:induction false} NoSegments(a: seq<bool>, b: seq<bool>, c: Corpus, n: nat, f: Measure)
    requires c.Valid() && |a| == |b| == |c.pairOf|
    ensures SumOverFolds(a, b, c, n, 0, f) == 0
  {
    if n > 0 {
      NoSegments(a, b, c, n - 1, f);
    }
  }

  lemma {:induction false} FoldsAddUpTo(a: seq<bool>, b: seq<bool>, c: Corpus, n: nat, k: nat, f: Measure)
    requires c.Valid() && |a| == |b| == |c.pairOf| && k <= |c.segments|
    requires forall j :: 0 <= j < |c.segments| ==> c.FoldOfSegment(j) < n
    ensures SumOverFolds(a, b, c, n, k, f) == OverSegments(a, b, c.segments[..k], f)
  {
    if k == 0 {
      NoSegments(a, b, c, n, f);
    } else {
      FoldsAddUpTo(a, b, c, n, k - 1, f);
      FoldSumStep(a, b, c, n, k, f);
      assert c.segments[..k][..k - 1] == c.segments[..k - 1];
    }
  }

  /** What folds `0..n-1` measure, each in its own coordinates, added up. */
  function SumOfLocal(a: seq<bool>, b: seq<bool>, c: Corpus, n: nat, f: Measure): int
    requires c.Valid() && |a| == |b| == |c.pairOf|
  {
    if n == 0 then 0 else SumOfLocal(a, b, c, n - 1, f) + LocalMeasure(a, b, c, n - 1, |c.segments|, f)
  }

  lemma OneFoldMore(a: seq<bool>, b: seq<bool>, c: Corpus, n: nat, f: Measure)
    requires c.Valid() && |a| == |b| == |c.pairOf| && n > 0
    ensures SumOfLocal(a, b, c, n, f) - SumOfLocal(a, b, c, n - 1, f)
            == SumOverFolds(a, b, c, n, |c.segments|, f) - SumOverFolds(a, b, c, n - 1, |c.segments|, f)
  {
    var fold := n - 1;
    LocalEqualsGlobal(a, b, c, fold, |c.segments|, f);
  }

  lemma {:induction false} LocalSums(a: seq<bool>, b: seq<bool>, c: Corpus, n: nat, f: Measure)
    requires c.Valid() && |a| == |b| == |c.pairOf|
    ensures SumOfLocal(a, b, c, n, f) == SumOverFolds(a, b, c, n, |c.segments|, f)
  {
    if n > 0 {
      LocalSums(a, b, c, n - 1, f);
      OneFoldMore(a, b, c, n, f);
    }
  }

  /** Any per-segment measure is conserved by cutting the corpus into folds. */
  lemma SegmentMeasuresAddUp(a: seq<bool>, b: seq<bool>, c: Corpus, n: nat, f: Measure)
    requires c.Valid() && |a| == |b| == |c.pairOf|
    requires forall j :: 0 <= j < |c.segments| ==> c.FoldOfSegment(j) < n
    ensures SumOfLocal(a, b, c, n, f) == OverSegments(a, b, c.segments, f)
  {
    LocalSums(a, b, c, n, f);
    FoldsAddUpTo(a, b, c, n, |c.segments|, f);
    assert c.segments[..|c.segments|] == c.segments;
  }

  /**
   Interval counts are conserved: gold, predicted and matched intervals counted fold by fold, each
   fold in its own row coordinates, add up to the counts over the whole corpus.
   */
  lemma FoldScoresAddUp(pred: seq<bool>, gold: seq<bool>, c: Corpus, n: nat)
    requires c.Valid() && |pred| == |gold| == |c.pairOf|
    requires forall j :: 0 <= j < |c.segments| ==> c.FoldOfSegment(j) < n
    ensures SumOfLocal(gold, pred, c, n, RunCount()) == |RunsWithin(gold, c.segments)|
    ensures SumOfLocal(gold, pred, c, n, MatchCount())
            == Count(RunsWithin(gold, c.segments), MeetsSome(RunsWithin(pred, c.segments)))
    ensures SumOfLocal(pred, gold, c, n, RunCount()) == |RunsWithin(pred, c.segments)|
    ensures SumOfLocal(pred, gold, c, n, MatchCount())
            == Count(RunsWithin(pred, c.segments), MeetsSome(RunsWithin(gold, c.segments)))
  {
    OneSideAddsUp(gold, pred, c, n);
    OneSideAddsUp(pred, gold, c, n);
  }

  lemma OneSideAddsUp(flags: seq<bool>, other: seq<bool>, c: Corpus, n: nat)
    requires c.Valid() && |flags| == |other| == |c.pairOf|
    requires forall j :: 0 <= j < |c.segments| ==> c.FoldOfSegment(j) < n
    ensures SumOfLocal(flags, other, c, n, RunCount()) == |RunsWithin(flags, c.segments)|
    ensures SumOfLocal(flags, other, c, n, MatchCount())
            == Count(RunsWithin(flags, c.segments), MeetsSome(RunsWithin(other, c.segments)))
  {
    SegmentMeasuresAddUp(flags, other, c, n, RunCount());
    SegmentMeasuresAddUp(flags, other, c, n, MatchCount());
    RunsWithinCount(flags, other, c.segments);
    MatchedMeasure(flags, other, c.segments);
  }
}
