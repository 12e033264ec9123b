/**
 Why the definitional body's false positives are false: `fp_decomposition` in
 examples/maritime_woled/ceiling_probe.py.
 */
module FpDecomposition {
  import opened Lists
  import opened SegmentRuns
  import Scorer

  /** What the function reads of a converted corpus, and the body's prediction for every row. */
  datatype Probe = Probe(segments: seq<Span>, times: seq<int>, pairOf: seq<nat>, gold: seq<bool>, predicted: seq<bool>,
                         positivePairs: nat) {
    ghost predicate Valid() {
      && |times| == |pairOf| == |gold| == |predicted|
      && Partition(segments, |times|) && InBounds(segments, |times|)
    }

    /** The maximal predicted runs, segment by segment. */
    ghost function PredictedRuns(): seq<Span>
      requires Valid()
    {
      RunsWithin(predicted, segments)
    }
  }

  function Duration(times: seq<int>, run: Span): int {
    if run.0 < run.1 <= |times| then times[run.1 - 1] - times[run.0] else 0
  }

  function IsShort(times: seq<int>, threshold: int): Span -> bool {
    (run: Span) => Duration(times, run) < threshold
  }

  /** The row lies in a run shorter than the threshold. */
  ghost predicate InShortRun(runs: seq<Span>, times: seq<int>, threshold: int, i: nat) {
    exists r :: 0 <= r < |runs| && runs[r].0 <= i < runs[r].1 && Duration(times, runs[r]) < threshold
  }

  predicate FalsePositive(p: Probe, i: nat) {
    i < |p.predicted| && i < |p.gold| && p.predicted[i] && !p.gold[i]
  }

  datatype Decomposition = Decomposition(negativePairs: int, shortRun: int, other: int, total: int, runs: int,
                                         shortRuns: int)

  // ---------------------------------------------------------------- runs do not overlap

  predicate RunsAscend(runs: seq<Span>) {
    && (forall r :: 0 <= r < |runs| ==> runs[r].0 < runs[r].1)
    && forall q, r :: 0 <= q < r < |runs| ==> runs[q].1 <= runs[r].0
  }

  lemma PartitionPrefix(segments: seq<Span>, n: nat)
    requires Partition(segments, n) && |segments| > 0
    ensures Partition(segments[..|segments| - 1], segments[|segments| - 1].0)
  {
  }

  lemma {:induction false} RunsAreAscending(flags: seq<bool>, segments: seq<Span>, n: nat)
    requires Partition(segments, n) && n <= |flags| && InBounds(segments, |flags|)
    ensures RunsAscend(RunsWithin(flags, segments))
    ensures forall r :: 0 <= r < |RunsWithin(flags, segments)| ==> RunsWithin(flags, segments)[r].1 <= n
    decreases |segments|
  {
    if |segments| > 0 {
      var before := segments[..|segments| - 1];
      var (lo, hi) := segments[|segments| - 1];
      PartitionPrefix(segments, n);
      RunsAreAscending(flags, before, lo);
      RunsAreMaximal(flags[lo..hi]);
      RunsJoin(RunsWithin(flags, before), flags[lo..hi], RunsOf(flags[lo..hi]), lo);
    }
  }

  lemma RunsJoin(was: seq<Span>, s: seq<bool>, runs: seq<Span>, lo: nat)
    requires RunsAscend(was) && ListsMaximalRuns(s, runs)
    requires forall r :: 0 <= r < |was| ==> was[r].1 <= lo
    ensures RunsAscend(was + Shift(runs, lo))
    ensures forall r :: 0 <= r < |was + Shift(runs, lo)| ==> (was + Shift(runs, lo))[r].1 <= lo + |s|
  {
    assert forall r :: 0 <= r < |runs| ==> IsMaximalRun(s, runs[r].0, runs[r].1);
  }

  /** With runs that do not overlap, a row is in a short run exactly when its own run is short. */
  lemma OwnRun(runs: seq<Span>, times: seq<int>, threshold: int, r: nat, i: nat)
    requires RunsAscend(runs) && r < |runs| && runs[r].0 <= i < runs[r].1
    ensures InShortRun(runs, times, threshold, i) <==> Duration(times, runs[r]) < threshold
  {
    forall q | 0 <= q < |runs| && runs[q].0 <= i < runs[q].1
      ensures q == r
    {
    }
  }

  // ---------------------------------------------------------------- durations

  /** The dictionary holds every row of the runs listed, with the duration of its run. */
  ghost predicate Recorded(durations: map<nat, int>, times: seq<int>, runs: seq<Span>) {
    && (forall r, i: nat :: 0 <= r < |runs| && runs[r].0 <= i < runs[r].1 ==>
          i in durations && durations[i] == Duration(times, runs[r]))
    && forall i :: i in durations ==> InSome(runs, i)
  }

  /** `for j in range(start, i): run_duration_of[j] = duration`. */
  method RecordRun(durations0: map<nat, int>, run: Span, duration: int) returns (durations: map<nat, int>)
    requires run.0 <= run.1
    ensures forall i :: i in durations <==> i in durations0 || run.0 <= i < run.1
    ensures forall i :: i in durations ==> durations[i] == if run.0 <= i < run.1 then duration else durations0[i]
  {
    durations := durations0;
    for j := run.0 to run.1
      invariant forall i :: i in durations <==> i in durations0 || run.0 <= i < j
      invariant forall i :: i in durations ==> durations[i] == if run.0 <= i < j then duration else durations0[i]
    {
      durations := durations[j := duration];
    }
  }

  lemma RecordedMore(before: map<nat, int>, after: map<nat, int>, times: seq<int>, runs: seq<Span>, run: Span)
    requires Recorded(before, times, runs) && run.0 <= run.1 && forall r :: 0 <= r < |runs| ==> runs[r].1 <= run.0
    requires forall i :: i in after <==> i in before || run.0 <= i < run.1
    requires forall i :: i in after ==> after[i] == if run.0 <= i < run.1 then Duration(times, run) else before[i]
    ensures Recorded(after, times, runs + [run])
  {
    var all := runs + [run];
    forall i | i in after
      ensures InSome(all, i)
    {
      if run.0 <= i < run.1 {
        assert all[|runs|].0 <= i < all[|runs|].1;
      } else {
        var r :| 0 <= r < |runs| && runs[r].0 <= i < runs[r].1;
        assert all[r].0 <= i < all[r].1;
      }
    }
    forall r, i: nat | 0 <= r < |all| && all[r].0 <= i < all[r].1
      ensures i in after && after[i] == Duration(times, all[r])
    {
      if r < |runs| {
        assert all[r] == runs[r];
      }
    }
  }

  /** The duration of every predicted row's run, and how many runs there are and how many are short. */
  method RunDurations(p: Probe, threshold: int) returns (durations: map<nat, int>, n: int, short: int)
    requires p.Valid()
    ensures RunsTold(p, threshold, durations, n, short, p.PredictedRuns())
  {
    durations, n, short := map[], 0, 0;
    ghost var runs: seq<Span> := [];
    for k := 0 to |p.segments|
      invariant runs == RunsWithin(p.predicted, p.segments[..k])
      invariant RunsTold(p, threshold, durations, n, short, runs)
    {
      NextSegmentRuns(p.predicted, p.segments, k);
      durations, n, short, runs := SegmentDurations(p, threshold, k, durations, n, short, runs);
    }
    assert p.segments[..|p.segments|] == p.segments;
  }

  lemma NextSegmentRuns(flags: seq<bool>, segments: seq<Span>, k: nat)
    requires InBounds(segments, |flags|) && k < |segments|
    ensures var (lo, hi) := segments[k];
            RunsWithin(flags, segments[..k + 1]) == RunsWithin(flags, segments[..k]) + Shift(RunsOf(flags[lo..hi]), lo)
  {
    assert segments[..k + 1][..k] == segments[..k];
  }

  ghost predicate RunsTold(p: Probe, threshold: int, durations: map<nat, int>, n: int, short: int, runs: seq<Span>) {
    Recorded(durations, p.times, runs) && n == |runs| && short == Count(runs, IsShort(p.times, threshold))
  }

  /** The loop over one segment. */
  method SegmentDurations(p: Probe, threshold: int, k: nat, durations0: map<nat, int>, n0: int, short0: int,
                          ghost runs0: seq<Span>)
    returns (durations: map<nat, int>, n: int, short: int, ghost runs: seq<Span>)
    requires p.Valid() && k < |p.segments| && runs0 == RunsWithin(p.predicted, p.segments[..k])
    requires RunsTold(p, threshold, durations0, n0, short0, runs0)
    ensures var (lo, hi) := p.segments[k]; runs == runs0 + Shift(RunsOf(p.predicted[lo..hi]), lo)
    ensures RunsTold(p, threshold, durations, n, short, runs)
  {
    var (lo, hi) := p.segments[k];
    durations, n, short, runs := durations0, n0, short0, runs0;
    var start: Option<nat> := None;
    for i := lo to hi + 1
      invariant RunsUpTo(p.predicted, lo, hi, i, runs0, runs, start)
      invariant RunsTold(p, threshold, durations, n, short, runs)
    {
      start, durations, n, short, runs := DurationsAtRow(p, threshold, k, i, start, durations, n, short, runs0, runs);
    }
  }

  /** One turn of the loop; the turn past the segment's end closes an open run. */
  method DurationsAtRow(p: Probe, threshold: int, k: nat, i: nat, start0: Option<nat>, durations0: map<nat, int>,
                        n0: int, short0: int, ghost before: seq<Span>, ghost runs0: seq<Span>)
    returns (start: Option<nat>, durations: map<nat, int>, n: int, short: int, ghost runs: seq<Span>)
    requires p.Valid() && k < |p.segments| && before == RunsWithin(p.predicted, p.segments[..k])
    requires p.segments[k].0 <= i <= p.segments[k].1 && RunsTold(p, threshold, durations0, n0, short0, runs0)
    requires RunsUpTo(p.predicted, p.segments[k].0, p.segments[k].1, i, before, runs0, start0)
    ensures RunsUpTo(p.predicted, p.segments[k].0, p.segments[k].1, i + 1, before, runs, start)
    ensures RunsTold(p, threshold, durations, n, short, runs)
  {
    start, durations, n, short, runs := start0, durations0, n0, short0, runs0;
    var (lo, hi) := p.segments[k];
    var inRun := i < hi && p.predicted[i];
    RunsStepOrEnd(p.predicted, lo, hi, i, before, runs, start);
    if inRun && start.None? {
      start := Some(i);
    } else if !inRun && start.Some? {
      OpenRunIsLast(p, k, i, before, runs, start);
      durations, n, short, runs := CloseRun(p, threshold, (start.value, i), durations, n, short, runs);
      start := None;
    }
  }

  /** What is done with a run that has ended. */
  method CloseRun(p: Probe, threshold: int, run: Span, durations0: map<nat, int>, n0: int, short0: int,
                  ghost runs0: seq<Span>)
    returns (durations: map<nat, int>, n: int, short: int, ghost runs: seq<Span>)
    requires RunsTold(p, threshold, durations0, n0, short0, runs0)
    requires run.0 < run.1 <= |p.times| && forall r :: 0 <= r < |runs0| ==> runs0[r].1 <= run.0
    ensures runs == runs0 + [run] && RunsTold(p, threshold, durations, n, short, runs)
  {
    var duration := p.times[run.1 - 1] - p.times[run.0];
    n := n0 + 1;
    short := if duration < threshold then short0 + 1 else short0;
    durations := RecordRun(durations0, run, duration);
    runs := runs0 + [run];
    RecordedMore(durations0, durations, p.times, runs0, run);
    CountAppend(runs0, run, IsShort(p.times, threshold));
  }

  /** Runs found in the first `i` rows of the segment, the open one apart; past its end, all of its runs. */
  ghost predicate RunsUpTo(flags: seq<bool>, lo: nat, hi: nat, i: nat, runs0: seq<Span>, runs: seq<Span>,
                           start: Option<nat>)
    requires lo <= hi <= |flags| && lo <= i
  {
    if i <= hi then RunsSoFar(flags, lo, i, runs0, runs, start)
    else start.None? && runs == runs0 + Shift(RunsOf(flags[lo..hi]), lo)
  }

  lemma RunsStepOrEnd(flags: seq<bool>, lo: nat, hi: nat, i: nat, runs0: seq<Span>, runs: seq<Span>,
                      start: Option<nat>)
    requires lo <= i <= hi <= |flags| && RunsUpTo(flags, lo, hi, i, runs0, runs, start)
    ensures var (runs', start') := NextOpen(runs, start, i, i < hi && flags[i]);
            RunsUpTo(flags, lo, hi, i + 1, runs0, runs', start')
  {
    if i < hi {
      RunsStep(flags, lo, i, runs0, runs, start);
    }
  }

  /** A run still open begins after every run already listed. */
  lemma OpenRunIsLast(p: Probe, k: nat, i: nat, runs0: seq<Span>, runs: seq<Span>, start: Option<nat>)
    requires p.Valid() && k < |p.segments| && runs0 == RunsWithin(p.predicted, p.segments[..k])
    requires p.segments[k].0 <= i <= p.segments[k].1 && start.Some?
    requires RunsSoFar(p.predicted, p.segments[k].0, i, runs0, runs, start)
    ensures forall r :: 0 <= r < |runs| ==> runs[r].1 <= start.value
  {
    var lo := p.segments[k].0;
    var all := runs0 + Shift(RunsOf(p.predicted[lo..i]), lo);
    PrefixPartition(p.segments, |p.times|, k);
    RunsAreAscending(p.predicted, p.segments[..k], lo);
    RunsAreMaximal(p.predicted[lo..i]);
    RunsJoin(runs0, p.predicted[lo..i], RunsOf(p.predicted[lo..i]), lo);
    assert all == runs + [(start.value, i)];
    forall r | 0 <= r < |runs|
      ensures runs[r].1 <= start.value
    {
      assert all[r] == runs[r] && all[|runs|] == (start.value, i);
    }
  }

  lemma {:induction false} PrefixPartition(segments: seq<Span>, n: nat, k: nat)
    requires Partition(segments, n) && k < |segments|
    ensures Partition(segments[..k], segments[k].0)
    decreases |segments|
  {
    PartitionPrefix(segments, n);
    if k < |segments| - 1 {
      var before := segments[..|segments| - 1];
      PrefixPartition(before, segments[|segments| - 1].0, k);
      assert before[..k] == segments[..k];
    }
  }

  // ---------------------------------------------------------------- the three causes

  ghost predicate InNegativePair(p: Probe, i: nat)
    requires i < |p.pairOf|
  {
    p.pairOf[i] >= p.positivePairs
  }

  /** How many rows below `n` are false positives of each cause. */
  ghost function ByCause(p: Probe, threshold: int, n: nat): (int, int, int)
    requires p.Valid() && n <= |p.times|
  {
    if n == 0 then (0, 0, 0)
    else
      var (a, b, c) := ByCause(p, threshold, n - 1);
      if !FalsePositive(p, n - 1) then (a, b, c)
      else if InNegativePair(p, n - 1) then (a + 1, b, c)
      else if InShortRun(p.PredictedRuns(), p.times, threshold, n - 1) then (a, b + 1, c)
      else (a, b, c + 1)
  }

  /** Every False positive has exactly one cause. */
  lemma {:induction false} CausesPartition(p: Probe, threshold: int, n: nat)
    requires p.Valid() && n <= |p.times|
    ensures var (a, b, c) := ByCause(p, threshold, n);
            a + b + c == Scorer.Tally(p.predicted[..n], p.gold[..n], true, false)
  {
    if n > 0 {
      CausesPartition(p, threshold, n - 1);
      assert p.predicted[..n][..n - 1] == p.predicted[..n - 1] && p.gold[..n][..n - 1] == p.gold[..n - 1];
    }
  }

  lemma DurationOfRow(p: Probe, threshold: int, durations: map<nat, int>, i: nat)
    requires p.Valid() && Recorded(durations, p.times, p.PredictedRuns()) && i < |p.times| && p.predicted[i]
    ensures i in durations && (durations[i] < threshold <==> InShortRun(p.PredictedRuns(), p.times, threshold, i))
  {
    var k := SegmentOfRow(p.segments, |p.times|, i);
    RunsCoverSegment(p.predicted, p.segments, k, i);
    RunsAreAscending(p.predicted, p.segments, |p.times|);
    var runs := p.PredictedRuns();
    var r :| 0 <= r < |runs| && runs[r].0 <= i < runs[r].1;
    OwnRun(runs, p.times, threshold, r, i);
  }

  lemma {:induction false} SegmentOfRow(segments: seq<Span>, n: nat, i: nat) returns (k: nat)
    requires Partition(segments, n) && i < n
    ensures k < |segments| && segments[k].0 <= i < segments[k].1
    decreases |segments|
  {
    var last := |segments| - 1;
    if segments[last].0 <= i {
      k := last;
    } else {
      PartitionPrefix(segments, n);
      k := SegmentOfRow(segments[..last], segments[last].0, i);
    }
  }

  /**
   `fp_decomposition`: the causes are counted in the order of the source, each false positive once;
   no row is missing from the dictionary of durations; the total is the pointwise count of false positives.
   */
  method DecomposeFalsePositives(p: Probe, threshold: int) returns (d: Decomposition)
    requires p.Valid()
    ensures (d.negativePairs, d.shortRun, d.other) == ByCause(p, threshold, |p.times|)
    ensures d.total == d.negativePairs + d.shortRun + d.other == Scorer.Tally(p.predicted, p.gold, true, false)
    ensures d.runs == |p.PredictedRuns()| && d.shortRuns == Count(p.PredictedRuns(), IsShort(p.times, threshold))
  {
    var durations, runs, shortRuns := RunDurations(p, threshold);
    var negative, short, other := 0, 0, 0;
    for i := 0 to |p.times|
      invariant (negative, short, other) == ByCause(p, threshold, i)
    {
      if p.predicted[i] {
        DurationOfRow(p, threshold, durations, i);
        if !p.gold[i] {
          if p.pairOf[i] >= p.positivePairs {
            negative := negative + 1;
          } else if durations[i] < threshold {
            short := short + 1;
          } else {
            other := other + 1;
          }
        }
      }
    }
    CausesPartition(p, threshold, |p.times|);
    assert p.predicted[..|p.times|] == p.predicted && p.gold[..|p.times|] == p.gold;
    d := Decomposition(negative, short, other, negative + short + other, runs, shortRuns);
  }
}
