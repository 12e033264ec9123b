/**
 The row loop of `convert` in maritime_convert.py: timelines cut into episodes, rows and segments
 emitted pair by pair, and event targets and masks written inline, one state machine an episode.
 */
module MaritimeRows {
  import opened Lists
  import opened IntervalAlgebra
  import opened SustainedRelation
  import opened EventCalculus
  import opened SegmentRuns

  const EPISODE_GAP_S: int := 3600

  // ---------------------------------------------------------------- episodes

  ghost predicate StartsEpisode(eps: seq<Span>, i: nat) {
    exists k :: 0 <= k < |eps| && eps[k].0 == i
  }

  /** A new episode starts exactly where the gap to the previous timepoint is too long. */
  ghost predicate SplitAtGaps(times: seq<int>, eps: seq<Span>, n: nat)
    requires n <= |times|
  {
    forall i: nat :: 0 < i < n ==> (StartsEpisode(eps, i) <==> times[i] - times[i - 1] > EPISODE_GAP_S)
  }

  /** Closed episodes cover `0..lo`; the open one started at `lo` and has no gap up to `i`. */
  ghost predicate EpisodesSoFar(times: seq<int>, eps: seq<Span>, lo: nat, i: nat) {
    && lo < i <= |times| && Partition(eps, lo) && InBounds(eps, lo)
    && SplitAtGaps(times, eps + [(lo, i)], i)
  }

  lemma EpisodeStep(times: seq<int>, eps: seq<Span>, lo: nat, i: nat)
    requires i < |times| && EpisodesSoFar(times, eps, lo, i)
    ensures if times[i] - times[i - 1] > EPISODE_GAP_S then EpisodesSoFar(times, eps + [(lo, i)], i, i + 1)
            else EpisodesSoFar(times, eps, lo, i + 1)
  {
    var was := eps + [(lo, i)];
    if times[i] - times[i - 1] > EPISODE_GAP_S {
      var now := was + [(i, i + 1)];
      forall j: nat | 0 < j < i + 1
        ensures StartsEpisode(now, j) <==> StartsEpisode(was, j) || j == i
        ensures StartsEpisode(was, j) ==> j < i
      {
        SameStarts(was, now, j);
        assert now[|was|] == (i, i + 1);
      }
    } else {
      var now := eps + [(lo, i + 1)];
      forall j: nat | 0 < j < i + 1
        ensures StartsEpisode(now, j) <==> StartsEpisode(was, j)
        ensures StartsEpisode(was, j) ==> j < i
      {
        SameStarts(eps, was, j);
        SameStarts(eps, now, j);
        assert was[|eps|].0 == now[|eps|].0 == lo;
      }
    }
  }

  lemma SameStarts(eps: seq<Span>, longer: seq<Span>, j: nat)
    requires eps <= longer
    ensures StartsEpisode(eps, j) ==> StartsEpisode(longer, j)
    ensures StartsEpisode(longer, j) ==> StartsEpisode(eps, j) || exists k :: |eps| <= k < |longer| && longer[k].0 == j
  {
    if StartsEpisode(eps, j) {
      var k :| 0 <= k < |eps| && eps[k].0 == j;
      assert longer[k].0 == j;
    }
    if StartsEpisode(longer, j) {
      var k :| 0 <= k < |longer| && longer[k].0 == j;
      if k < |eps| {
        assert eps[k].0 == j;
      }
    }
  }

  /** The episodes of a list of timepoints: a long gap opens a new one, any other timepoint extends the last. */
  function EpisodesOf(times: seq<int>): (eps: seq<Span>)
    ensures |eps| == 0 <==> |times| == 0
  {
    if |times| == 0 then []
    else
      var k := |times| - 1;
      var before := EpisodesOf(times[..k]);
      if k == 0 || times[k] - times[k - 1] > EPISODE_GAP_S then before + [(k, k + 1)]
      else before[..|before| - 1] + [(before[|before| - 1].0, k + 1)]
  }

  /** Only one list of episodes partitions the timepoints and starts exactly at the long gaps. */
  lemma {:induction false} EpisodesAreUnique(times: seq<int>, a: seq<Span>, b: seq<Span>, n: nat)
    requires n <= |times| && Partition(a, n) && Partition(b, n) && SplitAtGaps(times, a, n) && SplitAtGaps(times, b, n)
    ensures a == b
    decreases n
  {
    if n > 0 {
      LastStartsAgree(times, a, b, n);
      LastStartsAgree(times, b, a, n);
      var lo := a[|a| - 1].0;
      SplitPrefix(times, a, n);
      SplitPrefix(times, b, n);
      EpisodesAreUnique(times, a[..|a| - 1], b[..|b| - 1], lo);
    }
  }

  lemma LastStartsAgree(times: seq<int>, a: seq<Span>, b: seq<Span>, n: nat)
    requires 0 < n <= |times| && Partition(a, n) && Partition(b, n) && SplitAtGaps(times, a, n)
    requires SplitAtGaps(times, b, n)
    ensures a[|a| - 1].0 <= b[|b| - 1].0
  {
    var lo := a[|a| - 1].0;
    if lo > 0 {
      assert StartsEpisode(a, lo);
      assert times[lo] - times[lo - 1] > EPISODE_GAP_S;
      assert StartsEpisode(b, lo);
      var k :| 0 <= k < |b| && b[k].0 == lo;
      if k < |b| - 1 {
        Ascending(b, n, k, |b| - 1);
      }
    }
  }

  lemma SplitPrefix(times: seq<int>, eps: seq<Span>, n: nat)
    requires 0 < n <= |times| && Partition(eps, n) && SplitAtGaps(times, eps, n)
    ensures var before, lo := eps[..|eps| - 1], eps[|eps| - 1].0;
            lo < n && Partition(before, lo) && SplitAtGaps(times, before, lo)
  {
    var before, lo := eps[..|eps| - 1], eps[|eps| - 1].0;
    forall i: nat | 0 < i < lo
      ensures StartsEpisode(before, i) <==> StartsEpisode(eps, i)
    {
      SameStarts(before, eps, i);
    }
  }

  lemma EpisodesGrow(times: seq<int>, eps: seq<Span>, lo: nat, i: nat)
    requires 0 < i < |times| && EpisodesOf(times[..i]) == eps + [(lo, i)]
    ensures EpisodesOf(times[..i + 1])
            == if times[i] - times[i - 1] > EPISODE_GAP_S then eps + [(lo, i)] + [(i, i + 1)] else eps + [(lo, i + 1)]
  {
    var s, before := times[..i + 1], EpisodesOf(times[..i]);
    assert s[..i] == times[..i] && s[i] == times[i] && s[i - 1] == times[i - 1];
    assert before[..|before| - 1] == eps && before[|before| - 1] == (lo, i);
  }

  lemma FirstEpisode(times: seq<int>)
    requires |times| > 0
    ensures EpisodesOf(times[..1]) == [(0, 1)] && EpisodesSoFar(times, [], 0, 1) && [(0, 1)][..0] == []
  {
    assert times[..1][..0] == [];
    assert [] + [(0, 1)] == [(0, 1)];
  }

  lemma {:induction false} EpisodesUpTo(times: seq<int>, i: nat)
    requires 0 < i <= |times|
    ensures var eps := EpisodesOf(times[..i]);
            EpisodesSoFar(times, eps[..|eps| - 1], eps[|eps| - 1].0, i) && eps[|eps| - 1].1 == i
  {
    if i == 1 {
      FirstEpisode(times);
    } else {
      EpisodesUpTo(times, i - 1);
      var eps := EpisodesOf(times[..i - 1]);
      var before, lo := eps[..|eps| - 1], eps[|eps| - 1].0;
      assert eps == before + [(lo, i - 1)];
      EpisodesGrow(times, before, lo, i - 1);
      EpisodeStep(times, before, lo, i - 1);
      var now := EpisodesOf(times[..i]);
      assert now[..|now| - 1] == if times[i - 1] - times[i - 2] > EPISODE_GAP_S then eps else before;
    }
  }

  /** The episodes partition the timepoints and start exactly at the long gaps. */
  lemma EpisodesAreSplit(times: seq<int>)
    ensures var eps := EpisodesOf(times);
            Partition(eps, |times|) && InBounds(eps, |times|) && SplitAtGaps(times, eps, |times|)
  {
    if |times| > 0 {
      EpisodesUpTo(times, |times|);
      assert times[..|times|] == times;
      var eps := EpisodesOf(times);
      ClosedEpisodes(times, eps[..|eps| - 1], eps[|eps| - 1].0);
      assert eps == eps[..|eps| - 1] + [(eps[|eps| - 1].0, |times|)];
    }
  }

  lemma ClosedEpisodes(times: seq<int>, eps: seq<Span>, lo: nat)
    requires EpisodesSoFar(times, eps, lo, |times|)
    ensures var all := eps + [(lo, |times|)];
            Partition(all, |times|) && InBounds(all, |times|) && SplitAtGaps(times, all, |times|)
  {
  }

  /** The end of `build_pair_timeline`: cut the sorted timepoints into episodes. */
  method SplitEpisodes(times: seq<int>) returns (eps: seq<Span>)
    ensures Partition(eps, |times|) && InBounds(eps, |times|)
    ensures SplitAtGaps(times, eps, |times|)
    ensures eps == EpisodesOf(times)
  {
    eps := [];
    if |times| > 0 {
      var lo := 0;
      assert times[..1][..0] == [];
      for i := 1 to |times|
        invariant lo < i
        invariant EpisodesOf(times[..i]) == eps + [(lo, i)]
      {
        EpisodesGrow(times, eps, lo, i);
        if times[i] - times[i - 1] > EPISODE_GAP_S {
          eps := eps + [(lo, i)];
          lo := i;
        }
      }
      eps := eps + [(lo, |times|)];
      assert times[..|times|] == times;
    }
    EpisodesAreSplit(times);
  }

  // ---------------------------------------------------------------- rows

  /** A pair's sorted timepoints and its rendezvous intervals. */
  datatype PairData = PairData(times: seq<int>, rendezvous: seq<Interval>)

  datatype Converted = Converted(
    segments: seq<Span>,
    pairOf: seq<nat>,
    time: seq<int>,
    isPositive: seq<bool>,
    initLabels: seq<bool>,
    initDontCare: seq<bool>,
    termLabels: seq<bool>,
    termDontCare: seq<bool>)

  predicate SameLength(c: Converted, m: nat) {
    && |c.pairOf| == |c.time| == |c.isPositive| == m
    && |c.initLabels| == |c.initDontCare| == |c.termLabels| == |c.termDontCare| == m
  }

  /** Row `pt`'s events, compared with the row before it unless it opens its segment. */
  predicate LabelledRow(c: Converted, lo: nat, pt: nat)
    requires SameLength(c, |c.pairOf|) && lo <= pt < |c.pairOf|
  {
    var pos := c.isPositive[pt];
    var wasOff := pt == lo || !c.isPositive[pt - 1];
    && (c.initLabels[pt] <==> pos && wasOff)
    && (c.initDontCare[pt] <==> pos && !wasOff)
    && (c.termLabels[pt] <==> !pos && !wasOff)
    && (c.termDontCare[pt] <==> !pos && wasOff)
  }

  /** A row of the segment that starts at `lo`. */
  predicate GoodRow(c: Converted, lo: nat, pt: nat)
    requires SameLength(c, |c.pairOf|) && lo <= pt < |c.pairOf|
  {
    LabelledRow(c, lo, pt) && c.pairOf[pt] == c.pairOf[lo]
  }

  /** The first `m` rows are there and labelled, each row of a segment of the segment's pair. */
  ghost predicate RowsOk(c: Converted, pairs: nat, m: nat) {
    && SameLength(c, m)
    && (forall k, pt :: 0 <= k < |c.segments| && c.segments[k].0 <= pt < c.segments[k].1 && pt < m ==>
          GoodRow(c, c.segments[k].0, pt))
    && (forall pt :: 0 <= pt < m ==> c.pairOf[pt] < pairs)
  }

  /** All segments are emitted up to row `n`, rows up to `m`, for the first `pairs` pairs. */
  ghost predicate RowsSoFar(c: Converted, pairs: nat, n: nat, m: nat) {
    m <= n && Partition(c.segments, n) && InBounds(c.segments, n) && RowsOk(c, pairs, m)
  }

  /** The inline event rules for one row; `prev` is the row before it in its episode, if any. */
  method RowEvents(pos: bool, prev: Option<bool>) returns (init: bool, initDc: bool, term: bool, termDc: bool)
    ensures var wasOff := prev.None? || !prev.value;
            && (init <==> pos && wasOff) && (initDc <==> pos && !wasOff)
            && (term <==> !pos && !wasOff) && (termDc <==> !pos && wasOff)
  {
    if prev.None? {
      if pos {
        init, initDc := true, false;
      } else {
        init, initDc := false, false;
      }
      term, termDc := false, !pos;
    } else {
      var prevPos := prev.value;
      if pos && !prevPos {
        init, initDc := true, false;
      } else if pos && prevPos {
        init, initDc := false, true;
      } else {
        init, initDc := false, false;
      }
      if !pos && prevPos {
        term, termDc := true, false;
      } else if !pos && !prevPos {
        term, termDc := false, true;
      } else {
        term, termDc := false, false;
      }
    }
  }

  function AppendRow(c: Converted, pairIdx: nat, t: int, pos: bool, init: bool, initDc: bool, term: bool,
                     termDc: bool): Converted {
    Converted(c.segments, c.pairOf + [pairIdx], c.time + [t], c.isPositive + [pos], c.initLabels + [init],
              c.initDontCare + [initDc], c.termLabels + [term], c.termDontCare + [termDc])
  }

  /** Emits row `i` of the episode whose segment, `k`, starts at `lo`. */
  method EmitRow(pairIdx: nat, c0: Converted, ghost pairs: nat, ghost n: nat, ghost k: nat, ghost lo: nat, i: nat,
                 t: int, pos: bool)
    returns (c: Converted)
    requires pairIdx < pairs && Partition(c0.segments, n) && k < |c0.segments|
    requires c0.segments[k].0 == lo && lo + i < c0.segments[k].1
    requires RowsOk(c0, pairs, lo + i) && (i > 0 ==> c0.pairOf[lo] == pairIdx)
    ensures c.segments == c0.segments && c.time == c0.time + [t] && c.isPositive == c0.isPositive + [pos]
    ensures c.pairOf == c0.pairOf + [pairIdx]
    ensures RowsOk(c, pairs, lo + i + 1)
  {
    var prev := if i == 0 then None else Some(c0.isPositive[|c0.isPositive| - 1]);
    var init, initDc, term, termDc := RowEvents(pos, prev);
    c := AppendRow(c0, pairIdx, t, pos, init, initDc, term, termDc);
    EmitStep(c0, pairs, n, k, i, pairIdx, t, pos, init, initDc, term, termDc);
  }

  lemma EmitStep(c: Converted, pairs: nat, n: nat, k: nat, i: nat, pairIdx: nat, t: int, pos: bool,
                 init: bool, initDc: bool, term: bool, termDc: bool)
    requires Partition(c.segments, n) && k < |c.segments| && c.segments[k].0 + i < c.segments[k].1
    requires RowsOk(c, pairs, c.segments[k].0 + i)
    requires pairIdx < pairs && (i > 0 ==> c.pairOf[c.segments[k].0] == pairIdx)
    requires var wasOff := i == 0 || !c.isPositive[c.segments[k].0 + i - 1];
             && (init <==> pos && wasOff) && (initDc <==> pos && !wasOff)
             && (term <==> !pos && !wasOff) && (termDc <==> !pos && wasOff)
    ensures RowsOk(AppendRow(c, pairIdx, t, pos, init, initDc, term, termDc), pairs, c.segments[k].0 + i + 1)
  {
    var d := AppendRow(c, pairIdx, t, pos, init, initDc, term, termDc);
    var m := c.segments[k].0 + i;
    forall j, pt | 0 <= j < |c.segments| && c.segments[j].0 <= pt < c.segments[j].1 && pt < m + 1
      ensures GoodRow(d, c.segments[j].0, pt)
    {
      if pt < m {
        assert GoodRow(c, c.segments[j].0, pt);
      } else {
        OneSegment(c.segments, n, j, k, m);
      }
    }
  }

  /** A row lies in one segment only. */
  lemma OneSegment(segments: seq<Span>, n: nat, j: nat, k: nat, pt: nat)
    requires Partition(segments, n) && j < |segments| && k < |segments|
    requires segments[j].0 <= pt < segments[j].1 && segments[k].0 <= pt < segments[k].1
    ensures j == k
  {
    if j < k {
      Ascending(segments, n, j, k);
    } else if k < j {
      Ascending(segments, n, k, j);
    }
  }

  lemma {:induction false} Ascending(segments: seq<Span>, n: nat, j: nat, k: nat)
    requires Partition(segments, n) && j < k < |segments|
    ensures segments[j].1 <= segments[k].0
    decreases k - j
  {
    if j + 1 < k {
      Ascending(segments, n, j, k - 1);
    }
  }

  /** Emits the rows of one episode, whose segment `(lo, hi)` has already been emitted. */
  method EmitEpisode(pairIdx: nat, c0: Converted, ghost pairs: nat, ghost n: nat, ghost k: nat, ghost lo: nat,
                     ghost hi: nat, times: seq<int>, pos: seq<bool>)
    returns (c: Converted)
    requires pairIdx < pairs && |times| == |pos|
    requires Partition(c0.segments, n) && k < |c0.segments| && c0.segments[k] == (lo, hi) && hi == lo + |times|
    requires RowsOk(c0, pairs, lo)
    ensures c.segments == c0.segments && RowsOk(c, pairs, hi) && Columns(pairIdx, c0, times, pos, |times|, c)
  {
    c := c0;
    NoColumns(pairIdx, c0, times, pos);
    for i := 0 to |times|
      invariant c.segments == c0.segments && RowsOk(c, pairs, lo + i)
      invariant Columns(pairIdx, c0, times, pos, i, c)
    {
      ColumnsGrow(pairIdx, c0, times, pos, i, c);
      c := EmitRow(pairIdx, c, pairs, n, k, lo, i, times[i], pos[i]);
    }
  }

  lemma ColumnsGrow(pairIdx: nat, c0: Converted, times: seq<int>, pos: seq<bool>, i: nat, c: Converted)
    requires Columns(pairIdx, c0, times, pos, i, c) && i < |times|
    ensures c.pairOf + [pairIdx] == c0.pairOf + Repeat(pairIdx, i + 1)
    ensures c.time + [times[i]] == c0.time + times[..i + 1] && c.isPositive + [pos[i]] == c0.isPositive + pos[..i + 1]
  {
    RepeatAppend(c0.pairOf, pairIdx, i, 1);
    AppendNext(c0.time, times, i);
    AppendNext(c0.isPositive, pos, i);
  }

  /** `segments.append((base + lo, base + hi))` for every episode. */
  method EmitSegments(segments0: seq<Span>, eps: seq<Span>, base: nat) returns (segments: seq<Span>)
    ensures segments == segments0 + Shift(eps, base)
  {
    segments := segments0;
    assert Shift(eps[..0], base) == [];
    for k := 0 to |eps|
      invariant segments == segments0 + Shift(eps[..k], base)
    {
      assert Shift(eps[..k + 1], base) == Shift(eps[..k], base) + [(base + eps[k].0, base + eps[k].1)];
      segments := segments + [(base + eps[k].0, base + eps[k].1)];
    }
    assert eps[..|eps|] == eps;
  }

  lemma RowsStayOk(c0: Converted, c: Converted, pairs: nat, eps: seq<Span>)
    requires RowsOk(c0, pairs, |c0.pairOf|) && c == c0.(segments := c0.segments + Shift(eps, |c0.pairOf|))
    ensures RowsOk(c, pairs, |c0.pairOf|)
  {
    var base := |c0.pairOf|;
    forall k, pt | 0 <= k < |c.segments| && c.segments[k].0 <= pt < c.segments[k].1 && pt < base
      ensures GoodRow(c, c.segments[k].0, pt)
    {
      if k < |c0.segments| {
        assert c.segments[k] == c0.segments[k];
        assert GoodRow(c0, c0.segments[k].0, pt);
      } else {
        assert false;
      }
    }
  }

  lemma PartitionMore(segments: seq<Span>, base: nat, eps: seq<Span>, len: nat)
    requires Partition(segments, base) && InBounds(segments, base) && Partition(eps, len) && InBounds(eps, len)
    ensures var all := segments + Shift(eps, base); Partition(all, base + len) && InBounds(all, base + len)
  {
  }

  /** `c` adds the first `n` timepoints of a pair to `c0`. */
  ghost predicate Columns(pairIdx: nat, c0: Converted, times: seq<int>, pos: seq<bool>, n: nat, c: Converted) {
    && n <= |times| == |pos|
    && c.pairOf == c0.pairOf + Repeat(pairIdx, n) && c.time == c0.time + times[..n]
       && c.isPositive == c0.isPositive + pos[..n]
  }

  /** The rows of episode `e`, which are those from `lo` to `hi` of the pair. */
  method EmitNext(pairIdx: nat, ghost c0: Converted, ghost pairs: nat, ghost n: nat, ghost before: nat,
                  ghost eps: seq<Span>, ghost e: nat, lo: nat, hi: nat, times: seq<int>, pos: seq<bool>, c: Converted)
    returns (d: Converted)
    requires pairIdx < pairs && Columns(pairIdx, c0, times, pos, lo, c) && RowsOk(c, pairs, |c0.pairOf| + lo)
    requires Partition(c.segments, n) && SegmentsListed(c.segments, before, eps, |c0.pairOf|)
    requires e < |eps| && eps[e] == (lo, hi) && lo <= hi <= |times|
    ensures d.segments == c.segments && RowsOk(d, pairs, |c0.pairOf| + hi) && Columns(pairIdx, c0, times, pos, hi, d)
  {
    var rowTimes, rowPos := times[lo..hi], pos[lo..hi];
    ghost var base := |c0.pairOf|;
    ListedAt(c.segments, before, eps, base, e);
    d := EmitEpisode(pairIdx, c, pairs, n, before + e, base + lo, base + hi, rowTimes, rowPos);
    ColumnsNext(pairIdx, c0, times, pos, lo, hi, c, d);
  }

  /** The rows `lo..hi` of a pair come after those below `lo`. */
  lemma ColumnsNext(pairIdx: nat, c0: Converted, times: seq<int>, pos: seq<bool>, lo: nat, hi: nat, c: Converted,
                    d: Converted)
    requires Columns(pairIdx, c0, times, pos, lo, c) && lo <= hi <= |times|
    requires Columns(pairIdx, c, times[lo..hi], pos[lo..hi], hi - lo, d)
    ensures Columns(pairIdx, c0, times, pos, hi, d)
  {
    assert times[lo..hi][..hi - lo] == times[lo..hi] && pos[lo..hi][..hi - lo] == pos[lo..hi];
    RepeatAppend(c0.pairOf, pairIdx, lo, hi - lo);
    AppendSlice(c0.time, times, lo, hi);
    AppendSlice(c0.isPositive, pos, lo, hi);
  }

  /** An episode ends where the next one begins, the last one at the end. */
  lemma NextEpisode(eps: seq<Span>, len: nat, e: nat)
    requires Partition(eps, len) && InBounds(eps, len) && e < |eps|
    ensures eps[e].0 <= eps[e].1 <= len && eps[e].1 == if e + 1 < |eps| then eps[e + 1].0 else len
  {
  }

  /** From `before` on, the segments are the episodes moved by `base`. */
  predicate SegmentsListed(segments: seq<Span>, before: nat, eps: seq<Span>, base: nat)
    decreases |eps|
  {
    if |eps| == 0 then true
    else
      var last := |eps| - 1;
      && before + last < |segments| && segments[before + last] == (base + eps[last].0, base + eps[last].1)
      && SegmentsListed(segments, before, eps[..last], base)
  }

  lemma {:induction false} ListedAt(segments: seq<Span>, before: nat, eps: seq<Span>, base: nat, e: nat)
    requires SegmentsListed(segments, before, eps, base) && e < |eps|
    ensures before + e < |segments| && segments[before + e] == (base + eps[e].0, base + eps[e].1)
    decreases |eps|
  {
    if e < |eps| - 1 {
      ListedAt(segments, before, eps[..|eps| - 1], base, e);
    }
  }

  lemma {:induction false} ShiftedAreListed(segments: seq<Span>, eps: seq<Span>, base: nat, all: seq<Span>)
    requires segments + Shift(eps, base) <= all
    ensures SegmentsListed(all, |segments|, eps, base)
    decreases |eps|
  {
    if |eps| > 0 {
      var last := |eps| - 1;
      var grown := segments + Shift(eps, base);
      assert Shift(eps, base) == Shift(eps[..last], base) + [(base + eps[last].0, base + eps[last].1)];
      assert grown[|segments| + last] == (base + eps[last].0, base + eps[last].1);
      assert segments + Shift(eps[..last], base) <= grown;
      ShiftedAreListed(segments, eps[..last], base, all);
    }
  }

  /** The rows of one pair's episodes, whose segments have been emitted. */
  ghost predicate AwaitsRows(c: Converted, pairs: nat, before: nat, eps: seq<Span>, len: nat) {
    && Partition(c.segments, |c.pairOf| + len) && InBounds(c.segments, |c.pairOf| + len)
    && RowsOk(c, pairs, |c.pairOf|) && SegmentsListed(c.segments, before, eps, |c.pairOf|)
  }

  method EmitEpisodes(pairIdx: nat, c0: Converted, ghost pairs: nat, eps: seq<Span>, times: seq<int>, pos: seq<bool>,
                      ghost before: nat)
    returns (c: Converted)
    requires pairIdx < pairs && |times| == |pos| && Partition(eps, |times|) && InBounds(eps, |times|)
    requires AwaitsRows(c0, pairs, before, eps, |times|)
    ensures c.segments == c0.segments && RowsSoFar(c, pairs, |c0.pairOf| + |times|, |c0.pairOf| + |times|)
    ensures Columns(pairIdx, c0, times, pos, |times|, c)
  {
    c := c0;
    ghost var base, n, at := |c0.pairOf|, |c0.pairOf| + |times|, 0;
    NoColumns(pairIdx, c0, times, pos);
    for e := 0 to |eps|
      invariant at == if e < |eps| then eps[e].0 else |times|
      invariant c.segments == c0.segments && RowsOk(c, pairs, base + at) && Columns(pairIdx, c0, times, pos, at, c)
    {
      NextEpisode(eps, |times|, e);
      c := EmitNext(pairIdx, c0, pairs, n, before, eps, e, eps[e].0, eps[e].1, times, pos, c);
      at := eps[e].1;
    }
  }

  lemma NoColumns(pairIdx: nat, c: Converted, times: seq<int>, pos: seq<bool>)
    requires |times| == |pos|
    ensures Columns(pairIdx, c, times, pos, 0, c)
  {
    assert c.pairOf + Repeat(pairIdx, 0) == c.pairOf;
  }

  lemma RepeatAppend(a: seq<nat>, x: nat, m: nat, n: nat)
    ensures a + Repeat(x, m) + Repeat(x, n) == a + Repeat(x, m + n) && Repeat(x, 1) == [x]
  {
    RepeatAdds(x, m, n);
    Regroup(a, Repeat(x, m), Repeat(x, n));
  }

  lemma AppendNext<T>(a: seq<T>, s: seq<T>, i: nat)
    requires i < |s|
    ensures a + s[..i] + [s[i]] == a + s[..i + 1]
  {
  }

  lemma AppendSlice<T>(a: seq<T>, s: seq<T>, lo: nat, hi: nat)
    requires lo <= hi <= |s|
    ensures a + s[..lo] + s[lo..hi] == a + s[..hi]
  {
  }

  /** Coverage of every timepoint by the pair's merged rendezvous intervals. */
  method PositiveFlags(pair: PairData) returns (pos: seq<bool>)
    requires NonEmpty(pair.rendezvous)
    ensures pos == GoldFlags(pair)
  {
    var merged := MergeUnion(pair.rendezvous, []);
    pos := [];
    for i := 0 to |pair.times|
      invariant |pos| == i && forall j :: 0 <= j < i ==> (pos[j] <==> Covered(pair.rendezvous, pair.times[j]))
    {
      var here := Covers(merged, pair.times[i]);
      assert !Covered([], pair.times[i]);
      pos := pos + [here];
    }
  }

  /** `holdsAt(rendezVous)` at each timepoint of a pair. */
  ghost function GoldFlags(pair: PairData): (s: seq<bool>)
    ensures |s| == |pair.times| && forall j :: 0 <= j < |s| ==> (s[j] <==> Covered(pair.rendezvous, pair.times[j]))
  {
    seq(|pair.times|, j requires 0 <= j < |pair.times| => Covered(pair.rendezvous, pair.times[j]))
  }

  /** All pairs' timepoints, in pair order. */
  function AllTimes(pairs: seq<PairData>): seq<int> {
    if |pairs| == 0 then [] else AllTimes(pairs[..|pairs| - 1]) + pairs[|pairs| - 1].times
  }

  /** All pairs' gold flags, in pair order. */
  ghost function AllGold(pairs: seq<PairData>): seq<bool> {
    if |pairs| == 0 then [] else AllGold(pairs[..|pairs| - 1]) + GoldFlags(pairs[|pairs| - 1])
  }

  /** The pair of every row, in pair order. */
  function AllPairIndices(pairs: seq<PairData>): seq<nat> {
    if |pairs| == 0 then []
    else
      var p := |pairs| - 1;
      AllPairIndices(pairs[..p]) + Repeat(p, |pairs[p].times|)
  }

  /** Every pair's episodes, each moved to where the pair's rows begin. */
  function AllSegments(pairs: seq<PairData>): seq<Span> {
    if |pairs| == 0 then []
    else
      var p := |pairs| - 1;
      AllSegments(pairs[..p]) + Shift(EpisodesOf(pairs[p].times), |AllTimes(pairs[..p])|)
  }

  /** A pair's segments, then its rows. */
  method EmitRows(pairIdx: nat, c0: Converted, ghost pairs: nat, eps: seq<Span>, times: seq<int>, pos: seq<bool>)
    returns (c: Converted)
    requires pairIdx < pairs && |times| == |pos| && Partition(eps, |times|) && InBounds(eps, |times|)
    requires RowsSoFar(c0, pairs, |c0.pairOf|, |c0.pairOf|)
    ensures c.segments == c0.segments + Shift(eps, |c0.pairOf|) && Columns(pairIdx, c0, times, pos, |times|, c)
    ensures RowsSoFar(c, pairs, |c0.pairOf| + |times|, |c0.pairOf| + |times|)
  {
    var segments := EmitSegments(c0.segments, eps, |c0.pairOf|);
    var withSegments := c0.(segments := segments);
    SegmentsAdded(c0, pairs, eps, |times|, withSegments);
    c := EmitEpisodes(pairIdx, withSegments, pairs, eps, times, pos, |c0.segments|);
    SameColumns(pairIdx, c0, withSegments, times, pos, c);
  }

  lemma SegmentsAdded(c0: Converted, pairs: nat, eps: seq<Span>, len: nat, c: Converted)
    requires Partition(eps, len) && InBounds(eps, len) && RowsSoFar(c0, pairs, |c0.pairOf|, |c0.pairOf|)
    requires c == c0.(segments := c0.segments + Shift(eps, |c0.pairOf|))
    ensures AwaitsRows(c, pairs, |c0.segments|, eps, len)
  {
    SegmentsExtend(c0.segments, |c0.pairOf|, eps, len);
    RowsStayOk(c0, c, pairs, eps);
  }

  lemma SegmentsExtend(segments: seq<Span>, base: nat, eps: seq<Span>, len: nat)
    requires Partition(segments, base) && InBounds(segments, base) && Partition(eps, len) && InBounds(eps, len)
    ensures var all := segments + Shift(eps, base);
            Partition(all, base + len) && InBounds(all, base + len) && SegmentsListed(all, |segments|, eps, base)
  {
    var all := segments + Shift(eps, base);
    PartitionMore(segments, base, eps, len);
    ShiftedAreListed(segments, eps, base, all);
  }

  lemma SameColumns(pairIdx: nat, c0: Converted, c1: Converted, times: seq<int>, pos: seq<bool>, c: Converted)
    requires Columns(pairIdx, c1, times, pos, |times|, c)
    requires c1.pairOf == c0.pairOf && c1.time == c0.time && c1.isPositive == c0.isPositive
    ensures Columns(pairIdx, c0, times, pos, |times|, c)
  {
  }

  lemma AllColumns(pairIdx: nat, c0: Converted, times: seq<int>, pos: seq<bool>, c: Converted)
    requires Columns(pairIdx, c0, times, pos, |times|, c)
    ensures c.pairOf == c0.pairOf + Repeat(pairIdx, |times|) && |c.pairOf| == |c0.pairOf| + |times|
    ensures c.time == c0.time + times && c.isPositive == c0.isPositive + pos
  {
    assert times[..|times|] == times && pos[..|pos|] == pos;
  }

  /** One turn of the loop over pairs. */
  method EmitPair(pair: PairData, pairIdx: nat, c0: Converted, ghost pairs: nat) returns (c: Converted)
    requires pairIdx < pairs && NonEmpty(pair.rendezvous) && RowsSoFar(c0, pairs, |c0.pairOf|, |c0.pairOf|)
    ensures RowsSoFar(c, pairs, |c.pairOf|, |c.pairOf|)
    ensures c.time == c0.time + pair.times && c.isPositive == c0.isPositive + GoldFlags(pair)
    ensures c.pairOf == c0.pairOf + Repeat(pairIdx, |pair.times|)
    ensures c.segments == c0.segments + Shift(EpisodesOf(pair.times), |c0.time|)
  {
    var pos := PositiveFlags(pair);
    var eps := SplitEpisodes(pair.times);
    c := EmitRows(pairIdx, c0, pairs, eps, pair.times, pos);
    AllColumns(pairIdx, c0, pair.times, pos, c);
  }

  /** The pair loop of `convert`: segments, rows and inline event labels. */
  method Convert(pairs: seq<PairData>) returns (c: Converted)
    requires forall p :: 0 <= p < |pairs| ==> NonEmpty(pairs[p].rendezvous)
    ensures RowsSoFar(c, |pairs|, |c.pairOf|, |c.pairOf|)
    ensures ColumnsOf(c, pairs)
  {
    c := Converted([], [], [], [], [], [], [], []);
    for p := 0 to |pairs|
      invariant RowsSoFar(c, |pairs|, |c.pairOf|, |c.pairOf|)
      invariant ColumnsOf(c, pairs[..p])
    {
      OnePairMore(pairs, p);
      c := EmitPair(pairs[p], p, c, |pairs|);
    }
    assert pairs[..|pairs|] == pairs;
  }

  ghost predicate ColumnsOf(c: Converted, pairs: seq<PairData>) {
    && c.time == AllTimes(pairs) && c.isPositive == AllGold(pairs)
    && c.pairOf == AllPairIndices(pairs) && c.segments == AllSegments(pairs)
  }

  lemma OnePairMore(pairs: seq<PairData>, p: nat)
    requires p < |pairs|
    ensures var before, now := pairs[..p], pairs[..p + 1];
            && AllTimes(now) == AllTimes(before) + pairs[p].times
            && AllGold(now) == AllGold(before) + GoldFlags(pairs[p])
            && AllPairIndices(now) == AllPairIndices(before) + Repeat(p, |pairs[p].times|)
            && AllSegments(now) == AllSegments(before) + Shift(EpisodesOf(pairs[p].times), |AllTimes(before)|)
  {
    assert pairs[..p + 1][..p] == pairs[..p];
  }

  /** Whatever folds the pairs are later given, the converted rows are a valid corpus to cut. */
  lemma RowsMakeCorpus(c: Converted, foldOf: seq<nat>)
    requires RowsSoFar(c, |foldOf|, |c.pairOf|, |c.pairOf|)
    ensures Corpus(c.segments, c.pairOf, foldOf).Valid()
  {
    forall k, pt | 0 <= k < |c.segments| && c.segments[k].0 <= pt < c.segments[k].1
      ensures c.pairOf[pt] == c.pairOf[c.segments[k].0]
    {
      assert GoodRow(c, c.segments[k].0, pt);
    }
  }

  // ---------------------------------------------------------------- the labels are event targets

  /** The segment of every row. */
  function SegmentKeys(segments: seq<Span>): seq<nat>
    requires forall k :: 0 <= k < |segments| ==> segments[k].0 <= segments[k].1
  {
    if |segments| == 0 then [] else
      var k := |segments| - 1;
      SegmentKeys(segments[..k]) + seq(segments[k].1 - segments[k].0, _ => k)
  }

  lemma {:induction false} SegmentKeyAt(segments: seq<Span>, n: nat)
    requires Partition(segments, n)
    ensures |SegmentKeys(segments)| == n
    ensures forall k, pt :: 0 <= k < |segments| && segments[k].0 <= pt < segments[k].1 && pt < n ==>
              SegmentKeys(segments)[pt] == k
    ensures forall pt :: 0 <= pt < n ==> SegmentKeys(segments)[pt] < |segments|
  {
    if |segments| > 0 {
      var k := |segments| - 1;
      SegmentKeyAt(segments[..k], segments[k].0);
      forall j, pt | 0 <= j < |segments| && segments[j].0 <= pt < segments[j].1 && pt < n
        ensures SegmentKeys(segments)[pt] == j
      {
        if j < k {
          Ascending(segments, n, j, k);
          assert segments[..k][j] == segments[j];
        }
      }
    }
  }

  lemma {:induction false} SegmentOf(segments: seq<Span>, n: nat, pt: nat) returns (k: nat)
    requires Partition(segments, n) && pt < n
    ensures k < |segments| && segments[k].0 <= pt < segments[k].1
  {
    k := |segments| - 1;
    while pt < segments[k].0
      invariant 0 <= k < |segments| && pt < segments[k].1
    {
      k := k - 1;
    }
  }

  lemma PrevInSegment(segments: seq<Span>, n: nat, k: nat, pt: nat)
    requires Partition(segments, n) && k < |segments| && segments[k].0 <= pt < segments[k].1 && pt < n
    ensures |SegmentKeys(segments)| == n
    ensures Prev(SegmentKeys(segments), pt) == if pt == segments[k].0 then None else Some(pt - 1)
  {
    SegmentKeyAt(segments, n);
    var keys := SegmentKeys(segments);
    if pt == segments[k].0 {
      forall q: nat | q < pt
        ensures keys[q] != k
      {
        var j := SegmentOf(segments, n, q);
      }
    }
  }

  /** The inline labels and masks are the continuous timeline's, first-observed holding included. */
  lemma InlineLabelsAreEventTargets(c: Converted, pairs: nat, pt: nat)
    requires RowsSoFar(c, pairs, |c.pairOf|, |c.pairOf|) && pt < |c.pairOf|
    ensures |SegmentKeys(c.segments)| == |c.pairOf|
    ensures var keys := SegmentKeys(c.segments);
            && (c.initLabels[pt] <==> IsInit(keys, c.isPositive, true, pt))
            && (c.initDontCare[pt] <==> InitDontCare(keys, c.isPositive, true, pt))
            && (c.termLabels[pt] <==> IsTerm(keys, c.isPositive, pt))
            && (c.termDontCare[pt] <==> TermDontCare(keys, c.isPositive, pt))
  {
    var k := SegmentOf(c.segments, |c.pairOf|, pt);
    PrevInSegment(c.segments, |c.pairOf|, k, pt);
    assert GoodRow(c, c.segments[k].0, pt);
  }

  /** So predictions that agree with the inline labels off the inline masks restore `is_positive`. */
  lemma AgreementRestoresPositives(c: Converted, pairs: nat, init: seq<bool>, term: seq<bool>, pt: nat)
    requires RowsSoFar(c, pairs, |c.pairOf|, |c.pairOf|) && pt < |c.pairOf| == |init| == |term|
    requires forall q :: 0 <= q < |c.pairOf| && !c.initDontCare[q] ==> init[q] == c.initLabels[q]
    requires forall q :: 0 <= q < |c.pairOf| && !c.termDontCare[q] ==> term[q] == c.termLabels[q]
    ensures |SegmentKeys(c.segments)| == |c.pairOf|
    ensures HoldsAt(SegmentKeys(c.segments), init, term, pt) <==> c.isPositive[pt]
  {
    SegmentKeyAt(c.segments, |c.pairOf|);
    forall q | 0 <= q < |c.pairOf|
      ensures !InitDontCare(SegmentKeys(c.segments), c.isPositive, true, q) ==>
                (init[q] <==> IsInit(SegmentKeys(c.segments), c.isPositive, true, q))
      ensures !TermDontCare(SegmentKeys(c.segments), c.isPositive, q) ==>
                (term[q] <==> IsTerm(SegmentKeys(c.segments), c.isPositive, q))
    {
      InlineLabelsAreEventTargets(c, pairs, q);
    }
    UnmaskedAgreementRestoresGold(SegmentKeys(c.segments), c.isPositive, init, term, pt);
  }
}
