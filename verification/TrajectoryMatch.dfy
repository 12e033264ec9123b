/** Matching a tracked person to trajectories by exact points: audit_dump_vs_xml.py. */
module TrajectoryMatch {
  import opened Lists

  /*
   An inverted index, votes, and peeling round by round.
   */

  const FRAME_MS: int := 40

  type Spot = (int, int)

  /** One person's frame in one video. */
  datatype Mark = Mark(video: nat, pid: string, frame: int)

  /** A hypothesis: the person is this one of that video, at a constant time offset. */
  datatype Hypothesis = Hypothesis(video: nat, pid: string, offset: int)

  datatype Point = Point(t: int, xy: Spot)

  /** The coordinates of a video in the order of its dictionary: person, time, spot. */
  datatype Video = Video(frameMs: int, timeOffset: int, coords: seq<(string, int, Spot)>)

  type Entry = (Mark, Spot)

  type Trajectories = map<(nat, string), map<int, Spot>>

  type Index = map<Spot, seq<Mark>>

  // ---------------------------------------------------------------- trajectories and the inverted index

  function EntryOf(video: nat, c: (string, int, Spot)): Entry {
    (Mark(video, c.0, c.1 / FRAME_MS), c.2)
  }

  function VideoEntries(video: nat, coords: seq<(string, int, Spot)>): seq<Entry> {
    if |coords| == 0 then []
    else
      var last := |coords| - 1;
      VideoEntries(video, coords[..last]) + [EntryOf(video, coords[last])]
  }

  /** All observations, in the order in which they are entered. */
  function Entries(videos: seq<Video>): seq<Entry> {
    if |videos| == 0 then []
    else
      var last := |videos| - 1;
      Entries(videos[..last]) + VideoEntries(last, videos[last].coords)
  }

  function SpotAt(traj: Trajectories, m: Mark): Option<Spot> {
    if (m.video, m.pid) in traj && m.frame in traj[(m.video, m.pid)] then Some(traj[(m.video, m.pid)][m.frame])
    else None
  }

  function Listed(index: Index, xy: Spot): seq<Mark> {
    if xy in index then index[xy] else []
  }

  /** The spot entered last under a mark. */
  function LastSpot(entries: seq<Entry>, m: Mark): Option<Spot> {
    if |entries| == 0 then None
    else
      var last := |entries| - 1;
      if entries[last].0 == m then Some(entries[last].1) else LastSpot(entries[..last], m)
  }

  /** The marks entered at a spot, in order. */
  function MarksAt(entries: seq<Entry>, xy: Spot): seq<Mark> {
    if |entries| == 0 then []
    else
      var last := |entries| - 1;
      MarksAt(entries[..last], xy) + if entries[last].1 == xy then [entries[last].0] else []
  }

  /** The two tables hold the last spot of every mark, and every mark of each spot. */
  ghost predicate Describes(entries: seq<Entry>, traj: Trajectories, index: Index) {
    && (forall m :: SpotAt(traj, m) == LastSpot(entries, m))
    && forall xy :: Listed(index, xy) == MarksAt(entries, xy)
  }

  function Enter(traj: Trajectories, e: Entry): Trajectories {
    var key := (e.0.video, e.0.pid);
    traj[key := (if key in traj then traj[key] else map[])[e.0.frame := e.1]]
  }

  lemma DescribesMore(entries: seq<Entry>, traj: Trajectories, index: Index, e: Entry)
    requires Describes(entries, traj, index)
    ensures Describes(entries + [e], Enter(traj, e), index[e.1 := Listed(index, e.1) + [e.0]])
  {
    var all := entries + [e];
    assert all[..|all| - 1] == entries;
    forall m
      ensures SpotAt(Enter(traj, e), m) == LastSpot(all, m)
    {
      assert SpotAt(traj, m) == LastSpot(entries, m);
    }
    forall xy
      ensures Listed(index[e.1 := Listed(index, e.1) + [e.0]], xy) == MarksAt(all, xy)
    {
      assert Listed(index, xy) == MarksAt(entries, xy);
    }
  }

  /** The coordinates of one video, entered one by one. */
  method EnterVideo(ghost before: seq<Entry>, v: nat, coords: seq<(string, int, Spot)>, traj0: Trajectories,
                    index0: Index)
    returns (traj: Trajectories, index: Index)
    requires Describes(before, traj0, index0)
    ensures Describes(before + VideoEntries(v, coords), traj, index)
  {
    traj, index := traj0, index0;
    assert before + VideoEntries(v, coords[..0]) == before;
    for i := 0 to |coords|
      invariant Describes(before + VideoEntries(v, coords[..i]), traj, index)
    {
      assert coords[..i + 1][..i] == coords[..i];
      var e := EntryOf(v, coords[i]);
      DescribesMore(before + VideoEntries(v, coords[..i]), traj, index, e);
      Regroup(before, VideoEntries(v, coords[..i]), [e]);
      traj, index := Enter(traj, e), index[e.1 := Listed(index, e.1) + [e.0]];
    }
    assert coords[..|coords|] == coords;
  }

  /** The frame grid that the vote arithmetic relies on. */
  predicate OnFrameGrid(v: Video) {
    v.frameMs == FRAME_MS && v.timeOffset == 0
  }

  /** `build_xml_xy_index`. */
  method BuildIndex(videos: seq<Video>) returns (r: Result<(Trajectories, Index)>)
    ensures r.Ok? <==> forall v :: v in videos ==> OnFrameGrid(v)
    ensures r.Ok? ==> Describes(Entries(videos), r.value.0, r.value.1)
  {
    var traj: Trajectories, index: Index := map[], map[];
    for v := 0 to |videos|
      invariant forall u :: 0 <= u < v ==> OnFrameGrid(videos[u])
      invariant Describes(Entries(videos[..v]), traj, index)
    {
      assert videos[..v + 1][..v] == videos[..v];
      if videos[v].frameMs != FRAME_MS || videos[v].timeOffset != 0 {
        assert videos[v] in videos;
        return Err("unexpected time base");
      }
      traj, index := EnterVideo(Entries(videos[..v]), v, videos[v].coords, traj, index);
    }
    assert videos[..|videos|] == videos;
    r := Ok((traj, index));
  }

  // ---------------------------------------------------------------- votes and agreements

  /** The hypothesis that a mark votes for when the dump shows its spot at time `t`. */
  function VoteOf(m: Mark, t: int): Hypothesis {
    Hypothesis(m.video, m.pid, t - m.frame * FRAME_MS)
  }

  function Backs(h: Hypothesis, t: int): Mark -> bool {
    (m: Mark) => VoteOf(m, t) == h
  }

  function VotesFrom(index: Index, h: Hypothesis): Point -> int {
    (p: Point) => Count(Listed(index, p.xy), Backs(h, p.t))
  }

  /** How many votes the points give a hypothesis. */
  function Votes(points: seq<Point>, index: Index, h: Hypothesis): int {
    SumBy(points, VotesFrom(index, h))
  }

  /** The per-point check against the trajectory. */
  function Agrees(traj: Trajectories, h: Hypothesis): Point -> bool {
    (p: Point) => (p.t - h.offset) % FRAME_MS == 0
                  && SpotAt(traj, Mark(h.video, h.pid, (p.t - h.offset) / FRAME_MS)) == Some(p.xy)
  }

  function Agreements(points: seq<Point>, traj: Trajectories, h: Hypothesis): int {
    Count(points, Agrees(traj, h))
  }

  function Is(e: Entry): Entry -> bool {
    (x: Entry) => x == e
  }

  /** The only mark that can vote for `h` at time `t`. */
  function MarkFor(h: Hypothesis, t: int): Mark {
    Mark(h.video, h.pid, (t - h.offset) / FRAME_MS)
  }

  /** A point's votes for a hypothesis are the entries of one mark at the point's spot. */
  lemma {:induction false} VotesAreEntries(entries: seq<Entry>, h: Hypothesis, p: Point)
    ensures Count(MarksAt(entries, p.xy), Backs(h, p.t))
            == if (p.t - h.offset) % FRAME_MS == 0 then Count(entries, Is((MarkFor(h, p.t), p.xy))) else 0
    decreases |entries|
  {
    if |entries| > 0 {
      var last := |entries| - 1;
      var e, same := entries[last], Is((MarkFor(h, p.t), p.xy));
      VotesAreEntries(entries[..last], h, p);
      assert entries == entries[..last] + [e];
      SumByAppend(entries[..last], e, Indicator(same));
      BacksIff(e.0, h, p.t);
      assert same(e) == (e.0 == MarkFor(h, p.t) && e.1 == p.xy);
      var marks := MarksAt(entries[..last], p.xy);
      if e.1 == p.xy {
        assert MarksAt(entries, p.xy) == marks + [e.0];
        SumByAppend(marks, e.0, Indicator(Backs(h, p.t)));
      } else {
        assert MarksAt(entries, p.xy) == marks;
      }
    }
  }

  lemma BacksIff(m: Mark, h: Hypothesis, t: int)
    ensures Backs(h, t)(m) <==> (t - h.offset) % FRAME_MS == 0 && m == MarkFor(h, t)
  {
    var d := t - h.offset;
    if Backs(h, t)(m) {
      assert d == m.frame * FRAME_MS;
    }
    if d % FRAME_MS == 0 {
      assert d == d / FRAME_MS * FRAME_MS;
    }
  }

  /** No two observations of one person of one video fall into the same frame. */
  ghost predicate OnePerFrame(entries: seq<Entry>) {
    forall i, j :: 0 <= i < j < |entries| ==> entries[i].0 != entries[j].0
  }

  lemma {:induction false} LastSpotOf(entries: seq<Entry>, m: Mark)
    ensures LastSpot(entries, m).Some? <==> exists i :: 0 <= i < |entries| && entries[i].0 == m
    ensures LastSpot(entries, m).Some? ==> (m, LastSpot(entries, m).value) in entries
    decreases |entries|
  {
    if |entries| > 0 {
      var last := |entries| - 1;
      LastSpotOf(entries[..last], m);
      assert entries == entries[..last] + [entries[last]];
      if entries[last].0 != m && LastSpot(entries[..last], m).Some? {
        var i :| 0 <= i < last && entries[..last][i].0 == m;
        assert entries[i].0 == m;
      }
    }
  }

  /** With one observation per frame, an entry occurs exactly as often as the trajectory says. */
  lemma {:induction false} EntryCount(entries: seq<Entry>, m: Mark, xy: Spot)
    requires OnePerFrame(entries)
    ensures Count(entries, Is((m, xy))) == if LastSpot(entries, m) == Some(xy) then 1 else 0
    decreases |entries|
  {
    if |entries| > 0 {
      var last := |entries| - 1;
      EntryCount(entries[..last], m, xy);
      LastSpotOf(entries[..last], m);
      assert entries == entries[..last] + [entries[last]];
      SumByAppend(entries[..last], entries[last], Indicator(Is((m, xy))));
      if entries[last].0 == m {
        assert LastSpot(entries[..last], m).None?;
      }
    }
  }

  lemma PointVotes(entries: seq<Entry>, traj: Trajectories, index: Index, h: Hypothesis, p: Point)
    requires Describes(entries, traj, index) && OnePerFrame(entries)
    ensures VotesFrom(index, h)(p) == if Agrees(traj, h)(p) then 1 else 0
  {
    VotesAreEntries(entries, h, p);
    EntryCount(entries, MarkFor(h, p.t), p.xy);
    assert Listed(index, p.xy) == MarksAt(entries, p.xy);
    assert SpotAt(traj, MarkFor(h, p.t)) == LastSpot(entries, MarkFor(h, p.t));
  }

  lemma VotesAreAgreements(entries: seq<Entry>, traj: Trajectories, index: Index, points: seq<Point>, h: Hypothesis)
    requires Describes(entries, traj, index) && OnePerFrame(entries)
    ensures Votes(points, index, h) == Agreements(points, traj, h)
  {
    forall p | p in points
      ensures VotesFrom(index, h)(p) == Indicator(Agrees(traj, h))(p)
    {
      PointVotes(entries, traj, index, h, p);
    }
    SumByEqual(points, VotesFrom(index, h), Indicator(Agrees(traj, h)));
  }

  /** At time 0, the hypothesis that puts the point at the frame of a mark. */
  function AtMark(m: Mark): Hypothesis {
    Hypothesis(m.video, m.pid, 0 - m.frame * FRAME_MS)
  }

  lemma AtMarkIsMark(m: Mark)
    ensures MarkFor(AtMark(m), 0) == m && (0 - AtMark(m).offset) % FRAME_MS == 0
  {
  }

  /** A single point at time 0 gives a hypothesis another number of votes than agreements. */
  ghost predicate Miscounted(traj: Trajectories, index: Index, h: Hypothesis, xy: Spot) {
    Votes([Point(0, xy)], index, h) != Agreements([Point(0, xy)], traj, h)
  }

  /** Two observations in one frame make votes and agreements differ, for a single point already. */
  lemma TwoInAFrameMiscount(entries: seq<Entry>, traj: Trajectories, index: Index, i: nat, j: nat)
    requires Describes(entries, traj, index) && i < j < |entries| && entries[i].0 == entries[j].0
    ensures exists xy: Spot :: Miscounted(traj, index, AtMark(entries[i].0), xy)
  {
    var m := entries[i].0;
    TwoEntriesCount(entries, m, i, j);
    if LastSpot(entries, m) != Some(entries[i].1) || entries[i].1 == entries[j].1 {
      WrongCount(entries, traj, index, m, entries[i].1);
    } else {
      WrongCount(entries, traj, index, m, entries[j].1);
    }
  }

  lemma WrongCount(entries: seq<Entry>, traj: Trajectories, index: Index, m: Mark, xy: Spot)
    requires Describes(entries, traj, index)
    requires Count(entries, Is((m, xy))) != if LastSpot(entries, m) == Some(xy) then 1 else 0
    ensures Miscounted(traj, index, AtMark(m), xy)
  {
    AtMarkIsMark(m);
    OnePointVotes(entries, traj, index, AtMark(m), Point(0, xy));
  }

  lemma TwoEntriesCount(entries: seq<Entry>, m: Mark, i: nat, j: nat)
    requires i < j < |entries| && entries[i].0 == entries[j].0 == m
    ensures Count(entries, Is((m, entries[i].1))) >= 1 && Count(entries, Is((m, entries[j].1))) >= 1
    ensures entries[i].1 == entries[j].1 ==> Count(entries, Is((m, entries[i].1))) >= 2
  {
    assert entries[i] == (m, entries[i].1) && entries[j] == (m, entries[j].1);
    CountTwo(entries, Is((m, entries[i].1)), i, j);
    CountTwo(entries, Is((m, entries[j].1)), j, j);
  }

  lemma OnePointVotes(entries: seq<Entry>, traj: Trajectories, index: Index, h: Hypothesis, p: Point)
    requires Describes(entries, traj, index) && (p.t - h.offset) % FRAME_MS == 0
    ensures Votes([p], index, h) == Count(entries, Is((MarkFor(h, p.t), p.xy)))
    ensures Agreements([p], traj, h) == if LastSpot(entries, MarkFor(h, p.t)) == Some(p.xy) then 1 else 0
  {
    VotesAreEntries(entries, h, p);
    assert Listed(index, p.xy) == MarksAt(entries, p.xy);
    assert SpotAt(traj, MarkFor(h, p.t)) == LastSpot(entries, MarkFor(h, p.t));
    SingleSum(p, VotesFrom(index, h));
    SingleSum(p, Indicator(Agrees(traj, h)));
    assert Agrees(traj, h)(p) == (SpotAt(traj, MarkFor(h, p.t)) == Some(p.xy));
  }

  lemma SingleSum<T>(x: T, f: T -> int)
    ensures SumBy([x], f) == f(x)
  {
    assert [x][1..] == [];
  }

  /** Votes equal exact agreements, for all points and hypotheses, if and only if no frame is observed twice. */
  lemma VotesAreAgreementsIff(entries: seq<Entry>, traj: Trajectories, index: Index)
    requires Describes(entries, traj, index)
    ensures (forall points: seq<Point>, h: Hypothesis :: Votes(points, index, h) == Agreements(points, traj, h))
            <==> OnePerFrame(entries)
  {
    if OnePerFrame(entries) {
      forall points: seq<Point>, h: Hypothesis
        ensures Votes(points, index, h) == Agreements(points, traj, h)
      {
        VotesAreAgreements(entries, traj, index, points, h);
      }
    } else {
      var i: nat, j: nat :| i < j < |entries| && entries[i].0 == entries[j].0;
      TwoInAFrameMiscount(entries, traj, index, i, j);
      var xy: Spot :| Miscounted(traj, index, AtMark(entries[i].0), xy);
    }
  }

  /** A video as its dictionary guarantees it, with every time on the 40 ms grid. */
  ghost predicate OnGrid(v: Video) {
    && (forall i :: 0 <= i < |v.coords| ==> v.coords[i].1 % FRAME_MS == 0)
    && forall i, j :: 0 <= i < j < |v.coords| ==> (v.coords[i].0, v.coords[i].1) != (v.coords[j].0, v.coords[j].1)
  }

  lemma {:induction false} VideoEntriesAt(video: nat, coords: seq<(string, int, Spot)>)
    ensures |VideoEntries(video, coords)| == |coords|
    ensures forall i :: 0 <= i < |coords| ==> VideoEntries(video, coords)[i] == EntryOf(video, coords[i])
  {
    if |coords| > 0 {
      VideoEntriesAt(video, coords[..|coords| - 1]);
    }
  }

  /** On the grid, votes are agreements. */
  lemma {:induction false} GridHasOnePerFrame(videos: seq<Video>)
    requires forall v :: v in videos ==> OnGrid(v)
    ensures OnePerFrame(Entries(videos))
    ensures forall i :: 0 <= i < |Entries(videos)| ==> Entries(videos)[i].0.video < |videos|
    decreases |videos|
  {
    if |videos| > 0 {
      var last := |videos| - 1;
      var coords := videos[last].coords;
      assert videos[last] in videos;
      GridHasOnePerFrame(videos[..last]);
      VideoEntriesAt(last, coords);
      VideoHasOnePerFrame(last, videos[last]);
    }
  }

  lemma VideoHasOnePerFrame(video: nat, v: Video)
    requires OnGrid(v)
    ensures OnePerFrame(VideoEntries(video, v.coords))
  {
    var coords := v.coords;
    VideoEntriesAt(video, coords);
    forall i, j | 0 <= i < j < |coords|
      ensures VideoEntries(video, coords)[i].0 != VideoEntries(video, coords)[j].0
    {
      assert coords[i].1 == coords[i].1 / FRAME_MS * FRAME_MS && coords[j].1 == coords[j].1 / FRAME_MS * FRAME_MS;
    }
  }

  // ---------------------------------------------------------------- counting the votes

  function VoteCount(votes: map<Hypothesis, int>, h: Hypothesis): int {
    if h in votes then votes[h] else 0
  }

  /** The counter agrees with `n` and lists the hypotheses that have a vote. */
  ghost predicate Counted(votes: map<Hypothesis, int>, order: seq<Hypothesis>, n: Hypothesis -> int) {
    && (forall h: Hypothesis :: VoteCount(votes, h) == n(h))
    && (forall h :: h in votes ==> votes[h] > 0)
    && (forall h :: h in votes <==> h in order)
  }

  function VotesOf(points: seq<Point>, index: Index): Hypothesis -> int {
    (h: Hypothesis) => Votes(points, index, h)
  }

  function VotesAnd(points: seq<Point>, index: Index, marks: seq<Mark>, t: int): Hypothesis -> int {
    (h: Hypothesis) => Votes(points, index, h) + Count(marks, Backs(h, t))
  }

  function Voted(votes: map<Hypothesis, int>, h: Hypothesis): map<Hypothesis, int> {
    votes[h := VoteCount(votes, h) + 1]
  }

  lemma OneVoteMore(points: seq<Point>, index: Index, marks: seq<Mark>, t: int, m: Mark, votes: map<Hypothesis, int>,
                    order: seq<Hypothesis>)
    requires Counted(votes, order, VotesAnd(points, index, marks, t))
    ensures var h := VoteOf(m, t);
            Counted(Voted(votes, h), if h in votes then order else order + [h], VotesAnd(points, index, marks + [m], t))
  {
    forall g: Hypothesis
      ensures VoteCount(Voted(votes, VoteOf(m, t)), g) == VotesAnd(points, index, marks + [m], t)(g)
    {
      assert VoteCount(votes, g) == VotesAnd(points, index, marks, t)(g);
      SumByAppend(marks, m, Indicator(Backs(g, t)));
    }
  }

  /** The votes of one point. */
  method CountPoint(ghost before: seq<Point>, index: Index, p: Point, votes0: map<Hypothesis, int>,
                    order0: seq<Hypothesis>)
    returns (votes: map<Hypothesis, int>, order: seq<Hypothesis>)
    requires Counted(votes0, order0, VotesOf(before, index))
    ensures Counted(votes, order, VotesAnd(before, index, Listed(index, p.xy), p.t))
  {
    votes, order := votes0, order0;
    var marks := Listed(index, p.xy);
    for j := 0 to |marks|
      invariant Counted(votes, order, VotesAnd(before, index, marks[..j], p.t))
    {
      OneVoteMore(before, index, marks[..j], p.t, marks[j], votes, order);
      assert marks[..j + 1] == marks[..j] + [marks[j]];
      var h := VoteOf(marks[j], p.t);
      order := if h in votes then order else order + [h];
      votes := Voted(votes, h);
    }
    assert marks[..|marks|] == marks;
  }

  /** The voting loop over the remaining points. */
  method CountVotes(points: seq<Point>, index: Index) returns (votes: map<Hypothesis, int>, order: seq<Hypothesis>)
    ensures Counted(votes, order, VotesOf(points, index))
  {
    votes, order := map[], [];
    for i := 0 to |points|
      invariant Counted(votes, order, VotesOf(points[..i], index))
    {
      votes, order := CountPoint(points[..i], index, points[i], votes, order);
      PointCounted(points, index, i);
    }
    assert points[..|points|] == points;
  }

  lemma PointCounted(points: seq<Point>, index: Index, i: nat)
    requires i < |points|
    ensures forall h: Hypothesis :: VotesOf(points[..i + 1], index)(h)
                                    == VotesAnd(points[..i], index, Listed(index, points[i].xy), points[i].t)(h)
  {
    assert points[..i + 1] == points[..i] + [points[i]];
    forall h: Hypothesis
      ensures VotesOf(points[..i + 1], index)(h)
              == VotesAnd(points[..i], index, Listed(index, points[i].xy), points[i].t)(h)
    {
      SumByAppend(points[..i], points[i], VotesFrom(index, h));
    }
  }

  /** `most_common(1)`: the first hypothesis in counting order with the most votes. */
  method MostCommon(votes: map<Hypothesis, int>, order: seq<Hypothesis>) returns (best: Hypothesis)
    requires |order| > 0 && forall h :: h in votes <==> h in order
    ensures best in votes && forall h :: h in votes ==> votes[h] <= votes[best]
  {
    best := order[0];
    for i := 1 to |order|
      invariant best in votes && forall k :: 0 <= k < i ==> votes[order[k]] <= votes[best]
    {
      assert order[i] in order;
      if votes[order[i]] > votes[best] {
        best := order[i];
      }
    }
  }

  // ---------------------------------------------------------------- peeling

  datatype Match = Match(hypothesis: Hypothesis, ts: set<int>)

  function Times(points: seq<Point>): set<int> {
    set p | p in points :: p.t
  }

  function Disagrees(traj: Trajectories, h: Hypothesis): Point -> bool {
    (p: Point) => !Agrees(traj, h)(p)
  }

  /** What earlier matches leave: the points that none of their hypotheses explains. */
  function Remaining(points: seq<Point>, traj: Trajectories, matches: seq<Match>): seq<Point> {
    if |matches| == 0 then points
    else
      var last := |matches| - 1;
      Filter(Remaining(points, traj, matches[..last]), Disagrees(traj, matches[last].hypothesis))
  }

  ghost predicate MostVoted(h: Hypothesis, rest: seq<Point>, index: Index) {
    forall g: Hypothesis :: Votes(rest, index, g) <= Votes(rest, index, h)
  }

  /** One accepted hypothesis: most votes over the remaining points, enough of them, and what it explains. */
  ghost predicate Accepted(m: Match, rest: seq<Point>, traj: Trajectories, index: Index, minPoints: int) {
    && MostVoted(m.hypothesis, rest, index)
    && Votes(rest, index, m.hypothesis) >= minPoints
    && m.ts == Times(Filter(rest, Agrees(traj, m.hypothesis)))
    && |m.ts| >= minPoints
  }

  ghost predicate AllAccepted(points: seq<Point>, traj: Trajectories, index: Index, minPoints: int,
                              matches: seq<Match>) {
    forall k :: 0 <= k < |matches| ==>
      Accepted(matches[k], Remaining(points, traj, matches[..k]), traj, index, minPoints)
  }

  /** Why the rounds end: their number is used up, nothing is voted for, or the winner has too little. */
  ghost predicate Halted(points: seq<Point>, traj: Trajectories, index: Index, minPoints: int, maxRounds: nat,
                         matches: seq<Match>) {
    |matches| == maxRounds || NothingMore(Remaining(points, traj, matches), traj, index, minPoints)
  }

  /** Nothing is voted for, or a most voted hypothesis has too little. */
  ghost predicate NothingMore(rest: seq<Point>, traj: Trajectories, index: Index, minPoints: int) {
    || (forall g: Hypothesis :: Votes(rest, index, g) <= 0)
    || exists h: Hypothesis :: MostVoted(h, rest, index) && TooLittle(h, rest, traj, index, minPoints)
  }

  /** Too few votes for the hypothesis, or too few points that it explains. */
  predicate TooLittle(h: Hypothesis, rest: seq<Point>, traj: Trajectories, index: Index, minPoints: int) {
    Votes(rest, index, h) < minPoints || |Times(Filter(rest, Agrees(traj, h)))| < minPoints
  }

  lemma RemainingMore(points: seq<Point>, traj: Trajectories, matches: seq<Match>, m: Match)
    ensures Remaining(points, traj, matches + [m])
            == Filter(Remaining(points, traj, matches), Disagrees(traj, m.hypothesis))
  {
    assert (matches + [m])[..|matches|] == matches;
  }

  lemma AcceptedMore(points: seq<Point>, traj: Trajectories, index: Index, minPoints: int, matches: seq<Match>,
                     m: Match)
    requires AllAccepted(points, traj, index, minPoints, matches)
    requires Accepted(m, Remaining(points, traj, matches), traj, index, minPoints)
    ensures AllAccepted(points, traj, index, minPoints, matches + [m])
  {
    var all := matches + [m];
    forall k | 0 <= k < |all|
      ensures Accepted(all[k], Remaining(points, traj, all[..k]), traj, index, minPoints)
    {
      assert all[..k] == matches[..k];
      if k == |matches| {
        assert matches[..k] == matches;
      } else {
        assert all[k] == matches[k];
      }
    }
  }

  /** The best hypothesis of a round, if there is a vote at all. */
  method PickHypothesis(rest: seq<Point>, index: Index) returns (r: Option<(Hypothesis, int)>)
    ensures r.None? ==> forall g: Hypothesis :: Votes(rest, index, g) <= 0
    ensures r.Some? ==> MostVoted(r.value.0, rest, index) && r.value.1 == Votes(rest, index, r.value.0)
  {
    var votes, order := CountVotes(rest, index);
    assert forall h: Hypothesis :: VoteCount(votes, h) == VotesOf(rest, index)(h) == Votes(rest, index, h);
    if |order| == 0 {
      return None;
    }
    var h := MostCommon(votes, order);
    r := Some((h, votes[h]));
  }

  /** The points of one round that the hypothesis explains, and the others. */
  method Explain(rest: seq<Point>, traj: Trajectories, h: Hypothesis) returns (ts: set<int>, left: seq<Point>)
    ensures ts == Times(Filter(rest, Agrees(traj, h)))
    ensures left == Filter(rest, Disagrees(traj, h))
  {
    ts, left := {}, [];
    ghost var agreed: seq<Point> := [];
    for i := 0 to |rest|
      invariant agreed == Filter(rest[..i], Agrees(traj, h)) && ts == Times(agreed)
      invariant left == Filter(rest[..i], Disagrees(traj, h))
    {
      FilterStep(rest, i, Agrees(traj, h));
      FilterStep(rest, i, Disagrees(traj, h));
      assert Agrees(traj, h)(rest[i]) != Disagrees(traj, h)(rest[i]);
      var rem := rest[i].t - h.offset;
      if rem % FRAME_MS == 0 && SpotAt(traj, Mark(h.video, h.pid, rem / FRAME_MS)) == Some(rest[i].xy) {
        ts := ts + {rest[i].t};
        agreed := agreed + [rest[i]];
      } else {
        left := left + [rest[i]];
      }
    }
    assert rest[..|rest|] == rest;
  }

  /** One round: the accepted hypothesis and what it leaves, if there is one. */
  method OneRound(rest: seq<Point>, traj: Trajectories, index: Index, minPoints: int)
    returns (r: Option<Match>, left: seq<Point>)
    ensures r.None? ==> NothingMore(rest, traj, index, minPoints)
    ensures r.Some? ==> Accepted(r.value, rest, traj, index, minPoints)
    ensures r.Some? ==> left == Filter(rest, Disagrees(traj, r.value.hypothesis))
  {
    left := rest;
    if |rest| == 0 {
      assert forall g: Hypothesis :: Votes(rest, index, g) == 0;
      return None, rest;
    }
    var best := PickHypothesis(rest, index);
    if best.None? {
      return None, rest;
    }
    var (h, n) := best.value;
    if n < minPoints {
      assert TooLittle(h, rest, traj, index, minPoints);
      return None, rest;
    }
    var ts;
    ts, left := Explain(rest, traj, h);
    if |ts| < minPoints {
      assert TooLittle(h, rest, traj, index, minPoints);
      return None, left;
    }
    r := Some(Match(h, ts));
  }

  /** `_multi_match_person`. */
  method MultiMatchPerson(points: seq<Point>, traj: Trajectories, index: Index, minPoints: int, maxRounds: nat)
    returns (matches: seq<Match>)
    ensures |matches| <= maxRounds
    ensures AllAccepted(points, traj, index, minPoints, matches)
    ensures Halted(points, traj, index, minPoints, maxRounds, matches)
  {
    var remaining := points;
    matches := [];
    for round := 0 to maxRounds
      invariant |matches| == round
      invariant remaining == Remaining(points, traj, matches)
      invariant AllAccepted(points, traj, index, minPoints, matches)
    {
      var found, left := OneRound(remaining, traj, index, minPoints);
      if found.None? {
        return;
      }
      AcceptedMore(points, traj, index, minPoints, matches, found.value);
      RemainingMore(points, traj, matches, found.value);
      matches := matches + [found.value];
      remaining := left;
    }
  }

  // ---------------------------------------------------------------- what the matches are

  /** The dump's own dictionary has one point per time. */
  ghost predicate TimesDistinct(points: seq<Point>) {
    forall i, j :: 0 <= i < j < |points| ==> points[i].t != points[j].t
  }

  lemma {:induction false} RemainingShrinks(points: seq<Point>, traj: Trajectories, matches: seq<Match>, j: nat, k: nat)
    requires j <= k <= |matches|
    ensures forall p :: p in Remaining(points, traj, matches[..k]) ==> p in Remaining(points, traj, matches[..j])
    decreases k - j
  {
    if j < k {
      RemainingShrinks(points, traj, matches, j, k - 1);
      RemainingStep(points, traj, matches, k - 1);
    }
  }

  lemma RemainingStep(points: seq<Point>, traj: Trajectories, matches: seq<Match>, j: nat)
    requires j < |matches|
    ensures forall p :: p in Remaining(points, traj, matches[..j + 1])
                        <==> p in Remaining(points, traj, matches[..j]) && !Agrees(traj, matches[j].hypothesis)(p)
  {
    assert matches[..j + 1][..j] == matches[..j];
    FilterMembers(Remaining(points, traj, matches[..j]), Disagrees(traj, matches[j].hypothesis));
  }

  /** Accepted point sets are pairwise disjoint and hold times of the dump only. */
  lemma MatchesAreDisjoint(points: seq<Point>, traj: Trajectories, index: Index, minPoints: int, matches: seq<Match>)
    requires TimesDistinct(points) && AllAccepted(points, traj, index, minPoints, matches)
    ensures forall j, k :: 0 <= j < k < |matches| ==> matches[j].ts !! matches[k].ts
    ensures forall k :: 0 <= k < |matches| ==> matches[k].ts <= Times(points) && |matches[k].ts| >= minPoints
  {
    forall k | 0 <= k < |matches|
      ensures matches[k].ts <= Times(points) && |matches[k].ts| >= minPoints
    {
      MatchTimes(points, traj, index, minPoints, matches, k);
    }
    forall j, k | 0 <= j < k < |matches|
      ensures matches[j].ts !! matches[k].ts
    {
      MatchTimes(points, traj, index, minPoints, matches, j);
      MatchTimes(points, traj, index, minPoints, matches, k);
      RemainingStep(points, traj, matches, j);
      RemainingShrinks(points, traj, matches, j + 1, k);
    }
  }

  /** The hypothesis explains a point at that time. */
  ghost predicate ExplainsTime(rest: seq<Point>, traj: Trajectories, h: Hypothesis, t: int) {
    exists p :: p in rest && Agrees(traj, h)(p) && p.t == t
  }

  lemma MatchTimes(points: seq<Point>, traj: Trajectories, index: Index, minPoints: int, matches: seq<Match>, k: nat)
    requires AllAccepted(points, traj, index, minPoints, matches) && k < |matches|
    ensures |matches[k].ts| >= minPoints
    ensures forall t :: t in matches[k].ts
                        <==> ExplainsTime(Remaining(points, traj, matches[..k]), traj, matches[k].hypothesis, t)
    ensures forall p :: p in Remaining(points, traj, matches[..k]) ==> p in points
  {
    assert Accepted(matches[k], Remaining(points, traj, matches[..k]), traj, index, minPoints);
    FilterMembers(Remaining(points, traj, matches[..k]), Agrees(traj, matches[k].hypothesis));
    RemainingShrinks(points, traj, matches, 0, k);
  }

  lemma {:induction false} AgreementsAreTimes(points: seq<Point>, traj: Trajectories, h: Hypothesis)
    requires TimesDistinct(points)
    ensures |Times(Filter(points, Agrees(traj, h)))| == Agreements(points, traj, h)
    decreases |points|
  {
    if |points| > 0 {
      var last := |points| - 1;
      AgreementsAreTimes(points[..last], traj, h);
      assert points == points[..last] + [points[last]];
      SumByAppend(points[..last], points[last], Indicator(Agrees(traj, h)));
      var before := Filter(points[..last], Agrees(traj, h));
      FilterMembers(points[..last], Agrees(traj, h));
      if Agrees(traj, h)(points[last]) {
        assert Filter(points, Agrees(traj, h)) == before + [points[last]];
        assert Times(before + [points[last]]) == Times(before) + {points[last].t};
        assert points[last].t !in Times(before);
      } else {
        assert Filter(points, Agrees(traj, h)) == before;
      }
    }
  }

  lemma {:induction false} FilterKeepsTimesDistinct(points: seq<Point>, p: Point -> bool)
    requires TimesDistinct(points)
    ensures TimesDistinct(Filter(points, p))
    decreases |points|
  {
    if |points| > 0 {
      var last := |points| - 1;
      FilterKeepsTimesDistinct(points[..last], p);
      FilterMembers(points[..last], p);
      var before := Filter(points[..last], p);
      forall k | 0 <= k < |before|
        ensures before[k].t != points[last].t
      {
        assert before[k] in before;
        var i :| 0 <= i < last && points[..last][i] == before[k];
        assert points[i].t == before[k].t;
      }
      assert Filter(points, p) == if p(points[last]) then before + [points[last]] else before;
    }
  }

  lemma {:induction false} RemainingTimesDistinct(points: seq<Point>, traj: Trajectories, matches: seq<Match>)
    requires TimesDistinct(points)
    ensures TimesDistinct(Remaining(points, traj, matches))
    decreases |matches|
  {
    if |matches| > 0 {
      var last := |matches| - 1;
      RemainingTimesDistinct(points, traj, matches[..last]);
      FilterKeepsTimesDistinct(Remaining(points, traj, matches[..last]), Disagrees(traj, matches[last].hypothesis));
    }
  }

  /**
   With one observation per frame, each accepted hypothesis explains as many of the points still
   unexplained as any hypothesis does, and the size of its point set is that number.
   */
  lemma AcceptedIsBest(entries: seq<Entry>, points: seq<Point>, traj: Trajectories, index: Index, minPoints: int,
                       matches: seq<Match>, k: nat, g: Hypothesis)
    requires Describes(entries, traj, index) && OnePerFrame(entries)
    requires TimesDistinct(points)
    requires AllAccepted(points, traj, index, minPoints, matches) && k < |matches|
    ensures var rest := Remaining(points, traj, matches[..k]);
            Agreements(rest, traj, g) <= Agreements(rest, traj, matches[k].hypothesis) == |matches[k].ts|
  {
    var rest, h := Remaining(points, traj, matches[..k]), matches[k].hypothesis;
    assert Accepted(matches[k], rest, traj, index, minPoints);
    VotesAreAgreements(entries, traj, index, rest, g);
    VotesAreAgreements(entries, traj, index, rest, h);
    RemainingTimesDistinct(points, traj, matches[..k]);
    AgreementsAreTimes(rest, traj, h);
  }

  /** With one observation per frame, rounds end early only when no hypothesis explains enough of what is left. */
  lemma NothingLeftToAccept(entries: seq<Entry>, points: seq<Point>, traj: Trajectories, index: Index, minPoints: int,
                            maxRounds: nat, matches: seq<Match>, g: Hypothesis)
    requires Describes(entries, traj, index) && OnePerFrame(entries) && minPoints > 0
    requires TimesDistinct(points)
    requires Halted(points, traj, index, minPoints, maxRounds, matches) && |matches| < maxRounds
    ensures Agreements(Remaining(points, traj, matches), traj, g) < minPoints
  {
    var rest := Remaining(points, traj, matches);
    VotesAreAgreements(entries, traj, index, rest, g);
    if Votes(rest, index, g) > 0 {
      var h: Hypothesis :| MostVoted(h, rest, index) && TooLittle(h, rest, traj, index, minPoints);
      VotesAreAgreements(entries, traj, index, rest, h);
      RemainingTimesDistinct(points, traj, matches);
      AgreementsAreTimes(rest, traj, h);
    }
  }
}
