/** The pair-time rows of the continuous timeline: caviar_continuous.py. */
module PairRows {
  import opened Lists
  import opened EventCalculus

  /*
   The order the rows are generated in, the relations computed in one forward pass with per-pair
   memory, and the grouping of rows by segment and pair.
   */

  /** A tracked person, `id0`, `id1`, ... */
  datatype Person = Person(num: nat)

  /** A narrative activity; only the three named ones are ever tested for. */
  datatype Activity = Active | Inactive | Walking | OtherActivity(name: string)

  datatype Segment = Segment(
    timestamps: seq<int>,
    persons: seq<Person>,
    activity: map<(Person, int), Activity>,
    coords: map<(Person, int), (int, int)>,
    meeting: set<(Person, Person, int)>)

  datatype Row = Row(seg: nat, t: int, p1: Person, p2: Person)

  /** What a row's timeline is named by: its segment and its pair. */
  datatype Key = Key(seg: nat, p1: Person, p2: Person)

  function KeyOf(r: Row): Key {
    Key(r.seg, r.p1, r.p2)
  }

  function Keys(rows: seq<Row>): (ks: seq<Key>)
    ensures |ks| == |rows| && forall i :: 0 <= i < |ks| ==> ks[i] == KeyOf(rows[i])
  {
    seq(|rows|, i requires 0 <= i < |rows| => KeyOf(rows[i]))
  }

  // ---------------------------------------------------------------- row order

  function Present(seg: Segment, persons: seq<Person>, t: int): (r: seq<Person>)
    ensures forall p :: p in r ==> p in persons && (p, t) in seg.activity
  {
    if |persons| == 0 then []
    else (if (persons[0], t) in seg.activity then [persons[0]] else []) + Present(seg, persons[1..], t)
  }

  function PairsWith(first: Person, rest: seq<Person>, s: nat, t: int): (rows: seq<Row>)
    ensures |rows| == |rest| && forall i :: 0 <= i < |rows| ==> rows[i] == Row(s, t, first, rest[i])
  {
    seq(|rest|, i requires 0 <= i < |rest| => Row(s, t, first, rest[i]))
  }

  /** Every unordered pair of the persons present, in list order. */
  function PairsOf(present: seq<Person>, s: nat, t: int): (rows: seq<Row>)
    ensures forall r :: r in rows ==> r.seg == s && r.t == t && r.p1 in present && r.p2 in present
  {
    if |present| == 0 then []
    else
      var here := PairsWith(present[0], present[1..], s, t);
      assert forall r :: r in here ==> r.p2 in present[1..];
      here + PairsOf(present[1..], s, t)
  }

  function SegmentRows(seg: Segment, s: nat, ts: seq<int>): (rows: seq<Row>)
    ensures forall r :: r in rows ==>
              r.seg == s && r.t in ts && (r.p1, r.t) in seg.activity && (r.p2, r.t) in seg.activity
  {
    if |ts| == 0 then []
    else PairsOf(Present(seg, seg.persons, ts[0]), s, ts[0]) + SegmentRows(seg, s, ts[1..])
  }

  function RowsFrom(segments: seq<Segment>, s: nat): (rows: seq<Row>)
    requires s <= |segments|
    ensures forall r :: r in rows ==> s <= r.seg < |segments| && ValidRow(segments, r)
    decreases |segments| - s
  {
    if s == |segments| then []
    else SegmentRows(segments[s], s, segments[s].timestamps) + RowsFrom(segments, s + 1)
  }

  /** `_iter_pair_rows`. */
  function AllRows(segments: seq<Segment>): (rows: seq<Row>)
    ensures forall i :: 0 <= i < |rows| ==> ValidRow(segments, rows[i])
  {
    var rows := RowsFrom(segments, 0);
    assert forall i :: 0 <= i < |rows| ==> rows[i] in rows;
    rows
  }

  predicate ValidRow(segments: seq<Segment>, r: Row) {
    && r.seg < |segments|
    && (r.p1, r.t) in segments[r.seg].activity
    && (r.p2, r.t) in segments[r.seg].activity
  }

  /** A segment as the loader leaves it: times ascending, persons sorted by number. */
  ghost predicate WellFormed(seg: Segment) {
    && (forall i, j :: 0 <= i < j < |seg.timestamps| ==> seg.timestamps[i] < seg.timestamps[j])
    && ByNumber(seg.persons)
  }

  ghost predicate ByNumber(s: seq<Person>) {
    forall i, j :: 0 <= i < j < |s| ==> s[i].num < s[j].num
  }

  /** `a` comes before `b`: earlier segment, earlier time, or the lesser pair at the same time. */
  predicate Before(a: Row, b: Row) {
    || a.seg < b.seg
    || (a.seg == b.seg && a.t < b.t)
    || (a.seg == b.seg && a.t == b.t && a.p1.num < b.p1.num)
    || (a.seg == b.seg && a.t == b.t && a.p1 == b.p1 && a.p2.num < b.p2.num)
  }

  /** The lesser person comes first. */
  predicate Canonical(rows: seq<Row>) {
    forall i :: 0 <= i < |rows| ==> rows[i].p1.num < rows[i].p2.num
  }

  ghost predicate Ordered(rows: seq<Row>) {
    forall i, j :: 0 <= i < j < |rows| ==> Before(rows[i], rows[j])
  }

  lemma OrderedConcat(a: seq<Row>, b: seq<Row>)
    requires Ordered(a) && Ordered(b) && forall x, y :: x in a && y in b ==> Before(x, y)
    ensures Ordered(a + b)
  {
    var c := a + b;
    forall i, j | 0 <= i < j < |c|
      ensures Before(c[i], c[j])
    {
      if i < |a| <= j {
        assert a[i] in a && b[j - |a|] in b;
      }
    }
  }

  lemma {:induction false} PresentByNumber(seg: Segment, persons: seq<Person>, t: int)
    requires ByNumber(persons)
    ensures ByNumber(Present(seg, persons, t))
  {
    if |persons| > 0 {
      var rest := Present(seg, persons[1..], t);
      PresentByNumber(seg, persons[1..], t);
      forall j | 0 <= j < |rest|
        ensures persons[0].num < rest[j].num
      {
        assert rest[j] in rest;
      }
    }
  }

  lemma {:induction false} PairsOrdered(present: seq<Person>, s: nat, t: int)
    requires ByNumber(present)
    ensures Ordered(PairsOf(present, s, t)) && Canonical(PairsOf(present, s, t))
  {
    if |present| > 0 {
      PairsOrdered(present[1..], s, t);
      OrderedConcat(PairsWith(present[0], present[1..], s, t), PairsOf(present[1..], s, t));
    }
  }

  lemma {:induction false} SegmentRowsOrdered(seg: Segment, s: nat, ts: seq<int>)
    requires ByNumber(seg.persons) && forall i, j :: 0 <= i < j < |ts| ==> ts[i] < ts[j]
    ensures Ordered(SegmentRows(seg, s, ts)) && Canonical(SegmentRows(seg, s, ts))
  {
    if |ts| > 0 {
      SegmentRowsOrdered(seg, s, ts[1..]);
      PresentByNumber(seg, seg.persons, ts[0]);
      PairsOrdered(Present(seg, seg.persons, ts[0]), s, ts[0]);
      OrderedConcat(PairsOf(Present(seg, seg.persons, ts[0]), s, ts[0]), SegmentRows(seg, s, ts[1..]));
    }
  }

  /** Rows come strictly ordered by segment, time and pair, and each pair has its lesser person first. */
  lemma {:induction false} RowsOrdered(segments: seq<Segment>, s: nat)
    requires s <= |segments| && forall k :: 0 <= k < |segments| ==> WellFormed(segments[k])
    ensures Ordered(RowsFrom(segments, s)) && Canonical(RowsFrom(segments, s))
    decreases |segments| - s
  {
    if s < |segments| {
      RowsOrdered(segments, s + 1);
      SegmentRowsOrdered(segments[s], s, segments[s].timestamps);
      OrderedConcat(SegmentRows(segments[s], s, segments[s].timestamps), RowsFrom(segments, s + 1));
    }
  }

  /** One pair's rows in one segment come in strictly increasing time. */
  lemma SamePairTimeIncreases(segments: seq<Segment>, i: nat, j: nat)
    requires forall k :: 0 <= k < |segments| ==> WellFormed(segments[k])
    requires i < j < |AllRows(segments)| && KeyOf(AllRows(segments)[i]) == KeyOf(AllRows(segments)[j])
    ensures AllRows(segments)[i].t < AllRows(segments)[j].t
  {
    RowsOrdered(segments, 0);
    assert Before(AllRows(segments)[i], AllRows(segments)[j]);
  }

  // ---------------------------------------------------------------- relations, by definition

  datatype Rel =
    | BothActive | BothWalking | BothInactive | MixedActiveWalking | Close | Far | CoordsMissing
    | AnyBecameActive | AnyBecameInactive | AnyBecameWalking | AnyStoppedWalking
    | BecameFar | DistanceIncreasing

  const ALL_RELATIONS: set<Rel> := {
    BothActive, BothWalking, BothInactive, MixedActiveWalking, Close, Far, CoordsMissing,
    AnyBecameActive, AnyBecameInactive, AnyBecameWalking, AnyStoppedWalking, BecameFar, DistanceIncreasing}

  function Activities(segments: seq<Segment>, r: Row): (Activity, Activity)
    requires ValidRow(segments, r)
  {
    (segments[r.seg].activity[(r.p1, r.t)], segments[r.seg].activity[(r.p2, r.t)])
  }

  /** The squared distance of the pair, if both positions are known. */
  function Distance2(segments: seq<Segment>, r: Row): Option<int>
    requires r.seg < |segments|
  {
    var coords := segments[r.seg].coords;
    if (r.p1, r.t) in coords && (r.p2, r.t) in coords then
      var c1, c2 := coords[(r.p1, r.t)], coords[(r.p2, r.t)];
      var dx, dy := c1.0 - c2.0, c1.1 - c2.1;
      Some(dx * dx + dy * dy)
    else None
  }

  /** `dist <= close_threshold`, on squares. */
  function Within(threshold: real): int -> bool {
    (d2: int) => threshold >= 0.0 && d2 as real <= threshold * threshold
  }

  /** Either person's activity turned into `what` between rows `r` and `q`. */
  predicate Turned(now: (Activity, Activity), was: (Activity, Activity), what: Activity) {
    (now.0 == what && was.0 != what) || (now.1 == what && was.1 != what)
  }

  predicate Rows(segments: seq<Segment>, rows: seq<Row>) {
    forall i :: 0 <= i < |rows| ==> ValidRow(segments, rows[i])
  }

  /**
   Whether a row with activities `now` and squared distance `here` belongs to relation `rel`, when
   its predecessor had activities `was` and squared distance `wasHere` (None: no such row or value).
   */
  predicate BelongsTo(rel: Rel, now: (Activity, Activity), was: Option<(Activity, Activity)>,
                      here: Option<int>, wasHere: Option<int>, near: int -> bool)
  {
    match rel
    case BothActive => now == (Active, Active)
    case BothWalking => now == (Walking, Walking)
    case BothInactive => now == (Inactive, Inactive)
    case MixedActiveWalking => now == (Active, Walking) || now == (Walking, Active)
    case Close => here.Some? && near(here.value)
    case Far => here.Some? && !near(here.value)
    case CoordsMissing => here.None?
    case AnyBecameActive => was.Some? && Turned(now, was.value, Active)
    case AnyBecameInactive => was.Some? && Turned(now, was.value, Inactive)
    case AnyBecameWalking => was.Some? && Turned(now, was.value, Walking)
    case AnyStoppedWalking => was.Some? && Turned(was.value, now, Walking)
    case BecameFar => here.Some? && wasHere.Some? && near(wasHere.value) && !near(here.value)
    case DistanceIncreasing => here.Some? && wasHere.Some? && here.value > wasHere.value
  }

  function ActivitiesAt(segments: seq<Segment>, rows: seq<Row>, q: Option<nat>): Option<(Activity, Activity)>
    requires Rows(segments, rows) && (q.Some? ==> q.value < |rows|)
  {
    if q.Some? then Some(Activities(segments, rows[q.value])) else None
  }

  function DistanceAt(segments: seq<Segment>, rows: seq<Row>, q: Option<nat>): Option<int>
    requires Rows(segments, rows) && (q.Some? ==> q.value < |rows|)
  {
    if q.Some? then Distance2(segments, rows[q.value]) else None
  }

  /** Whether row `pt` belongs to `rel`, compared with its predecessor in the same segment and pair. */
  predicate Belongs(rel: Rel, segments: seq<Segment>, rows: seq<Row>, near: int -> bool, pt: nat)
    requires Rows(segments, rows) && pt < |rows|
  {
    var prev := Prev(Keys(rows), pt);
    BelongsTo(rel, Activities(segments, rows[pt]), ActivitiesAt(segments, rows, prev),
              Distance2(segments, rows[pt]), DistanceAt(segments, rows, prev), near)
  }

  /** The rows below `n` that belong to `rel`, ascending. */
  function Members(rel: Rel, segments: seq<Segment>, rows: seq<Row>, near: int -> bool, n: nat): seq<nat>
    requires Rows(segments, rows) && n <= |rows|
  {
    if n == 0 then []
    else Members(rel, segments, rows, near, n - 1)
         + if Belongs(rel, segments, rows, near, n - 1) then [n - 1] else []
  }

  // ---------------------------------------------------------------- relations, in one pass

  /** The static activity relations a row with these activities enters. */
  function ActivityNow(a1: Activity, a2: Activity): set<Rel> {
    (if a1 == Active && a2 == Active then {BothActive} else {})
    + (if a1 == Walking && a2 == Walking then {BothWalking} else {})
    + (if a1 == Inactive && a2 == Inactive then {BothInactive} else {})
    + (if (a1 == Active && a2 == Walking) || (a1 == Walking && a2 == Active) then {MixedActiveWalking} else {})
  }

  /** The activity transitions entered, given the remembered activities of the pair. */
  function ActivityChange(a1: Activity, a2: Activity, pa1: Activity, pa2: Activity): set<Rel> {
    (if (a1 == Active && pa1 != Active) || (a2 == Active && pa2 != Active) then {AnyBecameActive} else {})
    + (if (a1 == Inactive && pa1 != Inactive) || (a2 == Inactive && pa2 != Inactive) then {AnyBecameInactive} else {})
    + (if (a1 == Walking && pa1 != Walking) || (a2 == Walking && pa2 != Walking) then {AnyBecameWalking} else {})
    + (if (pa1 == Walking && a1 != Walking) || (pa2 == Walking && a2 != Walking) then {AnyStoppedWalking} else {})
  }

  /** The distance transitions entered, given the remembered distance and closeness of the pair. */
  function DistanceChange(d2: int, isClose: bool, pd2: int, wasClose: bool): set<Rel> {
    (if wasClose && !isClose then {BecameFar} else {})
    + (if d2 > pd2 then {DistanceIncreasing} else {})
  }

  /** Per pair, the activities at its latest row so far. */
  ghost predicate RemembersActivity(mem: map<Key, (Activity, Activity)>, segments: seq<Segment>, rows: seq<Row>, m: nat)
    requires Rows(segments, rows) && m <= |rows|
  {
    forall k: Key ::
      var q := LatestBefore(Keys(rows), k, m);
      (k in mem <==> q.Some?) && (k in mem ==> mem[k] == Activities(segments, rows[q.value]))
  }

  /** Per pair, the distance and closeness at its latest row so far; None if a position was missing. */
  ghost predicate RemembersDistance(mem: map<Key, Option<(int, bool)>>, segments: seq<Segment>, rows: seq<Row>,
                                    near: int -> bool, m: nat)
    requires Rows(segments, rows) && m <= |rows|
  {
    forall k: Key ::
      var q := LatestBefore(Keys(rows), k, m);
      && (k in mem <==> q.Some?)
      && (k in mem ==> mem[k] == DistanceRecord(Distance2(segments, rows[q.value]), near))
  }

  function DistanceRecord(d2: Option<int>, near: int -> bool): Option<(int, bool)> {
    if d2.Some? then Some((d2.value, near(d2.value))) else None
  }

  function Get<K, V>(m: map<K, V>, k: K): Option<V> {
    if k in m then Some(m[k]) else None
  }

  /** What one turn of the pass appends the row to, from the row's data and the pair's memory. */
  function Entered(now: (Activity, Activity), memo: Option<(Activity, Activity)>,
                   here: Option<int>, memoDist: Option<Option<(int, bool)>>, near: int -> bool): set<Rel>
  {
    EnteredActivity(now, memo) + EnteredDistance(here, memoDist, near)
  }

  function EnteredActivity(now: (Activity, Activity), memo: Option<(Activity, Activity)>): set<Rel> {
    ActivityNow(now.0, now.1)
    + if memo.Some? then ActivityChange(now.0, now.1, memo.value.0, memo.value.1) else {}
  }

  function EnteredDistance(here: Option<int>, memoDist: Option<Option<(int, bool)>>, near: int -> bool): set<Rel> {
    if here.None? then {CoordsMissing}
    else
      var isClose := near(here.value);
      (if isClose then {Close} else {Far})
      + if memoDist.Some? && memoDist.value.Some? then
          DistanceChange(here.value, isClose, memoDist.value.value.0, memoDist.value.value.1)
        else {}
  }

  lemma EnteredIffBelongsTo(rel: Rel, now: (Activity, Activity), was: Option<(Activity, Activity)>,
                            here: Option<int>, wasHere: Option<int>, memoDist: Option<Option<(int, bool)>>,
                            near: int -> bool)
    requires memoDist.Some? ==> memoDist.value == DistanceRecord(wasHere, near)
    requires memoDist.None? ==> wasHere.None?
    ensures rel in Entered(now, was, here, memoDist, near) <==> BelongsTo(rel, now, was, here, wasHere, near)
  {
    ActivityPart(rel, now, was);
    DistancePart(rel, here, wasHere, memoDist, near);
  }

  function ActivityRels(): set<Rel> {
    {BothActive, BothWalking, BothInactive, MixedActiveWalking,
     AnyBecameActive, AnyBecameInactive, AnyBecameWalking, AnyStoppedWalking}
  }

  lemma ActivityPart(rel: Rel, now: (Activity, Activity), was: Option<(Activity, Activity)>)
    ensures rel in EnteredActivity(now, was)
            <==> rel in ActivityRels() && BelongsTo(rel, now, was, None, None, _ => false)
  {
  }

  lemma DistancePart(rel: Rel, here: Option<int>, wasHere: Option<int>, memoDist: Option<Option<(int, bool)>>,
                     near: int -> bool)
    requires memoDist.Some? ==> memoDist.value == DistanceRecord(wasHere, near)
    requires memoDist.None? ==> wasHere.None?
    ensures rel in EnteredDistance(here, memoDist, near)
            <==> rel !in ActivityRels() && BelongsTo(rel, (Active, Active), None, here, wasHere, near)
  {
  }

  function EnteredAt(segments: seq<Segment>, r: Row, near: int -> bool, mem: map<Key, (Activity, Activity)>,
                     memDist: map<Key, Option<(int, bool)>>): set<Rel>
    requires ValidRow(segments, r)
  {
    Entered(Activities(segments, r), Get(mem, KeyOf(r)), Distance2(segments, r), Get(memDist, KeyOf(r)), near)
  }

  lemma EnteredIffBelongs(segments: seq<Segment>, rows: seq<Row>, near: int -> bool,
                          mem: map<Key, (Activity, Activity)>,
                          memDist: map<Key, Option<(int, bool)>>, m: nat, rel: Rel)
    requires Rows(segments, rows) && m < |rows|
    requires RemembersActivity(mem, segments, rows, m) && RemembersDistance(memDist, segments, rows, near, m)
    ensures rel in EnteredAt(segments, rows[m], near, mem, memDist) <==> Belongs(rel, segments, rows, near, m)
  {
    var k := KeyOf(rows[m]);
    var prev := Prev(Keys(rows), m);
    assert prev == LatestBefore(Keys(rows), k, m);
    assert Get(mem, k) == ActivitiesAt(segments, rows, prev);
    EnteredIffBelongsTo(rel, Activities(segments, rows[m]), ActivitiesAt(segments, rows, prev),
                        Distance2(segments, rows[m]), DistanceAt(segments, rows, prev), Get(memDist, k), near);
  }

  ghost predicate RelationsSoFar(relations: map<Rel, seq<nat>>, segments: seq<Segment>, rows: seq<Row>,
                                 near: int -> bool, m: nat)
    requires Rows(segments, rows) && m <= |rows|
  {
    forall rel: Rel :: rel in relations && relations[rel] == Members(rel, segments, rows, near, m)
  }

  function AppendTo(relations: map<Rel, seq<nat>>, entered: set<Rel>, pt: nat): map<Rel, seq<nat>> {
    map rel | rel in relations :: if rel in entered then relations[rel] + [pt] else relations[rel]
  }

  lemma RelationsStep(relations: map<Rel, seq<nat>>, segments: seq<Segment>, rows: seq<Row>, near: int -> bool,
                      mem: map<Key, (Activity, Activity)>, memDist: map<Key, Option<(int, bool)>>, m: nat)
    requires Rows(segments, rows) && m < |rows| && RelationsSoFar(relations, segments, rows, near, m)
    requires RemembersActivity(mem, segments, rows, m) && RemembersDistance(memDist, segments, rows, near, m)
    ensures var entered := EnteredAt(segments, rows[m], near, mem, memDist);
            RelationsSoFar(AppendTo(relations, entered, m), segments, rows, near, m + 1)
  {
    forall rel: Rel
      ensures rel in EnteredAt(segments, rows[m], near, mem, memDist) <==> Belongs(rel, segments, rows, near, m)
    {
      EnteredIffBelongs(segments, rows, near, mem, memDist, m, rel);
    }
  }

  lemma ActivityStep(segments: seq<Segment>, rows: seq<Row>, mem: map<Key, (Activity, Activity)>, m: nat)
    requires Rows(segments, rows) && m < |rows| && RemembersActivity(mem, segments, rows, m)
    ensures RemembersActivity(mem[KeyOf(rows[m]) := Activities(segments, rows[m])], segments, rows, m + 1)
  {
    var ks := Keys(rows);
    forall k: Key
      ensures LatestBefore(ks, k, m + 1) == if k == KeyOf(rows[m]) then Some(m) else LatestBefore(ks, k, m)
    {
    }
  }

  lemma DistanceStep(segments: seq<Segment>, rows: seq<Row>, near: int -> bool,
                     memDist: map<Key, Option<(int, bool)>>, m: nat)
    requires Rows(segments, rows) && m < |rows| && RemembersDistance(memDist, segments, rows, near, m)
    ensures RemembersDistance(memDist[KeyOf(rows[m]) := DistanceRecord(Distance2(segments, rows[m]), near)],
                              segments, rows, near, m + 1)
  {
    var ks := Keys(rows);
    forall k: Key
      ensures LatestBefore(ks, k, m + 1) == if k == KeyOf(rows[m]) then Some(m) else LatestBefore(ks, k, m)
    {
    }
  }

  datatype Converted = Converted(
    numPt: nat,
    isPositive: seq<bool>,
    segmentOfPt: seq<nat>,
    relations: map<Rel, seq<nat>>,
    coordsMissing: nat)

  predicate InMeeting(segments: seq<Segment>, r: Row)
    requires r.seg < |segments|
  {
    (r.p1, r.p2, r.t) in segments[r.seg].meeting
  }

  /** What the pass over `rows` delivers. */
  ghost predicate ConvertedRows(c: Converted, segments: seq<Segment>, rows: seq<Row>, near: int -> bool)
    requires Rows(segments, rows)
  {
    && c.numPt == |rows| && LabelsSoFar(c.isPositive, c.segmentOfPt, segments, rows, |rows|)
    && RelationsSoFar(c.relations, segments, rows, near, |rows|)
    && c.coordsMissing == |Members(CoordsMissing, segments, rows, near, |rows|)|
  }

  lemma AllRelationsListed()
    ensures forall rel: Rel :: rel in ALL_RELATIONS
  {
    forall rel: Rel
      ensures rel in ALL_RELATIONS
    {
      match rel {
        case BothActive | BothWalking | BothInactive | MixedActiveWalking | Close | Far | CoordsMissing =>
        case AnyBecameActive | AnyBecameInactive | AnyBecameWalking | AnyStoppedWalking | BecameFar
       | DistanceIncreasing =>
      }
    }
  }

  /** What the pass has built and what it remembers after `m` rows. */
  datatype Pass = Pass(
    isPositive: seq<bool>,
    segmentOfPt: seq<nat>,
    relations: map<Rel, seq<nat>>,
    coordsMissing: nat,
    mem: map<Key, (Activity, Activity)>,
    memDist: map<Key, Option<(int, bool)>>)

  ghost predicate LabelsSoFar(isPositive: seq<bool>, segmentOfPt: seq<nat>, segments: seq<Segment>, rows: seq<Row>,
                              m: nat)
    requires Rows(segments, rows) && m <= |rows|
  {
    && |isPositive| == |segmentOfPt| == m
    && (forall i :: 0 <= i < m ==> segmentOfPt[i] == rows[i].seg)
    && (forall i :: 0 <= i < m ==> (isPositive[i] <==> InMeeting(segments, rows[i])))
  }

  lemma LabelsStep(isPositive: seq<bool>, segmentOfPt: seq<nat>, segments: seq<Segment>, rows: seq<Row>, m: nat)
    requires Rows(segments, rows) && m < |rows| && LabelsSoFar(isPositive, segmentOfPt, segments, rows, m)
    ensures LabelsSoFar(isPositive + [InMeeting(segments, rows[m])], segmentOfPt + [rows[m].seg], segments, rows, m + 1)
  {
  }

  ghost predicate PassedSoFar(p: Pass, segments: seq<Segment>, rows: seq<Row>, near: int -> bool, m: nat)
    requires Rows(segments, rows) && m <= |rows|
  {
    && LabelsSoFar(p.isPositive, p.segmentOfPt, segments, rows, m)
    && RelationsSoFar(p.relations, segments, rows, near, m)
    && p.coordsMissing == |Members(CoordsMissing, segments, rows, near, m)|
    && RemembersActivity(p.mem, segments, rows, m)
    && RemembersDistance(p.memDist, segments, rows, near, m)
  }

  /** One turn of the loop. */
  function PassOne(p: Pass, segments: seq<Segment>, r: Row, pt: nat, near: int -> bool): Pass
    requires ValidRow(segments, r)
  {
    var d2 := Distance2(segments, r);
    Pass(p.isPositive + [InMeeting(segments, r)], p.segmentOfPt + [r.seg],
         AppendTo(p.relations, EnteredAt(segments, r, near, p.mem, p.memDist), pt),
         p.coordsMissing + if d2.None? then 1 else 0,
         p.mem[KeyOf(r) := Activities(segments, r)],
         p.memDist[KeyOf(r) := DistanceRecord(d2, near)])
  }

  lemma MissingStep(segments: seq<Segment>, rows: seq<Row>, near: int -> bool, m: nat)
    requires Rows(segments, rows) && m < |rows|
    ensures |Members(CoordsMissing, segments, rows, near, m + 1)|
            == |Members(CoordsMissing, segments, rows, near, m)| + if Distance2(segments, rows[m]).None? then 1 else 0
  {
  }

  lemma PassStep(p: Pass, segments: seq<Segment>, rows: seq<Row>, near: int -> bool, m: nat)
    requires Rows(segments, rows) && m < |rows| && PassedSoFar(p, segments, rows, near, m)
    ensures PassedSoFar(PassOne(p, segments, rows[m], m, near), segments, rows, near, m + 1)
  {
    LabelsStep(p.isPositive, p.segmentOfPt, segments, rows, m);
    RelationsStep(p.relations, segments, rows, near, p.mem, p.memDist, m);
    ActivityStep(segments, rows, p.mem, m);
    DistanceStep(segments, rows, near, p.memDist, m);
    MissingStep(segments, rows, near, m);
  }

  lemma PassStart(segments: seq<Segment>, rows: seq<Row>, near: int -> bool)
    requires Rows(segments, rows)
    ensures PassedSoFar(Pass([], [], map rel | rel in ALL_RELATIONS :: [], 0, map[], map[]), segments, rows, near, 0)
  {
    AllRelationsListed();
  }

  /** One forward pass, remembering per pair its latest activities and distance. */
  method ConvertRows(segments: seq<Segment>, rows: seq<Row>, near: int -> bool) returns (c: Converted)
    requires Rows(segments, rows)
    ensures ConvertedRows(c, segments, rows, near)
  {
    PassStart(segments, rows, near);
    var p := Pass([], [], map rel | rel in ALL_RELATIONS :: [], 0, map[], map[]);
    for pt := 0 to |rows|
      invariant PassedSoFar(p, segments, rows, near, pt)
    {
      PassStep(p, segments, rows, near, pt);
      p := PassOne(p, segments, rows[pt], pt, near);
    }
    c := Converted(|rows|, p.isPositive, p.segmentOfPt, p.relations, p.coordsMissing);
  }

  /** `convert_continuous`. */
  method ConvertContinuous(segments: seq<Segment>, threshold: real) returns (c: Converted)
    ensures ConvertedRows(c, segments, AllRows(segments), Within(threshold))
  {
    c := ConvertRows(segments, AllRows(segments), Within(threshold));
  }

  // ---------------------------------------------------------------- grouping

  /** The rows below `n` with key `k`, ascending. */
  function PtsOf(ks: seq<Key>, k: Key, n: nat): (pts: seq<nat>)
    requires n <= |ks|
    ensures forall i :: 0 <= i < |pts| ==> pts[i] < n && ks[pts[i]] == k
    ensures forall i, j :: 0 <= i < j < |pts| ==> pts[i] < pts[j]
    ensures forall pt: nat :: pt < n && ks[pt] == k ==> pt in pts
  {
    if n == 0 then []
    else PtsOf(ks, k, n - 1) + if ks[n - 1] == k then [n - 1] else []
  }

  /** The groups hold every row, each in the group of its own key and in no other, ascending. */
  ghost predicate Grouped(groups: map<Key, seq<nat>>, ks: seq<Key>, n: nat)
    requires n <= |ks|
  {
    && (forall k :: k in groups <==> exists pt: nat :: pt < n && ks[pt] == k)
    && (forall k :: k in groups ==> groups[k] == PtsOf(ks, k, n))
  }

  /** `groups.setdefault(k, []).append(pt)`. */
  function AddTo(groups: map<Key, seq<nat>>, k: Key, pt: nat): map<Key, seq<nat>> {
    groups[k := (if k in groups then groups[k] else []) + [pt]]
  }

  lemma GroupStep(groups: map<Key, seq<nat>>, ks: seq<Key>, n: nat)
    requires n < |ks| && Grouped(groups, ks, n)
    ensures Grouped(AddTo(groups, ks[n], n), ks, n + 1)
  {
    var next := AddTo(groups, ks[n], n);
    forall k
      ensures k in next <==> exists pt: nat :: pt < n + 1 && ks[pt] == k
      ensures k in next ==> next[k] == PtsOf(ks, k, n + 1)
    {
      if k == ks[n] {
        if k !in groups {
          NoPtsOf(ks, k, n);
        }
      } else {
        assert k in next <==> k in groups;
      }
    }
  }

  lemma {:induction false} NoPtsOf(ks: seq<Key>, k: Key, n: nat)
    requires n <= |ks| && forall pt: nat :: pt < n ==> ks[pt] != k
    ensures PtsOf(ks, k, n) == []
  {
    if n > 0 {
      NoPtsOf(ks, k, n - 1);
    }
  }

  /** `_group_pts_by_pair`, walking the generated rows in lockstep with 0..numPt-1. */
  method GroupRows(rows: seq<Row>, numPt: nat) returns (r: Result<map<Key, seq<nat>>>)
    ensures r.Ok? <==> numPt == |rows|
    ensures r.Ok? ==> Grouped(r.value, Keys(rows), numPt)
  {
    var groups: map<Key, seq<nat>> := map[];
    ghost var ks := Keys(rows);
    for pt := 0 to numPt
      invariant pt <= |rows| && Grouped(groups, ks, pt)
    {
      if pt >= |rows| {
        return Err("segments produced fewer rows than num_pt");
      }
      GroupStep(groups, ks, pt);
      groups := AddTo(groups, KeyOf(rows[pt]), pt);
    }
    if numPt < |rows| {
      return Err("segments produced more rows than num_pt");
    }
    r := Ok(groups);
  }

  /** Inside a group, the row listed before a row is its predecessor. */
  lemma {:induction false} PredecessorInGroup(ks: seq<Key>, k: Key, n: nat, i: nat)
    requires n <= |ks| && i < |PtsOf(ks, k, n)|
    ensures var pts := PtsOf(ks, k, n);
            Prev(ks, pts[i]) == if i == 0 then None else Some(pts[i - 1])
  {
    var pts := PtsOf(ks, k, n);
    var q := Prev(ks, pts[i]);
    if q.Some? {
      assert q.value in pts;
      var j :| 0 <= j < |pts| && pts[j] == q.value;
    }
    if i > 0 {
      assert pts[i - 1] < pts[i];
    }
  }
}
