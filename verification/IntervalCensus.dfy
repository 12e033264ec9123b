/**
 The one-pass census of nested, overlapping and duplicate intervals, `_census_one_list` of
 ceiling_probe.py, proved equal to the quadratic definitions it replaces.
 */
module IntervalCensus {
  import opened Lists
  import opened IntervalAlgebra

  const MAX_NESTED_EXAMPLES: nat := 10

  // ---------------------------------------------------------------- definitions

  /** Interval `i` lies inside another, non-identical interval of the list. */
  predicate StrictlyNested(ivs: seq<Interval>, i: nat)
    requires i < |ivs|
  {
    exists j :: 0 <= j < |ivs| && ivs[j].st <= ivs[i].st && ivs[i].et <= ivs[j].et && ivs[j] != ivs[i]
  }

  predicate ShareSecond(x: Interval, y: Interval) {
    x.st < y.et && y.st < x.et
  }

  /** Interval `i` shares a second with another element of the list. */
  predicate Overlapping(ivs: seq<Interval>, i: nat)
    requires i < |ivs|
  {
    exists j :: 0 <= j < |ivs| && j != i && ShareSecond(ivs[i], ivs[j])
  }

  function IsNested(ivs: seq<Interval>): int -> bool {
    (i: int) => 0 <= i < |ivs| && StrictlyNested(ivs, i)
  }

  function IsOverlapping(ivs: seq<Interval>): int -> bool {
    (i: int) => 0 <= i < |ivs| && Overlapping(ivs, i)
  }

  function Distinct(ivs: seq<Interval>): set<Interval> {
    set x | x in ivs
  }

  datatype Census = Census(nested: int, overlapping: int, duplicates: int, examples: seq<Interval>)

  // ---------------------------------------------------------------- sweep order

  function SweepKey(ivs: seq<Interval>): int -> (int, int) {
    (k: int) => if 0 <= k < |ivs| then (ivs[k].st, -ivs[k].et) else (0, 0)
  }

  /** Index `i` is among the first `m` visited. */
  ghost predicate Seen(order: seq<int>, m: nat, i: int) {
    exists q :: 0 <= q < m && q < |order| && order[q] == i
  }

  /** `order` visits every index once, by start, longest first. */
  ghost predicate SweepOrder(ivs: seq<Interval>, order: seq<int>) {
    && |order| == |ivs|
    && (forall q :: 0 <= q < |order| ==> 0 <= order[q] < |ivs|)
    && (forall i :: 0 <= i < |ivs| ==> Seen(order, |order|, i))
    && (forall p, q :: 0 <= p < q < |order| ==> order[p] != order[q])
    && (forall p, q :: 0 <= p < q < |order| ==> KeyLeq(SweepKey(ivs)(order[p]), SweepKey(ivs)(order[q])))
  }

  /** The interval visited at step `q`. */
  function At(ivs: seq<Interval>, order: seq<int>, q: nat): Interval
    requires q < |order| && 0 <= order[q] < |ivs|
  {
    ivs[order[q]]
  }

  lemma AtOrder(ivs: seq<Interval>, order: seq<int>, p: nat, q: nat)
    requires SweepOrder(ivs, order) && p <= q < |order|
    ensures var x, y := At(ivs, order, p), At(ivs, order, q);
            x.st < y.st || (x.st == y.st && x.et >= y.et)
  {
    if p < q {
      assert KeyLeq(SweepKey(ivs)(order[p]), SweepKey(ivs)(order[q]));
    }
  }

  method SortForSweep(ivs: seq<Interval>) returns (order: seq<int>)
    ensures SweepOrder(ivs, order)
  {
    order := Sorted(Range(0, |ivs|), SweepKey(ivs));
    SameElements(order, Range(0, |ivs|));
    forall q | 0 <= q < |order|
      ensures 0 <= order[q] < |ivs|
    {
      assert order[q] in order;
    }
    forall i | 0 <= i < |ivs|
      ensures Seen(order, |order|, i)
    {
      assert Range(0, |ivs|)[i] == i;
      assert i in order;
    }
    forall p, q | 0 <= p < q < |order|
      ensures order[p] != order[q]
    {
      if order[p] == order[q] {
        Twice(order, p, q);
        OnceInRange(0, |ivs|, order[p]);
        assert false;
      }
    }
  }

  // ---------------------------------------------------------------- nesting

  /** `v` is the largest end among the first `m` intervals visited that start before `st`. */
  ghost predicate LargestEndBefore(v: Option<int>, ivs: seq<Interval>, order: seq<int>, m: nat, st: int)
    requires SweepOrder(ivs, order) && m <= |order|
  {
    && (v.None? ==> forall q :: 0 <= q < m ==> At(ivs, order, q).st >= st)
    && (v.Some? ==> exists q :: 0 <= q < m && At(ivs, order, q).st < st && At(ivs, order, q).et == v.value)
    && (v.Some? ==> forall q :: 0 <= q < m && At(ivs, order, q).st < st ==> At(ivs, order, q).et <= v.value)
  }

  /** The same among those that start exactly at `st`. */
  ghost predicate LargestEndAt(v: Option<int>, ivs: seq<Interval>, order: seq<int>, m: nat, st: int)
    requires SweepOrder(ivs, order) && m <= |order|
  {
    && (v.None? ==> forall q :: 0 <= q < m ==> At(ivs, order, q).st != st)
    && (v.Some? ==> exists q :: 0 <= q < m && At(ivs, order, q).st == st && At(ivs, order, q).et == v.value)
    && (v.Some? ==> forall q :: 0 <= q < m && At(ivs, order, q).st == st ==> At(ivs, order, q).et <= v.value)
  }

  datatype Ends = Ends(before: Option<int>, groupSt: Option<int>, group: Option<int>)

  /** The running maxima after `m` intervals. */
  ghost predicate EndsAfter(e: Ends, ivs: seq<Interval>, order: seq<int>, m: nat)
    requires SweepOrder(ivs, order) && m <= |order|
  {
    && (m == 0 ==> e == Ends(None, None, None))
    && (m > 0 ==>
          && e.groupSt == Some(At(ivs, order, m - 1).st)
          && LargestEndBefore(e.before, ivs, order, m, e.groupSt.value)
          && LargestEndAt(e.group, ivs, order, m, e.groupSt.value))
  }

  function MaxOption(a: Option<int>, b: int): Option<int> {
    if a.Some? && a.value >= b then a else Some(b)
  }

  /** Entering the group of intervals that start at `st`. */
  function EnterGroup(e: Ends, st: int): Ends {
    if e.groupSt != Some(st) then
      Ends(if e.group.Some? then MaxOption(e.before, e.group.value) else e.before, Some(st), None)
    else e
  }

  predicate NestsInSeen(e: Ends, et: int) {
    (e.before.Some? && e.before.value >= et) || (e.group.Some? && e.group.value > et)
  }

  lemma EnteredGroup(e: Ends, ivs: seq<Interval>, order: seq<int>, m: nat)
    requires SweepOrder(ivs, order) && m < |order| && EndsAfter(e, ivs, order, m)
    ensures var st := At(ivs, order, m).st;
            && EnterGroup(e, st).groupSt == Some(st)
            && LargestEndBefore(EnterGroup(e, st).before, ivs, order, m, st)
            && LargestEndAt(EnterGroup(e, st).group, ivs, order, m, st)
  {
    var st, f := At(ivs, order, m).st, EnterGroup(e, At(ivs, order, m).st);
    if m > 0 {
      AtOrder(ivs, order, m - 1, m);
      if e.groupSt != Some(st) {
        var g := e.groupSt.value;
        assert e.group.Some? by {
          assert At(ivs, order, m - 1).st == g;
        }
        forall q | 0 <= q < m
          ensures At(ivs, order, q).st <= g
          ensures At(ivs, order, q).et <= f.before.value
        {
          AtOrder(ivs, order, q, m - 1);
        }
      }
    }
  }

  lemma NestedInSeenIff(e: Ends, ivs: seq<Interval>, order: seq<int>, m: nat)
    requires SweepOrder(ivs, order) && m < |order| && EndsAfter(e, ivs, order, m)
    ensures var x := At(ivs, order, m);
            NestsInSeen(EnterGroup(e, x.st), x.et) <==> StrictlyNested(ivs, order[m])
  {
    EnteredGroup(e, ivs, order, m);
    var x, k := At(ivs, order, m), order[m];
    var f := EnterGroup(e, x.st);
    if StrictlyNested(ivs, k) {
      var j :| 0 <= j < |ivs| && ivs[j].st <= x.st && x.et <= ivs[j].et && ivs[j] != x;
      assert Seen(order, |order|, j);
      var q :| 0 <= q < |order| && order[q] == j;
      if m <= q {
        AtOrder(ivs, order, m, q);
      }
      assert At(ivs, order, q) == ivs[j];
    }
  }

  lemma EndsStep(e: Ends, ivs: seq<Interval>, order: seq<int>, m: nat)
    requires SweepOrder(ivs, order) && m < |order| && EndsAfter(e, ivs, order, m)
    ensures var x := At(ivs, order, m);
            var f := EnterGroup(e, x.st);
            EndsAfter(f.(group := MaxOption(f.group, x.et)), ivs, order, m + 1)
  {
    EnteredGroup(e, ivs, order, m);
    var x := At(ivs, order, m);
    var f := EnterGroup(e, x.st);
    assert At(ivs, order, m).st == x.st;
  }

  // ---------------------------------------------------------------- overlap

  lemma SeenStep(order: seq<int>, m: nat, i: int)
    requires m < |order|
    ensures Seen(order, m + 1, i) <==> Seen(order, m, i) || i == order[m]
  {
    if i == order[m] {
      assert order[m] == i;
    }
  }

  function HeapKey(): ((int, int)) -> (int, int) {
    (p: (int, int)) => p
  }

  /** The heap holds seen intervals only, among them every seen interval that ends after `s`. */
  ghost predicate HeapHolds(active: seq<(int, int)>, ivs: seq<Interval>, order: seq<int>, m: nat, s: int) {
    && SortedByKey(active, HeapKey())
    && (forall p :: p in active ==> 0 <= p.1 < |ivs| && Seen(order, m, p.1) && p.0 == ivs[p.1].et)
    && (forall i :: 0 <= i < |ivs| && Seen(order, m, i) && ivs[i].et > s ==> (ivs[i].et, i) in active)
  }

  /** `while active and active[0][0] <= st: heappop(active)`, the heap kept as a sorted list. */
  method PopExpired(active: seq<(int, int)>, ghost ivs: seq<Interval>, ghost order: seq<int>, ghost m: nat, st: int)
    returns (left: seq<(int, int)>)
    requires HeapHolds(active, ivs, order, m, st)
    ensures HeapHolds(left, ivs, order, m, st)
    ensures forall p :: p in left ==> p.0 > st
  {
    left := active;
    while |left| > 0 && left[0].0 <= st
      invariant HeapHolds(left, ivs, order, m, st)
    {
      assert left == [left[0]] + left[1..];
      left := left[1..];
    }
    forall p | p in left
      ensures p.0 > st
    {
      var j :| 0 <= j < |left| && left[j] == p;
      if j > 0 {
        assert KeyLeq(HeapKey()(left[0]), HeapKey()(left[j]));
      }
    }
  }

  lemma PushKeepsHeap(left: seq<(int, int)>, ivs: seq<Interval>, order: seq<int>, m: nat, s: int)
    requires m < |order| && 0 <= order[m] < |ivs| && HeapHolds(left, ivs, order, m, s)
    ensures HeapHolds(Insert((ivs[order[m]].et, order[m]), left, HeapKey()), ivs, order, m + 1, s)
  {
    var k := order[m];
    var pushed := Insert((ivs[k].et, k), left, HeapKey());
    forall p
      ensures p in pushed <==> p == (ivs[k].et, k) || p in left
    {
      assert p in pushed <==> p in multiset(pushed);
      assert p in left <==> p in multiset(left);
    }
    forall i
      ensures Seen(order, m + 1, i) <==> Seen(order, m, i) || i == k
    {
      SeenStep(order, m, i);
    }
  }

  /** `flags[i]` says whether seen interval `i` overlaps another seen one. */
  ghost predicate OverlapsAmongSeen(flags: seq<bool>, ivs: seq<Interval>, order: seq<int>, m: nat) {
    && |flags| == |ivs|
    && forall i :: 0 <= i < |ivs| ==> (flags[i] <==> SeenOverlap(ivs, order, m, i))
  }

  ghost predicate SeenOverlap(ivs: seq<Interval>, order: seq<int>, m: nat, i: int)
    requires 0 <= i < |ivs|
  {
    Seen(order, m, i) && exists j :: 0 <= j < |ivs| && j != i && Seen(order, m, j) && ShareSecond(ivs[i], ivs[j])
  }

  ghost predicate InHeap(active: seq<(int, int)>, i: int) {
    exists p :: p in active && p.1 == i
  }

  /** Interval `k` and everything still active get flagged. */
  ghost predicate Flagged(before: seq<bool>, after: seq<bool>, active: seq<(int, int)>, k: int) {
    && |after| == |before|
    && forall i :: 0 <= i < |before| ==> (after[i] <==> before[i] || InHeap(active, i) || (i == k && |active| > 0))
  }

  /** `for other_et, j in active: overlapping[j] = overlapping[k] = True`. */
  method MarkOverlaps(flags: array<bool>, active: seq<(int, int)>, k: nat)
    requires k < flags.Length && forall p :: p in active ==> 0 <= p.1 < flags.Length
    modifies flags
    ensures Flagged(old(flags[..]), flags[..], active, k)
  {
    for a := 0 to |active|
      invariant Flagged(old(flags[..]), flags[..], active[..a], k)
    {
      ghost var was := flags[..];
      flags[active[a].1] := true;
      flags[k] := true;
      FlagStep(old(flags[..]), was, active, a, k);
      assert flags[..] == was[active[a].1 := true][k := true];
    }
    assert active[..|active|] == active;
  }

  lemma FlagStep(before: seq<bool>, was: seq<bool>, active: seq<(int, int)>, a: nat, k: nat)
    requires a < |active| && k < |before| && 0 <= active[a].1 < |before| && Flagged(before, was, active[..a], k)
    ensures Flagged(before, was[active[a].1 := true][k := true], active[..a + 1], k)
  {
    assert active[..a + 1] == active[..a] + [active[a]];
    forall i
      ensures InHeap(active[..a + 1], i) <==> InHeap(active[..a], i) || i == active[a].1
    {
      if i == active[a].1 {
        assert active[a] in active[..a + 1];
      }
    }
  }

  lemma OverlapStep(before: seq<bool>, after: seq<bool>, left: seq<(int, int)>, ivs: seq<Interval>, order: seq<int>,
                    m: nat)
    requires SweepOrder(ivs, order) && NonEmpty(ivs) && m < |order| && OverlapsAmongSeen(before, ivs, order, m)
    requires HeapHolds(left, ivs, order, m, At(ivs, order, m).st)
    requires forall p :: p in left ==> p.0 > At(ivs, order, m).st
    requires Flagged(before, after, left, order[m])
    ensures OverlapsAmongSeen(after, ivs, order, m + 1)
  {
    var k := order[m];
    forall i | 0 <= i < |ivs|
      ensures Seen(order, m + 1, i) <==> Seen(order, m, i) || i == k
      ensures Seen(order, m, i) ==> i != k && (ShareSecond(ivs[i], ivs[k]) <==> InHeap(left, i))
      ensures InHeap(left, i) ==> Seen(order, m, i)
    {
      SeenStep(order, m, i);
      if Seen(order, m, i) {
        var q :| 0 <= q < m && order[q] == i;
        AtOrder(ivs, order, q, m);
        if ivs[i].et > ivs[k].st {
          assert (ivs[i].et, i) in left;
        }
      }
    }
    if |left| > 0 {
      assert left[0] in left;
      assert InHeap(left, left[0].1);
    }
  }

  lemma AllSeen(ivs: seq<Interval>, order: seq<int>, flags: seq<bool>)
    requires SweepOrder(ivs, order) && OverlapsAmongSeen(flags, ivs, order, |order|)
    ensures forall i :: 0 <= i < |ivs| ==> (flags[i] <==> IsOverlapping(ivs)(i))
  {
  }

  // ---------------------------------------------------------------- duplicates and examples

  function Visited(ivs: seq<Interval>, order: seq<int>, m: nat): (s: seq<Interval>)
    requires m <= |order| && forall q :: 0 <= q < |order| ==> 0 <= order[q] < |ivs|
    ensures |s| == m && forall q :: 0 <= q < m ==> s[q] == ivs[order[q]]
  {
    seq(m, q requires 0 <= q < m => ivs[order[q]])
  }

  /** Equal intervals are visited one after the other. */
  lemma RepeatIff(ivs: seq<Interval>, order: seq<int>, m: nat)
    requires SweepOrder(ivs, order) && m < |order|
    ensures At(ivs, order, m) in Distinct(Visited(ivs, order, m))
            <==> m > 0 && At(ivs, order, m - 1) == At(ivs, order, m)
    ensures Distinct(Visited(ivs, order, m + 1)) == Distinct(Visited(ivs, order, m)) + {At(ivs, order, m)}
  {
    var s, x := Visited(ivs, order, m), At(ivs, order, m);
    assert Visited(ivs, order, m + 1) == s + [x];
    if x in s {
      var q :| 0 <= q < m && s[q] == x;
      AtOrder(ivs, order, q, m - 1);
      AtOrder(ivs, order, m - 1, m);
    }
    if m > 0 && At(ivs, order, m - 1) == x {
      assert s[m - 1] == x;
    }
  }

  lemma AllVisited(ivs: seq<Interval>, order: seq<int>)
    requires SweepOrder(ivs, order)
    ensures Distinct(Visited(ivs, order, |order|)) == Distinct(ivs)
  {
    var s := Visited(ivs, order, |order|);
    forall x | x in ivs
      ensures x in s
    {
      var i :| 0 <= i < |ivs| && ivs[i] == x;
      assert Seen(order, |order|, i);
      var q :| 0 <= q < |order| && order[q] == i;
      assert s[q] == x;
    }
  }

  /** The nested intervals among the first `m` visited, in visiting order. */
  function NestedVisited(ivs: seq<Interval>, order: seq<int>, m: nat): seq<Interval>
    requires m <= |order| && forall q :: 0 <= q < |order| ==> 0 <= order[q] < |ivs|
  {
    if m == 0 then []
    else NestedVisited(ivs, order, m - 1) + if StrictlyNested(ivs, order[m - 1]) then [ivs[order[m - 1]]] else []
  }

  function UpTo(s: seq<Interval>, n: nat): seq<Interval> {
    if |s| <= n then s else s[..n]
  }

  function IsSet(): bool -> bool {
    (b: bool) => b
  }

  lemma {:induction false} CountFlags(flags: seq<bool>, p: int -> bool, lo: nat)
    requires forall i :: 0 <= i < |flags| ==> (flags[i] <==> p(lo + i))
    ensures Count(flags, IsSet()) == Count(Range(lo, lo + |flags|), p)
    decreases |flags|
  {
    if |flags| > 0 {
      CountFlags(flags[1..], p, lo + 1);
      assert Range(lo, lo + |flags|)[1..] == Range(lo + 1, lo + |flags|);
    }
  }

  // ---------------------------------------------------------------- the sweep

  ghost predicate NestedAmongSeen(flags: seq<bool>, ivs: seq<Interval>, order: seq<int>, m: nat) {
    && |flags| == |ivs|
    && forall i :: 0 <= i < |ivs| ==> (flags[i] <==> Seen(order, m, i) && StrictlyNested(ivs, i))
  }

  lemma NestedStep(flags: seq<bool>, ivs: seq<Interval>, order: seq<int>, m: nat)
    requires SweepOrder(ivs, order) && m < |order| && NestedAmongSeen(flags, ivs, order, m)
    ensures NestedAmongSeen(if StrictlyNested(ivs, order[m]) then flags[order[m] := true] else flags, ivs, order, m + 1)
  {
    forall i
      ensures Seen(order, m + 1, i) <==> Seen(order, m, i) || i == order[m]
    {
      SeenStep(order, m, i);
    }
  }

  /** The intervals still active when the sweep reaches step `m`. */
  ghost predicate ActiveAt(active: seq<(int, int)>, ivs: seq<Interval>, order: seq<int>, m: nat)
    requires SweepOrder(ivs, order) && m <= |order|
  {
    && (m == 0 ==> active == [])
    && (m > 0 ==> HeapHolds(active, ivs, order, m, At(ivs, order, m - 1).st))
  }

  lemma ActiveReaches(active: seq<(int, int)>, ivs: seq<Interval>, order: seq<int>, m: nat)
    requires SweepOrder(ivs, order) && m < |order| && ActiveAt(active, ivs, order, m)
    ensures HeapHolds(active, ivs, order, m, At(ivs, order, m).st)
  {
    if m > 0 {
      AtOrder(ivs, order, m - 1, m);
    }
  }

  /** Duplicates and examples after `m` intervals. */
  ghost predicate TalliedSoFar(ivs: seq<Interval>, order: seq<int>, m: nat, dups: int, examples: seq<Interval>)
    requires SweepOrder(ivs, order) && m <= |order|
  {
    && dups == m - |Distinct(Visited(ivs, order, m))|
    && examples == UpTo(NestedVisited(ivs, order, m), MAX_NESTED_EXAMPLES)
  }

  lemma DuplicateStep(ivs: seq<Interval>, order: seq<int>, m: nat)
    requires SweepOrder(ivs, order) && m < |order|
    ensures |Distinct(Visited(ivs, order, m + 1))|
            == |Distinct(Visited(ivs, order, m))| + if m > 0 && At(ivs, order, m - 1) == At(ivs, order, m) then 0 else 1
  {
    RepeatIff(ivs, order, m);
    var before, x := Distinct(Visited(ivs, order, m)), At(ivs, order, m);
    if x in before {
      assert before + {x} == before;
    }
  }

  lemma ExampleStep(ivs: seq<Interval>, order: seq<int>, m: nat)
    requires SweepOrder(ivs, order) && m < |order|
    ensures var examples := UpTo(NestedVisited(ivs, order, m), MAX_NESTED_EXAMPLES);
            UpTo(NestedVisited(ivs, order, m + 1), MAX_NESTED_EXAMPLES)
            == if StrictlyNested(ivs, order[m]) && |examples| < MAX_NESTED_EXAMPLES then examples + [At(ivs, order, m)]
               else examples
  {
  }

  lemma TallyStep(ivs: seq<Interval>, order: seq<int>, m: nat, dups: int, examples: seq<Interval>)
    requires SweepOrder(ivs, order) && m < |order| && TalliedSoFar(ivs, order, m, dups, examples)
    ensures var x := At(ivs, order, m);
            TalliedSoFar(ivs, order, m + 1,
                         if m > 0 && At(ivs, order, m - 1) == x then dups + 1 else dups,
                         if StrictlyNested(ivs, order[m]) && |examples| < MAX_NESTED_EXAMPLES then examples + [x]
                         else examples)
  {
    DuplicateStep(ivs, order, m);
    ExampleStep(ivs, order, m);
  }

  /** Everything the sweep has established after `m` intervals. */
  ghost predicate SweptSoFar(ivs: seq<Interval>, order: seq<int>, m: nat, e: Ends, nested: seq<bool>,
                             overlapping: seq<bool>, active: seq<(int, int)>, dups: int, examples: seq<Interval>)
  {
    && SweepOrder(ivs, order) && m <= |order|
    && EndsAfter(e, ivs, order, m)
    && NestedAmongSeen(nested, ivs, order, m)
    && OverlapsAmongSeen(overlapping, ivs, order, m)
    && ActiveAt(active, ivs, order, m)
    && TalliedSoFar(ivs, order, m, dups, examples)
  }

  lemma SweepStep(ivs: seq<Interval>, order: seq<int>, m: nat, e: Ends, nested: seq<bool>, overlapping: seq<bool>,
                  active: seq<(int, int)>, dups: int, examples: seq<Interval>, after: seq<bool>, left: seq<(int, int)>)
    requires NonEmpty(ivs) && SweptSoFar(ivs, order, m, e, nested, overlapping, active, dups, examples) && m < |order|
    requires HeapHolds(left, ivs, order, m, At(ivs, order, m).st)
    requires forall p :: p in left ==> p.0 > At(ivs, order, m).st
    requires Flagged(overlapping, after, left, order[m])
    ensures var k, x := order[m], At(ivs, order, m);
            var f := EnterGroup(e, x.st);
            var nests := NestsInSeen(f, x.et);
            SweptSoFar(ivs, order, m + 1, f.(group := MaxOption(f.group, x.et)),
                       if nests then nested[k := true] else nested, after, Insert((x.et, k), left, HeapKey()),
                       if m > 0 && At(ivs, order, m - 1) == x then dups + 1 else dups,
                       if nests && |examples| < MAX_NESTED_EXAMPLES then examples + [x] else examples)
  {
    NestedInSeenIff(e, ivs, order, m);
    EndsStep(e, ivs, order, m);
    NestedStep(nested, ivs, order, m);
    OverlapStep(overlapping, after, left, ivs, order, m);
    PushKeepsHeap(left, ivs, order, m, At(ivs, order, m).st);
    TallyStep(ivs, order, m, dups, examples);
  }

  lemma SweepStart(ivs: seq<Interval>, order: seq<int>, nested: seq<bool>, overlapping: seq<bool>)
    requires SweepOrder(ivs, order) && |nested| == |overlapping| == |ivs|
    requires forall i :: 0 <= i < |ivs| ==> !nested[i] && !overlapping[i]
    ensures SweptSoFar(ivs, order, 0, Ends(None, None, None), nested, overlapping, [], 0, [])
  {
    assert Visited(ivs, order, 0) == [];
  }

  /** The examples are the first ten nested intervals in some sweep order. */
  ghost predicate FirstNested(ivs: seq<Interval>, examples: seq<Interval>) {
    exists order :: SweepOrder(ivs, order) && examples == UpTo(NestedVisited(ivs, order, |order|), MAX_NESTED_EXAMPLES)
  }

  /** What the flags and tallies have to be in the end. */
  ghost predicate CensusIs(ivs: seq<Interval>, nested: seq<bool>, overlapping: seq<bool>, dups: int,
                           examples: seq<Interval>) {
    && Count(nested, IsSet()) == Count(Range(0, |ivs|), IsNested(ivs))
    && Count(overlapping, IsSet()) == Count(Range(0, |ivs|), IsOverlapping(ivs))
    && dups == |ivs| - |Distinct(ivs)|
    && FirstNested(ivs, examples)
  }

  lemma NestedCounted(ivs: seq<Interval>, order: seq<int>, nested: seq<bool>)
    requires SweepOrder(ivs, order) && NestedAmongSeen(nested, ivs, order, |order|)
    ensures Count(nested, IsSet()) == Count(Range(0, |ivs|), IsNested(ivs))
  {
    CountFlags(nested, IsNested(ivs), 0);
  }

  lemma OverlapsCounted(ivs: seq<Interval>, order: seq<int>, overlapping: seq<bool>)
    requires SweepOrder(ivs, order) && OverlapsAmongSeen(overlapping, ivs, order, |order|)
    ensures Count(overlapping, IsSet()) == Count(Range(0, |ivs|), IsOverlapping(ivs))
  {
    AllSeen(ivs, order, overlapping);
    CountFlags(overlapping, IsOverlapping(ivs), 0);
  }

  lemma TalliesDone(ivs: seq<Interval>, order: seq<int>, dups: int, examples: seq<Interval>)
    requires SweepOrder(ivs, order) && TalliedSoFar(ivs, order, |order|, dups, examples)
    ensures dups == |ivs| - |Distinct(ivs)| && FirstNested(ivs, examples)
  {
    AllVisited(ivs, order);
  }

  lemma SweepDone(ivs: seq<Interval>, order: seq<int>, e: Ends, nested: seq<bool>, overlapping: seq<bool>,
                  active: seq<(int, int)>, dups: int, examples: seq<Interval>)
    requires SweptSoFar(ivs, order, |order|, e, nested, overlapping, active, dups, examples)
    ensures CensusIs(ivs, nested, overlapping, dups, examples)
  {
    NestedCounted(ivs, order, nested);
    OverlapsCounted(ivs, order, overlapping);
    TalliesDone(ivs, order, dups, examples);
  }

  /** `_census_one_list`. */
  method CensusOneList(ivs: seq<Interval>) returns (c: Census)
    requires NonEmpty(ivs)
    ensures c.nested == Count(Range(0, |ivs|), IsNested(ivs))
    ensures c.overlapping == Count(Range(0, |ivs|), IsOverlapping(ivs))
    ensures c.duplicates == |ivs| - |Distinct(ivs)|
    ensures FirstNested(ivs, c.examples)
  {
    if |ivs| < 2 {
      ShortList(ivs);
      return Census(0, 0, 0, []);
    }
    var order := SortForSweep(ivs);
    var nested := new bool[|ivs|](_ => false);
    var overlapping := new bool[|ivs|](_ => false);
    SweepStart(ivs, order, nested[..], overlapping[..]);
    var dups, examples := Sweep(ivs, order, nested, overlapping);
    c := Census(Count(nested[..], IsSet()), Count(overlapping[..], IsSet()), dups, examples);
  }

  /** The sweep over the intervals in order, which sets the flags. */
  method Sweep(ivs: seq<Interval>, order: seq<int>, nested: array<bool>, overlapping: array<bool>)
    returns (dups: int, examples: seq<Interval>)
    requires NonEmpty(ivs) && nested != overlapping
    requires SweptSoFar(ivs, order, 0, Ends(None, None, None), nested[..], overlapping[..], [], 0, [])
    modifies nested, overlapping
    ensures CensusIs(ivs, nested[..], overlapping[..], dups, examples)
  {
    var e, active;
    e, active, dups, examples := SweepAll(ivs, order, nested, overlapping);
    SweepDone(ivs, order, e, nested[..], overlapping[..], active, dups, examples);
  }

  method SweepAll(ivs: seq<Interval>, order: seq<int>, nested: array<bool>, overlapping: array<bool>)
    returns (e: Ends, active: seq<(int, int)>, dups: int, examples: seq<Interval>)
    requires NonEmpty(ivs) && nested != overlapping
    requires SweptSoFar(ivs, order, 0, Ends(None, None, None), nested[..], overlapping[..], [], 0, [])
    modifies nested, overlapping
    ensures SweptSoFar(ivs, order, |order|, e, nested[..], overlapping[..], active, dups, examples)
  {
    e, active, dups, examples := Ends(None, None, None), [], 0, [];
    for m := 0 to |order|
      invariant SweptSoFar(ivs, order, m, e, nested[..], overlapping[..], active, dups, examples)
    {
      e, active, dups, examples := VisitOne(ivs, order, m, e, nested, overlapping, active, dups, examples);
    }
  }

  /** One turn of the sweep's loop: visit the interval `order[m]`. */
  method VisitOne(ivs: seq<Interval>, order: seq<int>, m: nat, e: Ends, nested: array<bool>, overlapping: array<bool>,
                  active: seq<(int, int)>, dups: int, examples: seq<Interval>)
    returns (e': Ends, active': seq<(int, int)>, dups': int, examples': seq<Interval>)
    requires NonEmpty(ivs) && m < |order| && nested != overlapping
    requires SweptSoFar(ivs, order, m, e, nested[..], overlapping[..], active, dups, examples)
    modifies nested, overlapping
    ensures SweptSoFar(ivs, order, m + 1, e', nested[..], overlapping[..], active', dups', examples')
  {
    var k := order[m];
    var st, et := ivs[k].st, ivs[k].et;
    ghost var nestedWas, overlappingWas := nested[..], overlapping[..];
    ActiveReaches(active, ivs, order, m);
    var f := EnterGroup(e, st);
    var nests := NestsInSeen(f, et);
    examples' := examples;
    if nests {
      nested[k] := true;
      if |examples| < MAX_NESTED_EXAMPLES {
        examples' := examples + [ivs[k]];
      }
    }
    ghost var nestedNow := if nests then nestedWas[k := true] else nestedWas;
    assert nested[..] == nestedNow;
    dups' := dups;
    if m > 0 && ivs[order[m - 1]] == ivs[k] {
      dups' := dups + 1;
    }
    var left := PopExpired(active, ivs, order, m, st);
    assert overlapping[..] == overlappingWas;
    MarkOverlaps(overlapping, left, k);
    assert nested[..] == nestedNow;
    active' := Insert((et, k), left, HeapKey());
    e' := f.(group := MaxOption(f.group, et));
    SweepStep(ivs, order, m, e, nestedWas, overlappingWas, active, dups, examples, overlapping[..], left);
  }

  lemma ShortList(ivs: seq<Interval>)
    requires |ivs| < 2
    ensures Count(Range(0, |ivs|), IsNested(ivs)) == 0
    ensures Count(Range(0, |ivs|), IsOverlapping(ivs)) == 0
    ensures |Distinct(ivs)| == |ivs|
    ensures FirstNested(ivs, [])
  {
    if |ivs| == 0 {
      assert Distinct(ivs) == {};
      assert SweepOrder(ivs, []);
      assert NestedVisited(ivs, [], 0) == [];
    } else {
      assert Range(0, 1) == [0];
      assert Distinct(ivs) == {ivs[0]};
      assert [0][0] == 0;
      assert SweepOrder(ivs, [0]);
      assert NestedVisited(ivs, [0], 0) == [];
      assert NestedVisited(ivs, [0], 1) == [];
    }
  }

  // ---------------------------------------------------------------- what the census is for

  /** Reading `_covers` off an unmerged list gives the wrong answer for some second. */
  ghost predicate CoversFails(ivs: seq<Interval>) {
    exists t :: !(LastStartCovers(ivs, t) <==> Covered(ivs, t))
  }

  /** Interval `k` ends before the earlier interval `i` does, and before the next one starts. */
  ghost predicate LeavesHole(ivs: seq<Interval>, i: nat, k: nat) {
    && i < k < |ivs| && ivs[k].et < ivs[i].et
    && (k + 1 == |ivs| || ivs[k].et < ivs[k + 1].st)
  }

  ghost predicate HasHole(ivs: seq<Interval>) {
    exists i: nat, k: nat :: LeavesHole(ivs, i, k)
  }

  lemma LastStart(ivs: seq<Interval>, i: nat, t: int) returns (k: nat)
    requires SortedByStart(ivs) && i < |ivs| && ivs[i].st <= t
    ensures i <= k < |ivs| && ivs[k].st <= t && forall j :: k < j < |ivs| ==> t < ivs[j].st
  {
    k := i;
    while k + 1 < |ivs| && ivs[k + 1].st <= t
      invariant i <= k < |ivs| && ivs[k].st <= t
      decreases |ivs| - k
    {
      k := k + 1;
    }
  }

  /** Exactly when `_covers` may not be used on a sorted but unmerged list. */
  lemma CoversFailsIff(ivs: seq<Interval>)
    requires SortedByStart(ivs) && NonEmpty(ivs)
    ensures CoversFails(ivs) <==> HasHole(ivs)
  {
    if CoversFails(ivs) {
      var t :| !(LastStartCovers(ivs, t) <==> Covered(ivs, t));
      assert Covered(ivs, t);
      var i :| 0 <= i < |ivs| && ivs[i].Has(t);
      var k := LastStart(ivs, i, t);
      assert LeavesHole(ivs, i, k);
    }
    if HasHole(ivs) {
      var i: nat, k: nat :| LeavesHole(ivs, i, k);
      var t := ivs[k].et;
      assert ivs[i].Has(t);
      assert Covered(ivs, t);
      assert !LastStartCovers(ivs, t);
    }
  }

  /** A census without nested intervals does bound the damage to zero. */
  lemma NoNestingMeansCoversIsExact(ivs: seq<Interval>)
    requires SortedByStart(ivs) && NonEmpty(ivs)
    requires Count(Range(0, |ivs|), IsNested(ivs)) == 0
    ensures !CoversFails(ivs)
  {
    CoversFailsIff(ivs);
    if HasHole(ivs) {
      var i: nat, k: nat :| LeavesHole(ivs, i, k);
      assert ivs[i].st <= ivs[k].st;
      assert StrictlyNested(ivs, k);
      CountPositive(0, |ivs|, IsNested(ivs), k);
    }
  }

  lemma {:induction false} CountPositive(lo: nat, hi: nat, p: int -> bool, k: nat)
    requires lo <= k < hi && p(k)
    ensures Count(Range(lo, hi), p) > 0
    decreases hi - lo
  {
    assert Range(lo, hi)[1..] == Range(lo + 1, hi);
    if lo < k {
      CountPositive(lo + 1, hi, p, k);
    } else {
      CountBounds(Range(lo + 1, hi), p);
    }
  }

  /** The converse fails: an interval nested in one with the same start never hides a second. */
  lemma SameStartNestingIsHarmless()
    ensures var ivs := [Interval(0, 5), Interval(0, 10)];
            SortedByStart(ivs) && NonEmpty(ivs) && StrictlyNested(ivs, 0) && !CoversFails(ivs)
  {
    var ivs := [Interval(0, 5), Interval(0, 10)];
    assert ivs[1].st <= ivs[0].st && ivs[0].et <= ivs[1].et && ivs[1] != ivs[0];
    CoversFailsIff(ivs);
  }
}
