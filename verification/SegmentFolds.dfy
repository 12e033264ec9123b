/**
 Round-robin dealing of video segments to folds, `stratified_segment_folds` of run_caviar_cv.py.
 The seeded permutation of the fold ids is a parameter.
 */
module SegmentFolds {
  import opened Lists
  import opened PairFolds

  /** The slot, a position in the dealing cycle, that each of `k` items falls into. */
  function Slots(k: nat, n: nat): (a: seq<nat>)
    requires n > 0
    ensures |a| == k && forall r :: 0 <= r < k ==> a[r] == r % n
  {
    seq(k, r requires 0 <= r < k => r % n)
  }

  lemma NextSlot(k: nat, n: nat)
    requires n > 0
    ensures k % n < n
    ensures (k + 1) % n == if k % n + 1 == n then 0 else k % n + 1
  {
    var q, t := k / n, k % n;
    assert k == q * n + t;
    if t + 1 == n {
      assert k + 1 == (q + 1) * n;
      ModOfMultiple(q + 1, n, 0);
    } else {
      assert k + 1 == q * n + (t + 1);
      ModOfMultiple(q, n, t + 1);
    }
  }

  lemma ModOfMultiple(q: nat, n: nat, t: nat)
    requires t < n
    ensures (q * n + t) % n == t
  {
    var x := q * n + t;
    var d := x / n - q;
    assert d * n == t - x % n;
    if d >= 1 {
      MulNonNegative(d - 1, n);
      assert false;
    }
    if d <= -1 {
      MulNonNegative(-1 - d, n);
      assert false;
    }
  }

  /**
   How far an earlier slot `p` can be ahead of a later slot `s`. Between the moment `p` is served
   and the moment `s` is, the lead is at least the last item dealt and at most the first one; at
   any other time it is between 0 and the first item less the last.
   */
  lemma {:induction false} SlotLead(c: seq<int>, n: nat, p: nat, s: nat)
    requires p < s < n && Descending(c) && NonNegative(c)
    ensures var lead := Load(c, Slots(|c|, n), p) - Load(c, Slots(|c|, n), s);
            if |c| == 0 then lead == 0
            else if p < |c| % n <= s then c[|c| - 1] <= lead <= c[0]
            else 0 <= lead <= c[0] - c[|c| - 1]
  {
    if |c| > 0 {
      var k := |c| - 1;
      assert Slots(|c|, n)[..k] == Slots(k, n);
      SlotLead(c[..k], n, p, s);
      NextSlot(k, n);
      if k == 0 {
        assert 0 % n == 0;
      }
    }
  }

  /** No slot holds more than an earlier slot, and the lead is at most the largest count. */
  lemma SlotsDescend(c: seq<int>, n: nat, p: nat, s: nat)
    requires p <= s < n && |c| > 0 && Descending(c) && NonNegative(c)
    ensures 0 <= Load(c, Slots(|c|, n), p) - Load(c, Slots(|c|, n), s) <= c[0]
  {
    if p < s {
      SlotLead(c, n, p, s);
    }
  }

  /** Relabelling slots by distinct fold ids keeps the loads. */
  lemma {:induction false} RelabelledLoad(c: seq<int>, slots: seq<nat>, folds: seq<nat>, cycle: seq<nat>, p: nat)
    requires |c| == |slots| == |folds| && p < |cycle| && IsPermutation(cycle)
    requires forall r :: 0 <= r < |c| ==> slots[r] < |cycle| && folds[r] == cycle[slots[r]]
    ensures Load(c, folds, cycle[p]) == Load(c, slots, p)
  {
    if |c| > 0 {
      var k := |c| - 1;
      RelabelledLoad(c[..k], slots[..k], folds[..k], cycle, p);
    }
  }

  function Labelled(slots: seq<nat>, cycle: seq<nat>): (folds: seq<nat>)
    requires forall r :: 0 <= r < |slots| ==> slots[r] < |cycle|
    ensures |folds| == |slots| && forall r :: 0 <= r < |folds| ==> folds[r] == cycle[slots[r]]
  {
    seq(|slots|, r requires 0 <= r < |slots| => cycle[slots[r]])
  }

  /** How many segments fold `f` holds. */
  function FoldSize(foldOf: seq<nat>, f: nat): int {
    FoldSum(seq(|foldOf|, _ => 1), foldOf, 0, |foldOf|, f)
  }

  /**
   Round-robin dealing in the cycle `cycle`: folds never gain on the folds served before them,
   no two differ by more than the largest count, and fold sizes differ by at most one.
   */
  ghost predicate RoundRobinBalanced(counts: seq<int>, foldOf: seq<nat>, cycle: seq<nat>) {
    && |foldOf| == |counts|
    && (forall i :: 0 <= i < |foldOf| ==> foldOf[i] in cycle)
    && (forall p, s, largest :: 0 <= p <= s < |cycle| && IsLargest(counts, 0, |counts|, largest) ==>
          0 <= FoldSum(counts, foldOf, 0, |counts|, cycle[p])
               - FoldSum(counts, foldOf, 0, |counts|, cycle[s]) <= largest)
    && (forall p, s :: 0 <= p <= s < |cycle| ==> 0 <= FoldSize(foldOf, cycle[p]) - FoldSize(foldOf, cycle[s]) <= 1)
  }

  /** The segment at rank `r` of the descending order sits in fold `cycle[r % n]`. */
  ghost predicate RoundRobin(counts: seq<int>, foldOf: seq<nat>, cycle: seq<nat>)
    requires |cycle| > 0
  {
    && |foldOf| == |counts|
    && Follows(foldOf, DealOrder(counts, 0, |counts|), Labelled(Slots(|counts|, |cycle|), cycle))
  }

  lemma RoundRobinSums(counts: seq<int>, sizes: seq<int>, foldOf: seq<nat>, cycle: seq<nat>, p: nat, s: nat)
    requires 0 < |cycle| <= |counts| == |sizes| && IsPermutation(cycle) && RoundRobin(counts, foldOf, cycle)
    requires p <= s < |cycle|
    requires var c := InOrder(sizes, DealOrder(counts, 0, |counts|)); Descending(c) && NonNegative(c)
    ensures 0 <= FoldSum(sizes, foldOf, 0, |counts|, cycle[p]) - FoldSum(sizes, foldOf, 0, |counts|, cycle[s])
              <= sizes[DealOrder(counts, 0, |counts|)[0]]
  {
    var n, order := |cycle|, DealOrder(counts, 0, |counts|);
    var c, slots := InOrder(sizes, order), Slots(|counts|, n);
    var folds := Labelled(slots, cycle);
    forall q | q == p || q == s
      ensures FoldSum(sizes, foldOf, 0, |counts|, cycle[q]) == Load(c, slots, q)
    {
      SumIsLoad(sizes, foldOf, order, folds, cycle[q]);
      SumByPermutation(order, Range(0, |counts|), Share(sizes, foldOf, cycle[q]));
      RelabelledLoad(c, slots, folds, cycle, q);
    }
    SlotsDescend(c, n, p, s);
  }

  lemma RoundRobinIsBalanced(counts: seq<int>, foldOf: seq<nat>, cycle: seq<nat>)
    requires 0 < |cycle| <= |counts| && IsPermutation(cycle) && RoundRobin(counts, foldOf, cycle)
    requires AllNonNegative(counts, 0, |counts|)
    ensures RoundRobinBalanced(counts, foldOf, cycle)
  {
    var order := DealOrder(counts, 0, |counts|);
    DealOrderIsDescending(counts, 0, |counts|);
    forall i | 0 <= i < |foldOf|
      ensures foldOf[i] in cycle
    {
      assert i in order;
      var r :| 0 <= r < |order| && order[r] == i;
    }
    forall p, s, largest | 0 <= p <= s < |cycle| && IsLargest(counts, 0, |counts|, largest)
      ensures 0 <= FoldSum(counts, foldOf, 0, |counts|, cycle[p])
                   - FoldSum(counts, foldOf, 0, |counts|, cycle[s]) <= largest
    {
      RoundRobinSums(counts, counts, foldOf, cycle, p, s);
    }
    var ones := seq(|foldOf|, _ => 1);
    forall p, s | 0 <= p <= s < |cycle|
      ensures 0 <= FoldSize(foldOf, cycle[p]) - FoldSize(foldOf, cycle[s]) <= 1
    {
      RoundRobinSums(counts, ones, foldOf, cycle, p, s);
    }
  }

  lemma RoundRobinStep(foldOf: seq<nat>, order: seq<int>, cycle: seq<nat>, r: nat)
    requires 0 < |cycle| && r < |order| && 0 <= order[r] < |foldOf|
    requires forall q :: 0 <= q < r ==> order[q] != order[r]
    requires Follows(foldOf, order[..r], Labelled(Slots(r, |cycle|), cycle))
    ensures Follows(foldOf[order[r] := cycle[r % |cycle|]], order[..r + 1], Labelled(Slots(r + 1, |cycle|), cycle))
  {
    var a := Labelled(Slots(r, |cycle|), cycle);
    FollowsOneMore(foldOf, order, a, r, cycle[r % |cycle|]);
    assert Labelled(Slots(r + 1, |cycle|), cycle) == a + [cycle[r % |cycle|]];
  }

  /** `stratified_segment_folds`, with the shuffled fold ids as `foldSequence`. */
  method StratifiedSegmentFolds(counts: seq<int>, nFolds: int, foldSequence: seq<nat>) returns (r: Result<seq<nat>>)
    requires nFolds >= 0 ==> |foldSequence| == nFolds && IsPermutation(foldSequence)
    ensures r.Ok? <==> 2 <= nFolds <= |counts| && AllNonNegative(counts, 0, |counts|)
    ensures r.Ok? ==> RoundRobin(counts, r.value, foldSequence) && RoundRobinBalanced(counts, r.value, foldSequence)
  {
    var n := |counts|;
    if nFolds < 2 { return Err("n_folds must be >= 2"); }
    if n < nFolds { return Err("fewer segments than folds"); }
    if !AllNonNegative(counts, 0, n) { return Err("negative count"); }
    var order := DealOrder(counts, 0, n);
    DealOrderIsDistinct(counts, 0, n);
    var foldOf := new nat[n](_ => 0);
    for rank := 0 to |order|
      invariant Follows(foldOf[..], order[..rank], Labelled(Slots(rank, nFolds), foldSequence))
    {
      RoundRobinStep(foldOf[..], order, foldSequence, rank);
      ghost var now := foldOf[..][order[rank] := foldSequence[rank % nFolds]];
      foldOf[order[rank]] := foldSequence[rank % nFolds];
      assert foldOf[..] == now;
    }
    assert order[..|order|] == order;
    RoundRobinIsBalanced(counts, foldOf[..], foldSequence);
    r := Ok(foldOf[..]);
  }
}
