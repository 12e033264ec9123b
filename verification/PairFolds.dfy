/** Greedy dealing of vessel pairs to folds: run_maritime_cv.py. */
module PairFolds {
  import opened Lists

  /*
   `stratified_pair_folds` deals the longest first. Everything is first proved about counts listed
   in the order they are dealt; the method at the end deals pair indices in place and carries the
   results over to them.
   */

  /** What fold `f` holds when item `i`, of size `c[i]`, sits in fold `a[i]`. */
  function Load(c: seq<int>, a: seq<nat>, f: nat): int
    requires |c| == |a|
  {
    if |c| == 0 then 0
    else Load(c[..|c| - 1], a[..|c| - 1], f) + if a[|c| - 1] == f then c[|c| - 1] else 0
  }

  function Loads(c: seq<int>, a: seq<nat>, n: nat): (r: seq<int>)
    requires |c| == |a|
    ensures |r| == n && forall f :: 0 <= f < n ==> r[f] == Load(c, a, f)
  {
    seq(n, f requires 0 <= f < n => Load(c, a, f))
  }

  /** `min(range(n), key=lambda f: (load[f], f))`. */
  function LeastLoaded(load: seq<int>): (f: nat)
    requires |load| > 0
    ensures f < |load|
    ensures forall g :: 0 <= g < |load| ==> load[f] <= load[g]
    ensures forall g :: 0 <= g < f ==> load[f] < load[g]
  {
    var k := |load| - 1;
    if k == 0 then 0 else
      var f := LeastLoaded(load[..k]);
      if load[k] < load[f] then k else f
  }

  /** The fold of every item when `c` is dealt in the order given. */
  function Dealt(c: seq<int>, n: nat): (a: seq<nat>)
    requires n > 0
    ensures |a| == |c| && forall i :: 0 <= i < |a| ==> a[i] < n
  {
    if |c| == 0 then [] else
      var before := c[..|c| - 1];
      var a := Dealt(before, n);
      a + [LeastLoaded(Loads(before, a, n))]
  }

  predicate Descending(c: seq<int>) {
    forall i, j :: 0 <= i < j < |c| ==> c[i] >= c[j]
  }

  predicate NonNegative(c: seq<int>) {
    forall i :: 0 <= i < |c| ==> c[i] >= 0
  }

  ghost predicate UsesAll(a: seq<nat>, n: nat) {
    forall f: nat :: f < n ==> f in a
  }

  predicate Assigns(a: seq<nat>, n: nat) {
    forall i :: 0 <= i < |a| ==> a[i] < n
  }

  ghost predicate LoadsAtMost(c: seq<int>, a: seq<nat>, n: nat, m: int)
    requires |c| == |a|
  {
    forall f :: 0 <= f < n ==> Load(c, a, f) <= m
  }

  // ------------------------------------------------------- sums over the folds

  /** The loads of folds 0..n-1, summed. */
  ghost function Spread(c: seq<int>, a: seq<nat>, n: nat): int
    requires |c| == |a|
  {
    if n == 0 then 0 else Spread(c, a, n - 1) + Load(c, a, n - 1)
  }

  lemma {:induction false} SpreadStep(c: seq<int>, a: seq<nat>, n: nat)
    requires |c| == |a| > 0
    ensures var k := |c| - 1;
            Spread(c, a, n) == Spread(c[..k], a[..k], n) + if a[k] < n then c[k] else 0
  {
    if n > 0 {
      SpreadStep(c, a, n - 1);
    }
  }

  lemma {:induction false} SpreadEmpty(n: nat)
    ensures Spread([], [], n) == 0
  {
    if n > 0 {
      SpreadEmpty(n - 1);
    }
  }

  /** Every item is in exactly one fold, so the fold loads add up to the total. */
  lemma {:induction false} LoadsAddUp(c: seq<int>, a: seq<nat>, n: nat)
    requires |c| == |a| && Assigns(a, n)
    ensures Spread(c, a, n) == Total(c)
  {
    if |c| == 0 {
      SpreadEmpty(n);
    } else {
      var k := |c| - 1;
      SpreadStep(c, a, n);
      LoadsAddUp(c[..k], a[..k], n);
      assert c == c[..k] + [c[k]];
      SumByAppend(c[..k], c[k], (x: int) => x);
    }
  }

  lemma {:induction false} SpreadAtMost(c: seq<int>, a: seq<nat>, n: nat, m: int)
    requires |c| == |a| && LoadsAtMost(c, a, n, m)
    ensures Spread(c, a, n) <= n * m
  {
    if n > 0 {
      SpreadAtMost(c, a, n - 1, m);
    }
  }

  lemma {:induction false} SpreadAtLeast(c: seq<int>, a: seq<nat>, n: nat, m: int)
    requires |c| == |a| && forall f :: 0 <= f < n ==> m <= Load(c, a, f)
    ensures n * m <= Spread(c, a, n)
  {
    if n > 0 {
      SpreadAtLeast(c, a, n - 1, m);
    }
  }

  lemma {:induction false} LoadNonNegative(c: seq<int>, a: seq<nat>, f: nat)
    requires |c| == |a| && NonNegative(c)
    ensures Load(c, a, f) >= 0
  {
    if |c| > 0 {
      LoadNonNegative(c[..|c| - 1], a[..|c| - 1], f);
    }
  }

  // ------------------------------------------------------- balance

  /** Greedy dealing never lets two folds differ by more than the first item dealt, the largest. */
  lemma {:induction false} LargestItemBoundsTheGap(c: seq<int>, n: nat, f: nat, g: nat)
    requires n > 0 && f < n && g < n && Descending(c) && NonNegative(c)
    ensures Load(c, Dealt(c, n), f) - Load(c, Dealt(c, n), g) <= if |c| == 0 then 0 else c[0]
  {
    if |c| > 0 {
      var k := |c| - 1;
      LargestItemBoundsTheGap(c[..k], n, f, g);
    }
  }

  /**
   The counting step behind the longest-first bound. An item larger than `m - x` weighs 2, any
   other weighs 1. No fold of an assignment with loads at most `m` can weigh more than 2, because
   every item is at least `x` and three of them exceed `m`.
   */
  ghost function Weights(c: seq<int>, big: int): (w: seq<int>)
    ensures |w| == |c| && forall i :: 0 <= i < |c| ==> w[i] == if c[i] > big then 2 else 1
  {
    seq(|c|, i requires 0 <= i < |c| => if c[i] > big then 2 else 1)
  }

  lemma {:induction false} HeavyFoldOverflows(c: seq<int>, w: seq<int>, o: seq<nat>, f: nat, x: int, m: int)
    requires |c| == |w| == |o| && 0 <= x <= m < 3 * x
    requires forall i :: 0 <= i < |c| ==> x <= c[i] && w[i] == if c[i] > m - x then 2 else 1
    ensures Load(w, o, f) >= 0 && Load(c, o, f) >= 0
    ensures Load(w, o, f) >= 1 ==> Load(c, o, f) >= x
    ensures Load(w, o, f) >= 2 ==> Load(c, o, f) > m - x || Load(c, o, f) >= 2 * x
    ensures Load(w, o, f) >= 3 ==> Load(c, o, f) > m
  {
    if |c| > 0 {
      var k := |c| - 1;
      HeavyFoldOverflows(c[..k], w[..k], o[..k], f, x, m);
    }
  }

  lemma {:induction false} LoadedFoldIsHeavy(c: seq<int>, w: seq<int>, a: seq<nat>, f: nat, big: int)
    requires |c| == |w| == |a| && big >= 0 && NonNegative(c)
    requires forall i :: 0 <= i < |c| ==> w[i] == if c[i] > big then 2 else 1
    ensures Load(w, a, f) >= 0
    ensures Load(w, a, f) == 0 ==> Load(c, a, f) == 0
    ensures Load(w, a, f) == 1 ==> Load(c, a, f) <= big
  {
    if |c| > 0 {
      var k := |c| - 1;
      LoadedFoldIsHeavy(c[..k], w[..k], a[..k], f, big);
    }
  }

  /** If the smallest item `x` exceeds a third of `m`, some fold still has room for it. */
  lemma RoomForLargeItem(c: seq<int>, a: seq<nat>, o: seq<nat>, n: nat, m: int)
    requires |c| == |o| == |a| + 1 && n > 0 && Descending(c) && NonNegative(c)
    requires Assigns(a, n) && Assigns(o, n) && LoadsAtMost(c, o, n, m)
    requires var x := c[|c| - 1]; x <= m < 3 * x
    ensures exists f :: 0 <= f < n && Load(c[..|a|], a, f) <= m - c[|a|]
  {
    var k := |a|;
    var x := c[k];
    var w := Weights(c, m - x);
    if forall f :: 0 <= f < n ==> Load(c[..k], a, f) > m - x {
      forall f | 0 <= f < n
        ensures 2 <= Load(w[..k], a, f)
      {
        LoadedFoldIsHeavy(c[..k], w[..k], a, f, m - x);
      }
      SpreadAtLeast(w[..k], a, n, 2);
      LoadsAddUp(w[..k], a, n);
      forall f | 0 <= f < n
        ensures Load(w, o, f) <= 2
      {
        HeavyFoldOverflows(c, w, o, f, x, m);
      }
      SpreadAtMost(w, o, n, 2);
      LoadsAddUp(w, o, n);
      assert w == w[..k] + [w[k]];
      SumByAppend(w[..k], w[k], (v: int) => v);
      assert false;
    }
  }

  lemma {:induction false} PrefixLoads(c: seq<int>, o: seq<nat>, n: nat, m: int)
    requires |c| == |o| > 0 && NonNegative(c) && LoadsAtMost(c, o, n, m)
    ensures LoadsAtMost(c[..|c| - 1], o[..|c| - 1], n, m)
  {
    var c', o' := c[..|c| - 1], o[..|c| - 1];
    forall f | 0 <= f < n
      ensures Load(c', o', f) <= m
    {
      assert Load(c, o, f) <= m;
    }
  }

  lemma LastItemFits(c: seq<int>, o: seq<nat>, n: nat, m: int)
    requires |c| == |o| > 0 && NonNegative(c) && Assigns(o, n) && LoadsAtMost(c, o, n, m)
    ensures c[|c| - 1] <= m
  {
    var k := |c| - 1;
    assert Load(c, o, o[k]) <= m;
    LoadNonNegative(c[..k], o[..k], o[k]);
  }

  /**
   Longest-first dealing is within 4/3 - 1/(3n) of every assignment: a fold holding `L` forces
   any other assignment `o` of the same items to a maximum load `m` with 3n L <= (4n - 1) m.
   */
  lemma {:induction false} WithinFourThirdsOfAny(c: seq<int>, o: seq<nat>, n: nat, m: int, f: nat)
    requires n > 0 && f < n && |c| == |o| && Descending(c) && NonNegative(c)
    requires Assigns(o, n) && LoadsAtMost(c, o, n, m)
    ensures 3 * n * Load(c, Dealt(c, n), f) <= (4 * n - 1) * m
  {
    if |c| == 0 {
      assert Load(c, o, 0) == 0 <= m;
      MulNonNegative(4 * n - 1, m);
    } else {
      var k := |c| - 1;
      var before, x := c[..k], c[k];
      var a := Dealt(before, n);
      PrefixLoads(c, o, n, m);
      WithinFourThirdsOfAny(before, o[..k], n, m, f);
      if f == Dealt(c, n)[k] {
        LastItemFits(c, o, n, m);
        LastFoldWithinFourThirds(c, o, n, m, f);
      }
    }
  }

  /** The fold that the last item goes to. */
  lemma LastFoldWithinFourThirds(c: seq<int>, o: seq<nat>, n: nat, m: int, f: nat)
    requires n > 0 && f < n && |c| == |o| > 0 && Descending(c) && NonNegative(c)
    requires Assigns(o, n) && LoadsAtMost(c, o, n, m) && 0 <= c[|c| - 1] <= m
    requires f == LeastLoaded(Loads(c[..|c| - 1], Dealt(c[..|c| - 1], n), n))
    ensures 3 * n * Load(c, Dealt(c, n), f) <= (4 * n - 1) * m
  {
    var k := |c| - 1;
    var before, x := c[..k], c[k];
    var a := Dealt(before, n);
    var least := Load(before, a, f);
    DealOneMore(c, n);
    assert Load(c, Dealt(c, n), f) == least + x;
    if m < 3 * x {
      LargeItemFits(c, a, o, n, m, least);
      FourThirdsWhenLarge(n, least + x, m);
    } else {
      SmallLastItem(c, a, o, n, m, least);
    }
  }

  lemma LargeItemFits(c: seq<int>, a: seq<nat>, o: seq<nat>, n: nat, m: int, least: int)
    requires |c| == |o| == |a| + 1 && n > 0 && Descending(c) && NonNegative(c)
    requires Assigns(a, n) && Assigns(o, n) && LoadsAtMost(c, o, n, m)
    requires AtLeastEverywhere(c[..|a|], a, n, least) && c[|a|] <= m < 3 * c[|a|]
    ensures least + c[|a|] <= m
  {
    RoomForLargeItem(c, a, o, n, m);
  }

  ghost predicate AtLeastEverywhere(c: seq<int>, a: seq<nat>, n: nat, least: int)
    requires |c| == |a|
  {
    forall f :: 0 <= f < n ==> least <= Load(c, a, f)
  }

  /** The last item on the least loaded fold, when it is at most a third of what any fold may hold. */
  lemma SmallLastItem(c: seq<int>, a: seq<nat>, o: seq<nat>, n: nat, m: int, least: int)
    requires n > 0 && |c| > 0 && |c| == |o| && |a| == |c| - 1
    requires Assigns(o, n) && LoadsAtMost(c, o, n, m) && Assigns(a, n)
    requires AtLeastEverywhere(c[..|c| - 1], a, n, least) && m >= 3 * c[|c| - 1]
    ensures 3 * n * (least + c[|c| - 1]) <= (4 * n - 1) * m
  {
    var before, x := c[..|c| - 1], c[|c| - 1];
    SpreadAtLeast(before, a, n, least);
    LoadsAddUp(before, a, n);
    SpreadAtMost(c, o, n, m);
    LoadsAddUp(c, o, n);
    assert c == before + [x];
    SumByAppend(before, x, (v: int) => v);
    FourThirdsWhenSmall(n, least, x, m);
  }

  lemma MulNonNegative(x: int, y: int)
    requires x >= 0 && y >= 0
    ensures x * y >= 0
  {
  }

  lemma FourThirdsWhenLarge(n: nat, load: int, m: int)
    requires n > 0 && load <= m && m >= 0
    ensures 3 * n * load <= (4 * n - 1) * m
  {
    MulNonNegative(3 * n, m - load);
    MulNonNegative(n - 1, m);
  }

  lemma FourThirdsWhenSmall(n: nat, least: int, x: int, m: int)
    requires n > 0 && n * least + x <= n * m && 3 * x <= m
    ensures 3 * n * (least + x) <= (4 * n - 1) * m
  {
    MulNonNegative(n - 1, m - 3 * x);
    calc {
      3 * n * (least + x);
      3 * (n * least + x) + (n - 1) * (3 * x);
    <=
      3 * (n * m) + (n - 1) * m;
      (4 * n - 1) * m;
    }
  }

  // ------------------------------------------------------- which folds are used

  /** Dealing one more item. */
  lemma DealOneMore(c: seq<int>, n: nat)
    requires n > 0 && |c| > 0
    ensures var k := |c| - 1;
            var a := Dealt(c[..k], n);
            var p := LeastLoaded(Loads(c[..k], a, n));
            && Dealt(c, n) == a + [p]
            && forall f :: 0 <= f < n ==> Load(c, Dealt(c, n), f) == Load(c[..k], a, f) + if f == p then c[k] else 0
  {
    var k := |c| - 1;
    assert Dealt(c, n)[..k] == Dealt(c[..k], n);
  }

  lemma LeastIsFirstZero(load: seq<int>, p: nat)
    requires p < |load| && load[p] == 0 && (forall f :: 0 <= f < |load| ==> load[f] >= 0)
    requires forall f :: 0 <= f < p ==> load[f] > 0
    ensures LeastLoaded(load) == p
  {
  }

  /** As long as the items dealt so far are positive, each one opens the next fold. */
  lemma {:induction false} PositiveItemsOpenFolds(c: seq<int>, n: nat)
    requires n > 0 && 0 < |c| <= n && NonNegative(c)
    requires forall i :: 0 <= i < |c| - 1 ==> c[i] > 0
    ensures forall i :: 0 <= i < |c| ==> Dealt(c, n)[i] == i
    ensures forall f :: 0 <= f < n ==> Load(c, Dealt(c, n), f) == if f < |c| then c[f] else 0
  {
    var k := |c| - 1;
    if k > 0 {
      PositiveItemsOpenFolds(c[..k], n);
    }
    DealOneMore(c, n);
    LeastIsFirstZero(Loads(c[..k], Dealt(c[..k], n), n), k);
  }

  /** Once an item of size zero lands in fold `p`, all later ones (also zero) land there too. */
  lemma {:induction false} ZeroItemsPileUp(c: seq<int>, n: nat, p: nat)
    requires n > 0 && p < n && p < |c| && NonNegative(c)
    requires forall i :: 0 <= i < |c| ==> (i < p ==> c[i] > 0) && (i >= p ==> c[i] == 0)
    ensures forall i :: p <= i < |c| ==> Dealt(c, n)[i] == p
    ensures forall f :: 0 <= f < n ==> Load(c, Dealt(c, n), f) == if f < p then c[f] else 0
  {
    var k := |c| - 1;
    if k == p {
      PositiveItemsOpenFolds(c, n);
    } else {
      ZeroItemsPileUp(c[..k], n, p);
      DealOneMore(c, n);
      LeastIsFirstZero(Loads(c[..k], Dealt(c[..k], n), n), p);
    }
  }

  lemma {:induction false} DealtPrefix(c: seq<int>, n: nat, k: nat)
    requires n > 0 && k <= |c|
    ensures Dealt(c, n)[..k] == Dealt(c[..k], n)
  {
    if k < |c| {
      DealtPrefix(c[..|c| - 1], n, k);
      assert c[..|c| - 1][..k] == c[..k];
    } else {
      assert c[..k] == c;
    }
  }

  /**
   With at least as many items as folds, every fold receives an item exactly when the first
   n - 1 items are positive. (Counts of zero all go to one fold, so the source's check on the
   number of pairs alone does not keep folds from staying empty.)
   */
  lemma EveryFoldUsedIff(c: seq<int>, n: nat)
    requires 2 <= n <= |c| && Descending(c) && NonNegative(c)
    ensures UsesAll(Dealt(c, n), n) <==> c[n - 2] > 0
  {
    if c[n - 2] > 0 {
      PositiveItemsUseAll(c, n);
    } else {
      LastFoldStaysEmpty(c, n, FirstZero(c, n - 2));
    }
  }

  lemma PositiveItemsUseAll(c: seq<int>, n: nat)
    requires 2 <= n <= |c| && Descending(c) && NonNegative(c) && c[n - 2] > 0
    ensures UsesAll(Dealt(c, n), n)
  {
    DealtPrefix(c, n, n);
    PositiveItemsOpenFolds(c[..n], n);
    forall f: nat | f < n
      ensures f in Dealt(c, n)
    {
      assert Dealt(c, n)[f] == Dealt(c, n)[..n][f] == f;
    }
  }

  lemma LastFoldStaysEmpty(c: seq<int>, n: nat, p: nat)
    requires n > 0 && p < n - 1 && p < |c| && NonNegative(c)
    requires forall i :: 0 <= i < |c| ==> (i < p ==> c[i] > 0) && (i >= p ==> c[i] == 0)
    ensures n - 1 !in Dealt(c, n)
  {
    ZeroItemsPileUp(c, n, p);
    DealtPrefix(c, n, p + 1);
    PositiveItemsOpenFolds(c[..p + 1], n);
    forall i | 0 <= i < |c|
      ensures Dealt(c, n)[i] <= p
    {
      if i < p {
        assert Dealt(c, n)[i] == Dealt(c, n)[..p + 1][i] == i;
      }
    }
  }

  /** Where the zeros begin. */
  function FirstZero(c: seq<int>, z: nat): (p: nat)
    requires z < |c| && Descending(c) && NonNegative(c) && c[z] == 0
    ensures p <= z
    ensures forall i :: 0 <= i < |c| ==> (i < p ==> c[i] > 0) && (i >= p ==> c[i] == 0)
  {
    if z > 0 && c[z - 1] == 0 then FirstZero(c, z - 1) else z
  }

  // ------------------------------------------------------- dealing pair indices

  /** What fold `f` holds of the pairs `lo..hi`. */
  function Share(counts: seq<int>, foldOf: seq<nat>, f: nat): int -> int {
    (i: int) => if 0 <= i < |counts| && i < |foldOf| && foldOf[i] == f then counts[i] else 0
  }

  function FoldSum(counts: seq<int>, foldOf: seq<nat>, lo: nat, hi: nat, f: nat): int
    requires lo <= hi
  {
    SumBy(Range(lo, hi), Share(counts, foldOf, f))
  }

  function DealKey(counts: seq<int>): int -> (int, int) {
    (i: int) => if 0 <= i < |counts| then (-counts[i], i) else (0, i)
  }

  /** `sorted(indices, key=lambda i: (-counts_of[i], i))`. */
  function DealOrder(counts: seq<int>, lo: nat, hi: nat): (order: seq<int>)
    requires lo <= hi <= |counts|
    ensures |order| == hi - lo
    ensures forall r :: 0 <= r < |order| ==> lo <= order[r] < hi
    ensures forall i :: lo <= i < hi ==> i in order
  {
    var order := Sorted(Range(lo, hi), DealKey(counts));
    SameElements(order, Range(lo, hi));
    RangeElements(lo, hi);
    assert forall r :: 0 <= r < |order| ==> order[r] in order;
    order
  }

  lemma RangeElements(lo: nat, hi: nat)
    requires lo <= hi
    ensures forall i: int :: i in Range(lo, hi) <==> lo <= i < hi
  {
    forall i: int | lo <= i < hi
      ensures i in Range(lo, hi)
    {
      assert Range(lo, hi)[i - lo] == i;
    }
  }

  /** The elements of a list as an order visits their positions. */
  function InOrder<T>(list: seq<T>, order: seq<int>): (s: seq<T>)
    requires forall r :: 0 <= r < |order| ==> 0 <= order[r] < |list|
    ensures |s| == |order| && forall r :: 0 <= r < |s| ==> s[r] == list[order[r]]
  {
    seq(|order|, r requires 0 <= r < |order| => list[order[r]])
  }

  predicate AllNonNegative(counts: seq<int>, lo: nat, hi: nat) {
    forall i :: lo <= i < hi && i < |counts| ==> counts[i] >= 0
  }

  lemma DealOrderIsDescending(counts: seq<int>, lo: nat, hi: nat)
    requires lo <= hi <= |counts|
    ensures Descending(InOrder(counts, DealOrder(counts, lo, hi)))
    ensures AllNonNegative(counts, lo, hi) ==> NonNegative(InOrder(counts, DealOrder(counts, lo, hi)))
  {
    var order := DealOrder(counts, lo, hi);
    forall r, q | 0 <= r < q < |order|
      ensures counts[order[r]] >= counts[order[q]]
    {
      assert KeyLeq(DealKey(counts)(order[r]), DealKey(counts)(order[q]));
    }
  }

  /** No pair is dealt twice. */
  lemma DealOrderIsDistinct(counts: seq<int>, lo: nat, hi: nat)
    requires lo <= hi <= |counts|
    ensures NoDuplicates(DealOrder(counts, lo, hi))
  {
    var order := DealOrder(counts, lo, hi);
    forall r, q | 0 <= r < q < |order|
      ensures order[r] != order[q]
    {
      if order[r] == order[q] {
        Twice(order, r, q);
        OnceInRange(lo, hi, order[r]);
        assert false;
      }
    }
  }

  /** `foldOf` gives the pair at rank `r` of `order` the fold `a[r]`. */
  ghost predicate Follows(foldOf: seq<nat>, order: seq<int>, a: seq<nat>) {
    |a| == |order| && forall r :: 0 <= r < |order| ==> 0 <= order[r] < |foldOf| && foldOf[order[r]] == a[r]
  }

  lemma {:induction false} SumIsLoad(counts: seq<int>, foldOf: seq<nat>, order: seq<int>, a: seq<nat>, f: nat)
    requires forall r :: 0 <= r < |order| ==> 0 <= order[r] < |counts|
    requires Follows(foldOf, order, a)
    ensures SumBy(order, Share(counts, foldOf, f)) == Load(InOrder(counts, order), a, f)
  {
    if |order| > 0 {
      var k := |order| - 1;
      SumIsLoad(counts, foldOf, order[..k], a[..k], f);
      assert InOrder(counts, order)[..k] == InOrder(counts, order[..k]);
      assert order == order[..k] + [order[k]];
      SumByAppend(order[..k], order[k], Share(counts, foldOf, f));
    }
  }

  lemma FoldSumIsLoad(counts: seq<int>, foldOf: seq<nat>, lo: nat, hi: nat, a: seq<nat>, f: nat)
    requires lo <= hi <= |counts| && |a| == hi - lo
    requires Follows(foldOf, DealOrder(counts, lo, hi), a)
    ensures FoldSum(counts, foldOf, lo, hi, f) == Load(InOrder(counts, DealOrder(counts, lo, hi)), a, f)
  {
    SumIsLoad(counts, foldOf, DealOrder(counts, lo, hi), a, f);
    SumByPermutation(DealOrder(counts, lo, hi), Range(lo, hi), Share(counts, foldOf, f));
  }

  /** The largest count among the pairs `lo..hi`. */
  ghost predicate IsLargest(counts: seq<int>, lo: nat, hi: nat, largest: int) {
    && (exists i :: lo <= i < hi && i < |counts| && counts[i] == largest)
    && forall i :: lo <= i < hi && i < |counts| ==> counts[i] <= largest
  }

  function IsPositive(counts: seq<int>): int -> bool {
    (i: int) => 0 <= i < |counts| && counts[i] > 0
  }

  function Positives(counts: seq<int>, lo: nat, hi: nat): int
    requires lo <= hi
  {
    Count(Range(lo, hi), IsPositive(counts))
  }

  ghost predicate FoldSumsAtMost(counts: seq<int>, foldOf: seq<nat>, lo: nat, hi: nat, n: nat, m: int)
    requires lo <= hi
  {
    forall f :: 0 <= f < n ==> FoldSum(counts, foldOf, lo, hi, f) <= m
  }

  ghost predicate InFolds(foldOf: seq<nat>, lo: nat, hi: nat, n: nat) {
    hi <= |foldOf| && forall i :: lo <= i < hi ==> foldOf[i] < n
  }

  ghost predicate Holds(foldOf: seq<nat>, lo: nat, hi: nat, f: nat) {
    exists i :: lo <= i < hi && i < |foldOf| && foldOf[i] == f
  }

  ghost predicate AllHold(foldOf: seq<nat>, lo: nat, hi: nat, n: nat) {
    forall f: nat :: f < n ==> Holds(foldOf, lo, hi, f)
  }

  /** No two folds differ by more than one pair's own count. */
  ghost predicate Balanced(counts: seq<int>, foldOf: seq<nat>, lo: nat, hi: nat, n: nat)
    requires lo <= hi
  {
    forall f, g, largest :: 0 <= f < n && 0 <= g < n && IsLargest(counts, lo, hi, largest) ==>
      FoldSum(counts, foldOf, lo, hi, f) - FoldSum(counts, foldOf, lo, hi, g) <= largest
  }

  /** The fullest fold is within 4/3 - 1/(3n) of the fullest fold of every other assignment. */
  ghost predicate NearOptimal(counts: seq<int>, foldOf: seq<nat>, lo: nat, hi: nat, n: nat)
    requires lo <= hi
  {
    forall other, m, f :: 0 <= f < n && InFolds(other, lo, hi, n) && FoldSumsAtMost(counts, other, lo, hi, n, m) ==>
      3 * n * FoldSum(counts, foldOf, lo, hi, f) <= (4 * n - 1) * m
  }

  /** Every fold holds a pair exactly when at least n - 1 pairs count for something. */
  ghost predicate AllUsedIff(counts: seq<int>, foldOf: seq<nat>, lo: nat, hi: nat, n: nat)
    requires lo <= hi
  {
    hi - lo >= n >= 2 ==>
      (AllHold(foldOf, lo, hi, n) <==> Positives(counts, lo, hi) >= n - 1)
  }

  ghost predicate WellDealt(counts: seq<int>, foldOf: seq<nat>, lo: nat, hi: nat, n: nat)
    requires lo <= hi
  {
    && InFolds(foldOf, lo, hi, n)
    && Balanced(counts, foldOf, lo, hi, n)
    && NearOptimal(counts, foldOf, lo, hi, n)
    && AllUsedIff(counts, foldOf, lo, hi, n)
  }

  lemma {:induction false} PositivesInDescending(c: seq<int>, z: nat, p: int -> bool)
    requires z < |c| && Descending(c) && NonNegative(c)
    requires forall v :: p(v) <==> v > 0
    ensures c[z] > 0 <==> Count(c, p) >= z + 1
  {
    if z > 0 {
      if c[0] > 0 {
        PositivesInDescending(c[1..], z - 1, p);
      } else {
        CountBounds(c, p);
      }
    } else if c[0] > 0 {
      CountBounds(c[1..], p);
    } else {
      CountBounds(c, p);
    }
  }

  lemma {:induction false} CountThroughOrder(counts: seq<int>, order: seq<int>, p: int -> bool)
    requires forall r :: 0 <= r < |order| ==> 0 <= order[r] < |counts|
    requires forall v :: p(v) <==> v > 0
    ensures Count(order, IsPositive(counts)) == Count(InOrder(counts, order), p)
  {
    if |order| > 0 {
      CountThroughOrder(counts, order[1..], p);
      assert InOrder(counts, order)[1..] == InOrder(counts, order[1..]);
    }
  }

  /** The pairs `lo..hi` got the folds that `Dealt` gives their counts. */
  ghost predicate GotDealt(counts: seq<int>, foldOf: seq<nat>, lo: nat, hi: nat, n: nat)
    requires lo <= hi <= |counts| && n > 0
  {
    var order := DealOrder(counts, lo, hi);
    Follows(foldOf, order, Dealt(InOrder(counts, order), n))
  }

  lemma DealtIsInFolds(counts: seq<int>, foldOf: seq<nat>, lo: nat, hi: nat, n: nat)
    requires lo <= hi <= |counts| && hi <= |foldOf| && n > 0 && GotDealt(counts, foldOf, lo, hi, n)
    ensures InFolds(foldOf, lo, hi, n)
  {
    var order := DealOrder(counts, lo, hi);
    forall i | lo <= i < hi
      ensures foldOf[i] < n
    {
      assert i in order;
      var r :| 0 <= r < |order| && order[r] == i;
    }
  }

  lemma DealtIsBalanced(counts: seq<int>, foldOf: seq<nat>, lo: nat, hi: nat, n: nat)
    requires lo < hi <= |counts| && n > 0 && AllNonNegative(counts, lo, hi) && GotDealt(counts, foldOf, lo, hi, n)
    ensures Balanced(counts, foldOf, lo, hi, n)
  {
    DealOrderIsDescending(counts, lo, hi);
    var order := DealOrder(counts, lo, hi);
    var c := InOrder(counts, order);
    forall f, g, largest | 0 <= f < n && 0 <= g < n && IsLargest(counts, lo, hi, largest)
      ensures FoldSum(counts, foldOf, lo, hi, f) - FoldSum(counts, foldOf, lo, hi, g) <= largest
    {
      FoldSumIsLoad(counts, foldOf, lo, hi, Dealt(c, n), f);
      FoldSumIsLoad(counts, foldOf, lo, hi, Dealt(c, n), g);
      LargestItemBoundsTheGap(c, n, f, g);
      assert c[0] == counts[order[0]];
    }
  }

  lemma DealtIsNearOptimal(counts: seq<int>, foldOf: seq<nat>, lo: nat, hi: nat, n: nat)
    requires lo <= hi <= |counts| && n > 0 && AllNonNegative(counts, lo, hi) && GotDealt(counts, foldOf, lo, hi, n)
    ensures NearOptimal(counts, foldOf, lo, hi, n)
  {
    DealOrderIsDescending(counts, lo, hi);
    var order := DealOrder(counts, lo, hi);
    var c := InOrder(counts, order);
    forall other, m, f | 0 <= f < n && InFolds(other, lo, hi, n) && FoldSumsAtMost(counts, other, lo, hi, n, m)
      ensures 3 * n * FoldSum(counts, foldOf, lo, hi, f) <= (4 * n - 1) * m
    {
      OtherAssignment(counts, other, lo, hi, n, m);
      FoldSumIsLoad(counts, foldOf, lo, hi, Dealt(c, n), f);
      WithinFourThirdsOfAny(c, InOrder(other, order), n, m, f);
    }
  }

  lemma DealtUsesAllIff(counts: seq<int>, foldOf: seq<nat>, lo: nat, hi: nat, n: nat)
    requires lo <= hi <= |counts| && hi <= |foldOf| && n > 0
    requires AllNonNegative(counts, lo, hi) && GotDealt(counts, foldOf, lo, hi, n)
    ensures AllUsedIff(counts, foldOf, lo, hi, n)
  {
    if hi - lo >= n >= 2 {
      DealOrderIsDescending(counts, lo, hi);
      var order := DealOrder(counts, lo, hi);
      var c := InOrder(counts, order);
      EveryFoldUsedIff(c, n);
      UsedFolds(foldOf, order, Dealt(c, n), lo, hi, n);
      var p := (v: int) => v > 0;
      PositivesInDescending(c, n - 2, p);
      CountThroughOrder(counts, order, p);
      CountByPermutation(order, Range(lo, hi), IsPositive(counts));
      assert Positives(counts, lo, hi) >= n - 1 <==> c[n - 2] > 0;
    }
  }

  lemma DealtIsWellDealt(counts: seq<int>, foldOf: seq<nat>, lo: nat, hi: nat, n: nat)
    requires lo < hi <= |counts| && hi <= |foldOf| && n > 0
    requires AllNonNegative(counts, lo, hi) && GotDealt(counts, foldOf, lo, hi, n)
    ensures WellDealt(counts, foldOf, lo, hi, n)
  {
    DealtIsInFolds(counts, foldOf, lo, hi, n);
    DealtIsBalanced(counts, foldOf, lo, hi, n);
    DealtIsNearOptimal(counts, foldOf, lo, hi, n);
    DealtUsesAllIff(counts, foldOf, lo, hi, n);
  }

  lemma OtherAssignment(counts: seq<int>, other: seq<nat>, lo: nat, hi: nat, n: nat, m: int)
    requires lo <= hi <= |counts| && InFolds(other, lo, hi, n) && FoldSumsAtMost(counts, other, lo, hi, n, m)
    ensures var order := DealOrder(counts, lo, hi);
            && Assigns(InOrder(other, order), n)
            && LoadsAtMost(InOrder(counts, order), InOrder(other, order), n, m)
  {
    var order := DealOrder(counts, lo, hi);
    var c, o := InOrder(counts, order), InOrder(other, order);
    forall f | 0 <= f < n
      ensures Load(c, o, f) <= m
    {
      FoldSumIsLoad(counts, other, lo, hi, o, f);
      assert FoldSum(counts, other, lo, hi, f) <= m;
    }
  }

  lemma UsedFolds(foldOf: seq<nat>, order: seq<int>, a: seq<nat>, lo: nat, hi: nat, n: nat)
    requires Follows(foldOf, order, a) && hi <= |foldOf|
    requires forall r :: 0 <= r < |order| ==> lo <= order[r] < hi
    requires forall i :: lo <= i < hi ==> i in order
    ensures AllHold(foldOf, lo, hi, n) <==> UsesAll(a, n)
  {
    forall f: nat | f < n
      ensures Holds(foldOf, lo, hi, f) <==> f in a
    {
      if Holds(foldOf, lo, hi, f) {
        var i :| lo <= i < hi && foldOf[i] == f;
        assert i in order;
        var r :| 0 <= r < |order| && order[r] == i;
        assert a[r] == f;
      }
      if f in a {
        var r :| 0 <= r < |a| && a[r] == f;
        assert foldOf[order[r]] == f;
      }
    }
  }

  ghost predicate AreLoads(load: seq<int>, c: seq<int>, a: seq<nat>) {
    |c| == |a| && forall f: nat :: f < |load| ==> load[f] == Load(c, a, f)
  }

  lemma DealtWithLoads(c: seq<int>, x: int, n: nat, load: seq<int>)
    requires n == |load| > 0 && AreLoads(load, c, Dealt(c, n))
    ensures var fold := LeastLoaded(load);
            && Dealt(c + [x], n) == Dealt(c, n) + [fold]
            && AreLoads(load[fold := load[fold] + x], c + [x], Dealt(c, n) + [fold])
  {
    var fold, a := LeastLoaded(load), Dealt(c, n);
    assert (c + [x])[..|c|] == c && (a + [fold])[..|a|] == a;
    assert load == Loads(c, a, n);
  }

  lemma FollowsOneMore(foldOf: seq<nat>, order: seq<int>, a: seq<nat>, r: nat, fold: nat)
    requires r < |order| && Follows(foldOf, order[..r], a) && 0 <= order[r] < |foldOf|
    requires forall q :: 0 <= q < r ==> order[q] != order[r]
    ensures Follows(foldOf[order[r] := fold], order[..r + 1], a + [fold])
  {
    forall q | 0 <= q < r
      ensures foldOf[order[q]] == a[q]
    {
      assert order[..r][q] == order[q];
    }
  }

  predicate SameOutside(s: seq<nat>, t: seq<nat>, lo: nat, hi: nat) {
    |s| == |t| && forall i :: 0 <= i < |s| && !(lo <= i < hi) ==> s[i] == t[i]
  }

  predicate Indexes(order: seq<int>, lo: nat, hi: nat) {
    forall r :: 0 <= r < |order| ==> lo <= order[r] < hi
  }

  /** The state of the dealing loop after the first `r` pairs of `order`. */
  ghost predicate DealtSoFar(foldOf: seq<nat>, load: seq<int>, order: seq<int>, c: seq<int>, n: nat, r: nat)
    requires |c| == |order|
  {
    && 0 < n == |load| && r <= |c|
    && AreLoads(load, c[..r], Dealt(c[..r], n))
    && Follows(foldOf, order[..r], Dealt(c[..r], n))
  }

  lemma DealStep(foldOf: seq<nat>, load: seq<int>, order: seq<int>, c: seq<int>, n: nat, r: nat)
    requires |c| == |order| && r < |c| && DealtSoFar(foldOf, load, order, c, n, r)
    requires 0 <= order[r] < |foldOf| && forall q :: 0 <= q < r ==> order[q] != order[r]
    ensures var fold := LeastLoaded(load);
            DealtSoFar(foldOf[order[r] := fold], load[fold := load[fold] + c[r]], order, c, n, r + 1)
  {
    assert c[..r + 1] == c[..r] + [c[r]];
    DealtWithLoads(c[..r], c[r], n, load);
    FollowsOneMore(foldOf, order, Dealt(c[..r], n), r, LeastLoaded(load));
  }

  /** The inner `_deal`, given the dealing order: writes `foldOf` in place, nothing outside `lo..hi`. */
  method DealInOrder(foldOf: array<nat>, order: seq<int>, counts: seq<int>, n: nat, ghost lo: nat, ghost hi: nat)
    requires lo <= hi <= |counts| && hi <= foldOf.Length && n > 0
    requires Indexes(order, lo, hi) && NoDuplicates(order)
    modifies foldOf
    ensures SameOutside(foldOf[..], old(foldOf[..]), lo, hi)
    ensures Follows(foldOf[..], order, Dealt(InOrder(counts, order), n))
  {
    var load := seq(n, _ => 0);
    ghost var c := InOrder(counts, order);
    for r := 0 to |order|
      invariant DealtSoFar(foldOf[..], load, order, c, n, r)
      invariant SameOutside(foldOf[..], old(foldOf[..]), lo, hi)
    {
      DealStep(foldOf[..], load, order, c, n, r);
      ghost var now := foldOf[..][order[r] := LeastLoaded(load)];
      var i := order[r];
      var fold := LeastLoaded(load);
      foldOf[i] := fold;
      load := load[fold := load[fold] + counts[i]];
      assert foldOf[..] == now;
    }
    assert c[..|order|] == c && order[..|order|] == order;
  }

  /** The inner `_deal` for the pairs `lo..hi`. */
  method Deal(foldOf: array<nat>, lo: nat, hi: nat, counts: seq<int>, n: nat)
    requires lo <= hi <= |counts| && hi <= foldOf.Length && n > 0
    modifies foldOf
    ensures SameOutside(foldOf[..], old(foldOf[..]), lo, hi)
    ensures GotDealt(counts, foldOf[..], lo, hi, n)
  {
    DealOrderIsDistinct(counts, lo, hi);
    DealInOrder(foldOf, DealOrder(counts, lo, hi), counts, n, lo, hi);
  }

  /** What is not refused: enough folds, enough pairs on either side, and no negative count. */
  predicate PassesChecks(positivePtCounts: seq<int>, ptCounts: seq<int>, nPositivePairs: nat, nFolds: int) {
    && nFolds >= 2 && |positivePtCounts| == nPositivePairs
    && nFolds <= nPositivePairs && nFolds <= |ptCounts| - nPositivePairs
    && AllNonNegative(positivePtCounts, 0, nPositivePairs) && AllNonNegative(ptCounts, 0, |ptCounts|)
  }

  /**
   Three positive pairs counting 5, 0 and 0 pass the checks for three folds, whatever three or more
   negative pairs come with them, and however they are dealt, some fold gets none of the three.
   */
  lemma ZeroCountsLeaveAFoldEmpty(ptCounts: seq<int>, foldOf: seq<nat>)
    requires |ptCounts| == |foldOf| >= 6 && AllNonNegative(ptCounts, 0, |ptCounts|)
    requires WellDealt([5, 0, 0], foldOf, 0, 3, 3)
    ensures PassesChecks([5, 0, 0], ptCounts, 3, 3) && !AllHold(foldOf, 0, 3, 3) && Dealt([5, 0, 0], 3) == [0, 1, 1]
  {
    FiveZeroZero();
    assert Range(0, 3) == [0, 1, 2];
    assert Positives([5, 0, 0], 0, 3) == 1;
  }

  lemma FiveZeroZero()
    ensures Dealt([5, 0, 0], 3) == [0, 1, 1]
  {
    OneThenZeros([5, 0, 0], 3);
  }

  lemma OneThenZeros(c: seq<int>, n: nat)
    requires |c| == 3 && n >= 2 && c[0] > 0 && c[1] == 0 && c[2] == 0
    ensures Dealt(c, n) == [0, 1, 1]
  {
    var a := Dealt(c, n);
    ZeroItemsPileUp(c, n, 1);
    DealtPrefix(c, n, 1);
    PositiveItemsOpenFolds(c[..1], n);
    assert a[0] == a[..1][0] == 0;
  }

  /** `stratified_pair_folds`: positives are dealt by positive rows, negatives by all rows. */
  method StratifiedPairFolds(positivePtCounts: seq<int>, ptCounts: seq<int>, nPositivePairs: nat, nFolds: int)
    returns (r: Result<seq<nat>>)
    ensures r.Ok? <==> PassesChecks(positivePtCounts, ptCounts, nPositivePairs, nFolds)
    ensures r.Ok? ==>
            && |r.value| == |ptCounts|
            && WellDealt(positivePtCounts, r.value, 0, nPositivePairs, nFolds)
            && WellDealt(ptCounts, r.value, nPositivePairs, |ptCounts|, nFolds)
  {
    var nPairs := |ptCounts|;
    if nFolds < 2 { return Err("n_folds must be >= 2"); }
    if |positivePtCounts| != nPositivePairs { return Err("positive_pt_counts length"); }
    if nPositivePairs < nFolds { return Err("fewer positive pairs than folds"); }
    if nPairs - nPositivePairs < nFolds { return Err("fewer negative pairs than folds"); }
    if !AllNonNegative(positivePtCounts, 0, nPositivePairs) || !AllNonNegative(ptCounts, 0, nPairs) {
      return Err("negative count");
    }
    var foldOf := new nat[nPairs](_ => 0);
    Deal(foldOf, 0, nPositivePairs, positivePtCounts, nFolds);
    ghost var first := foldOf[..];
    Deal(foldOf, nPositivePairs, nPairs, ptCounts, nFolds);
    assert forall i :: 0 <= i < nPositivePairs ==> foldOf[..][i] == first[i];
    assert GotDealt(positivePtCounts, foldOf[..], 0, nPositivePairs, nFolds);
    DealtIsWellDealt(positivePtCounts, foldOf[..], 0, nPositivePairs, nFolds);
    DealtIsWellDealt(ptCounts, foldOf[..], nPositivePairs, nPairs, nFolds);
    r := Ok(foldOf[..]);
  }
}
