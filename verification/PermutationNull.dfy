/** The permutation-null fit threshold: relational_search.py. */
module PermutationNull {
  import opened Lists
  import opened Orders
  import opened Scorer

  /*
   `kfold_scores(score="f1")`, and `permutation_null_threshold`, which computes the same pool
   maxima on shuffled labels from set sizes.
   */

  type Body = seq<string>

  // ---------------------------------------------------------------- candidate bodies

  /** `body_cover`: the intersection of the named relations' fact sets. */
  function BodyCover<F(==)>(body: Body, relations: map<string, seq<F>>): set<F>
    requires |body| > 0 && forall name :: name in body ==> name in relations
  {
    var first := set x | x in relations[body[0]];
    if |body| == 1 then first else first * BodyCover(body[1..], relations)
  }

  /** `make_predict_clause` and `body_cover` agree: a fact is covered exactly when every relation has it. */
  lemma {:induction false} CoverIsMembership<F>(body: Body, relations: map<string, seq<F>>, fact: F)
    requires |body| > 0 && forall name :: name in body ==> name in relations
    ensures fact in BodyCover(body, relations) <==> forall name :: name in body ==> fact in relations[name]
  {
    if |body| > 1 {
      CoverIsMembership(body[1..], relations, fact);
      assert forall name :: name in body <==> name == body[0] || name in body[1..];
    } else {
      assert forall name :: name in body <==> name == body[0];
    }
  }

  // ---------------------------------------------------------------- names and bodies in order

  ghost predicate AscendingNames(s: seq<string>) {
    Ascends(StringLess(), s)
  }

  /** `sorted(relations)`, whatever the order the names are listed in. */
  function SortedNames(listing: seq<string>): (r: seq<string>)
    requires NoDuplicates(listing)
    ensures AscendingNames(r) && forall y :: y in r <==> y in listing
  {
    StringsAreOrdered();
    SortBy(StringLess(), listing)
  }

  /** Tuples of names in their order. */
  function BodyLess(): (Body, Body) -> bool {
    Lexicographic(StringLess())
  }

  lemma BodiesAreOrdered()
    ensures Transitive(BodyLess()) && Linear(BodyLess())
  {
    StringsAreOrdered();
    LexicographicIsOrder(StringLess());
  }

  // ---------------------------------------------------------------- the combinations

  /** `itertools.combinations`, in its order. */
  function Combinations(names: seq<string>, size: nat): seq<Body> {
    if size == 0 then [[]]
    else if |names| == 0 then []
    else PrependAll(names[0], Combinations(names[1..], size - 1)) + Combinations(names[1..], size)
  }

  function PrependAll(name: string, bodies: seq<Body>): (r: seq<Body>)
    ensures |r| == |bodies| && forall k :: 0 <= k < |r| ==> r[k] == [name] + bodies[k]
  {
    seq(|bodies|, k requires 0 <= k < |bodies| => [name] + bodies[k])
  }

  /** `body` lists some of the names in their order. */
  predicate PickedFrom(body: Body, names: seq<string>) {
    if |body| == 0 then true
    else if |names| == 0 then false
    else (body[0] == names[0] && PickedFrom(body[1..], names[1..])) || PickedFrom(body, names[1..])
  }

  lemma Prepended(name: string, bodies: seq<Body>, body: Body)
    ensures body in PrependAll(name, bodies) <==> |body| > 0 && body[0] == name && body[1..] in bodies
    ensures NoDuplicates(bodies) ==> NoDuplicates(PrependAll(name, bodies))
  {
    var all := PrependAll(name, bodies);
    assert forall k :: 0 <= k < |all| ==> all[k][0] == name && all[k][1..] == bodies[k];
    if |body| > 0 && body[0] == name && body[1..] in bodies {
      var k :| 0 <= k < |bodies| && bodies[k] == body[1..];
      assert all[k] == body;
    }
  }

  /** The combinations are exactly the ways to pick `size` names in order. */
  lemma {:induction false} CombinationsExact(names: seq<string>, size: nat, body: Body)
    ensures body in Combinations(names, size) <==> |body| == size && PickedFrom(body, names)
    decreases |names|
  {
    if size > 0 && |names| > 0 {
      var rest := names[1..];
      var first, others := PrependAll(names[0], Combinations(rest, size - 1)), Combinations(rest, size);
      CombinationsExact(rest, size, body);
      Prepended(names[0], Combinations(rest, size - 1), body);
      assert Combinations(names, size) == first + others;
      assert body in first + others <==> body in first || body in others;
      if |body| > 0 {
        CombinationsExact(rest, size - 1, body[1..]);
      }
    }
  }

  lemma {:induction false} PickedNames(body: Body, names: seq<string>)
    requires PickedFrom(body, names)
    ensures forall name :: name in body ==> name in names
    decreases |names|
  {
    if |body| > 0 {
      if body[0] == names[0] && PickedFrom(body[1..], names[1..]) {
        PickedNames(body[1..], names[1..]);
        assert body == [body[0]] + body[1..];
      } else {
        PickedNames(body, names[1..]);
      }
    }
  }

  /** From names in order, exactly the ascending bodies can be picked. */
  lemma {:induction false} PickedIffAscending(body: Body, names: seq<string>)
    requires AscendingNames(names)
    ensures PickedFrom(body, names) <==> AscendingNames(body) && forall name :: name in body ==> name in names
    decreases |names|
  {
    assert |body| > 0 ==> body[0] in body;
    if |body| > 0 && |names| > 0 {
      var head, rest := names[0], names[1..];
      assert forall name :: name in names <==> name == head || name in rest;
      assert forall name :: name in body <==> name == body[0] || name in body[1..];
      PickedIffAscending(body[1..], rest);
      PickedIffAscending(body, rest);
      StringsAreOrdered();
      assert forall name :: name in rest ==> StringLess()(head, name) && name != head;
      if body[0] == head {
        HeadPicked(body, rest);
      } else if AscendingNames(body) && forall name :: name in body ==> name in names {
        HeadSkipped(body, head, rest);
      }
    }
  }

  lemma HeadPicked(body: Body, rest: seq<string>)
    requires |body| > 0 && forall name :: name in rest ==> StringLess()(body[0], name) && name != body[0]
    ensures AscendingNames(body) && (forall name :: name in body ==> name == body[0] || name in rest)
            <==> AscendingNames(body[1..]) && forall name :: name in body[1..] ==> name in rest
  {
    var more := body[1..];
    assert body == [body[0]] + more;
    if AscendingNames(body) && forall name :: name in body ==> name == body[0] || name in rest {
      forall name | name in more
        ensures name in rest
      {
        var i :| 0 <= i < |more| && more[i] == name;
        assert StringLess()(body[0], body[i + 1]);
        StringsAreOrdered();
      }
    }
    if AscendingNames(more) && forall name :: name in more ==> name in rest {
      AscendingHead(StringLess(), body[0], more);
    }
  }

  lemma HeadSkipped(body: Body, head: string, rest: seq<string>)
    requires |body| > 0 && body[0] != head && AscendingNames(body)
    requires forall name :: name in body ==> name == head || name in rest
    requires forall name :: name in rest ==> StringLess()(head, name)
    ensures forall name :: name in body ==> name in rest
  {
    assert body[0] in body;
    forall name | name in body
      ensures name in rest
    {
      var i :| 0 <= i < |body| && body[i] == name;
      if i > 0 {
        StringsAreOrdered();
        assert StringLess()(head, body[0]) && StringLess()(body[0], name);
      }
    }
  }

  /** The combinations of names in order come in order themselves. */
  lemma {:induction false} CombinationsAscend(names: seq<string>, size: nat)
    requires AscendingNames(names)
    ensures Ascends(BodyLess(), Combinations(names, size))
    decreases |names|
  {
    if size > 0 && |names| > 0 {
      var less, rest := Combinations(names[1..], size - 1), Combinations(names[1..], size);
      CombinationsAscend(names[1..], size - 1);
      CombinationsAscend(names[1..], size);
      PrependedAscend(names[0], less);
      var first := PrependAll(names[0], less);
      forall i, k | 0 <= i < |first| && 0 <= k < |rest|
        ensures BodyLess()(first[i], rest[k])
      {
        assert rest[k] in rest;
        CombinationsExact(names[1..], size, rest[k]);
        PickedNames(rest[k], names[1..]);
        assert rest[k][0] in rest[k];
        assert first[i][0] == names[0];
      }
    }
  }

  lemma PrependedAscend(name: string, bodies: seq<Body>)
    requires Ascends(BodyLess(), bodies)
    ensures Ascends(BodyLess(), PrependAll(name, bodies))
  {
    var all := PrependAll(name, bodies);
    forall i, j | 0 <= i < j < |all|
      ensures BodyLess()(all[i], all[j])
    {
      assert all[i][1..] == bodies[i] && all[j][1..] == bodies[j];
    }
  }

  /** The bodies of the given sizes that cover something. */
  function Coverable<F(==)>(relations: map<string, seq<F>>): Body -> bool {
    (body: Body) =>
      |body| > 0 && (forall name :: name in body ==> name in relations) && BodyCover(body, relations) != {}
  }

  /** The bodies of one size that are kept, in the order of the combinations. */
  function Survivors<F(==)>(names: seq<string>, relations: map<string, seq<F>>, size: nat): seq<Body> {
    Filter(Combinations(names, size), Coverable(relations))
  }

  /** The combinations of one size: those that cover something are kept, the others counted. */
  method SurvivorsOfSize<F(==)>(names: seq<string>, relations: map<string, seq<F>>, size: nat)
    returns (bodies: seq<Body>, skipped: nat)
    requires size > 0 && forall name :: name in names ==> name in relations
    ensures bodies == Survivors(names, relations, size)
    ensures skipped + |bodies| == |Combinations(names, size)|
  {
    bodies, skipped := [], 0;
    var all := Combinations(names, size);
    for k := 0 to |all|
      invariant bodies == Filter(all[..k], Coverable(relations)) && skipped + |bodies| == k
    {
      FilterStep(all, k, Coverable(relations));
      CombinationsExact(names, size, all[k]);
      PickedNames(all[k], names);
      if BodyCover(all[k], relations) == {} {
        skipped := skipped + 1;
      } else {
        bodies := bodies + [all[k]];
      }
    }
    assert all[..|all|] == all;
  }

  /** A body in order that covers something. */
  ghost predicate Listable<F>(b: Body, relations: map<string, seq<F>>) {
    AscendingNames(b) && Coverable(relations)(b)
  }

  /** Every body of two or, if asked for, three relations that covers something; smaller ones first, then in order. */
  ghost predicate IsPool<F>(pool: seq<Body>, relations: map<string, seq<F>>, maxLiterals: int) {
    && (forall b :: b in pool <==> 2 <= |b| <= maxLiterals && Listable(b, relations))
    && Ascends(PoolLess(), pool)
  }

  /** Smaller bodies first, those of one size in order. */
  function PoolLess(): (Body, Body) -> bool {
    (a: Body, b: Body) => |a| < |b| || (|a| == |b| && BodyLess()(a, b))
  }

  lemma PoolIsOrdered()
    ensures Transitive(PoolLess()) && Linear(PoolLess())
  {
    BodiesAreOrdered();
  }

  /** There is only one such pool. */
  lemma PoolIsUnique<F>(pool: seq<Body>, other: seq<Body>, relations: map<string, seq<F>>, maxLiterals: int)
    requires IsPool(pool, relations, maxLiterals) && IsPool(other, relations, maxLiterals)
    ensures pool == other && NoDuplicates(pool)
  {
    PoolIsOrdered();
    AscendingIsUnique(PoolLess(), pool, other);
    AscendingIsDistinct(PoolLess(), pool);
  }

  /**
   `enumerate_bodies`, with the relation names listed in any order: exactly the pool, in its order;
   the combinations that cover nothing are counted by size.
   */
  method EnumerateBodies<F(==)>(listing: seq<string>, relations: map<string, seq<F>>, maxLiterals: int)
    returns (r: Result<seq<Body>>, skippedTwo: nat, skippedThree: nat)
    requires NoDuplicates(listing) && forall name :: name in listing <==> name in relations
    ensures r.Ok? <==> maxLiterals == 2 || maxLiterals == 3
    ensures r.Ok? ==> IsPool(r.value, relations, maxLiterals) && NoDuplicates(r.value)
    ensures r.Ok? ==> skippedTwo == Vacuous(SortedNames(listing), relations, 2)
    ensures r.Ok? ==> skippedThree == if maxLiterals == 3 then Vacuous(SortedNames(listing), relations, 3) else 0
  {
    skippedTwo, skippedThree := 0, 0;
    if maxLiterals != 2 && maxLiterals != 3 {
      return Err("max_literals must be 2 or 3"), 0, 0;
    }
    var names := SortedNames(listing);
    var two, three: seq<Body> := [], [];
    two, skippedTwo := SurvivorsOfSize(names, relations, 2);
    if maxLiterals == 3 {
      three, skippedThree := SurvivorsOfSize(names, relations, 3);
    }
    SurvivorsMakePool(names, relations, maxLiterals);
    PoolIsUnique(two + three, two + three, relations, maxLiterals);
    r := Ok(two + three);
  }

  /** The combinations of one size that cover nothing. */
  function Vacuous<F(==)>(names: seq<string>, relations: map<string, seq<F>>, size: nat): int {
    |Combinations(names, size)| - |Survivors(names, relations, size)|
  }

  lemma SurvivorsMakePool<F>(names: seq<string>, relations: map<string, seq<F>>, maxLiterals: int)
    requires AscendingNames(names) && (forall name :: name in names <==> name in relations) && 2 <= maxLiterals <= 3
    ensures IsPool(Survivors(names, relations, 2)
                   + (if maxLiterals == 3 then Survivors(names, relations, 3) else []), relations, maxLiterals)
  {
    SurvivorsExact(names, relations, 2);
    if maxLiterals == 3 {
      SurvivorsExact(names, relations, 3);
      SizesMakePool(Survivors(names, relations, 2), Survivors(names, relations, 3), relations);
    } else {
      assert Survivors(names, relations, 2) + [] == Survivors(names, relations, 2);
    }
  }

  /** The bodies of this size that are to be listed. */
  ghost predicate AllOfSize<F>(bodies: seq<Body>, relations: map<string, seq<F>>, size: nat) {
    forall b :: b in bodies <==> |b| == size && Listable(b, relations)
  }

  lemma SizesMakePool<F>(two: seq<Body>, three: seq<Body>, relations: map<string, seq<F>>)
    requires Ascends(BodyLess(), two) && OfSize(two, 2) && Ascends(BodyLess(), three) && OfSize(three, 3)
    requires AllOfSize(two, relations, 2) && AllOfSize(three, relations, 3)
    ensures IsPool(two + three, relations, 3)
  {
    SizesInOrder(two, three);
  }

  lemma SizesInOrder(two: seq<Body>, three: seq<Body>)
    requires Ascends(BodyLess(), two) && OfSize(two, 2) && Ascends(BodyLess(), three) && OfSize(three, 3)
    ensures Ascends(PoolLess(), two + three)
  {
  }

  ghost predicate OfSize(bodies: seq<Body>, size: nat) {
    forall k :: 0 <= k < |bodies| ==> |bodies[k]| == size
  }

  lemma SurvivorsExact<F>(names: seq<string>, relations: map<string, seq<F>>, size: nat)
    requires AscendingNames(names) && forall name :: name in names <==> name in relations
    ensures var bodies := Survivors(names, relations, size);
            && Ascends(BodyLess(), bodies) && OfSize(bodies, size)
            && AllOfSize(bodies, relations, size)
  {
    var all, bodies := Combinations(names, size), Survivors(names, relations, size);
    CombinationsAscend(names, size);
    FilterAscends(BodyLess(), all, Coverable(relations));
    FilterMembers(all, Coverable(relations));
    forall b: Body
      ensures b in bodies <==> |b| == size && Listable(b, relations)
    {
      CombinationsExact(names, size, b);
      PickedIffAscending(b, names);
    }
    assert forall k :: 0 <= k < |bodies| ==> bodies[k] in bodies;
  }

  // ---------------------------------------------------------------- what is computed: mean F1 over measurable folds

  /** The assignment of `n` facts to folds. */
  datatype Split = Split(folds: nat, foldOf: seq<nat>) {
    predicate Valid() {
      forall i :: 0 <= i < |foldOf| ==> foldOf[i] < folds
    }

    function Held(f: nat): set<nat> {
      set i | 0 <= i < |foldOf| && foldOf[i] == f
    }
  }

  /** The positions where a list of flags is True. */
  function Trues(flags: seq<bool>): set<nat> {
    set i | 0 <= i < |flags| && flags[i]
  }

  /** The facts that a body covers, as positions. */
  function Hits<F(==)>(facts: seq<F>, cover: set<F>): set<nat> {
    set i | 0 <= i < |facts| && facts[i] in cover
  }

  /** The F1 of predicting `hits` in a fold where `positives` are the gold positives. */
  function FoldF1(hits: set<nat>, positives: set<nat>, held: set<nat>): real {
    F1FromCounts(|hits * positives * held|, |(hits - positives) * held|, |(positives - hits) * held|)
  }

  /** The share of the facts held out whose membership matches their label; nothing is said of an empty fold. */
  function FoldAccuracy(hits: set<nat>, positives: set<nat>, held: set<nat>): real {
    if |held| == 0 then 0.0 else (|hits * positives * held| + |held - hits - positives|) as real / |held| as real
  }

  /** The metric that is averaged over the folds. */
  datatype Metric = Accuracy | F1

  function FoldValue(metric: Metric, hits: set<nat>, positives: set<nat>, held: set<nat>): real {
    if metric.F1? then FoldF1(hits, positives, held) else FoldAccuracy(hits, positives, held)
  }

  function AllFolds(split: Split): (folds: seq<nat>)
    ensures |folds| == split.folds && forall f :: 0 <= f < |folds| ==> folds[f] == f
  {
    seq(split.folds, f requires 0 <= f < split.folds => f)
  }

  function SumAccuracy(split: Split, hits: set<nat>, positives: set<nat>, folds: seq<nat>): real
    decreases |folds|
  {
    if |folds| == 0 then 0.0
    else
      var last := |folds| - 1;
      SumAccuracy(split, hits, positives, folds[..last]) + FoldAccuracy(hits, positives, split.Held(folds[last]))
  }

  function SumOf(metric: Metric, split: Split, hits: set<nat>, positives: set<nat>, folds: seq<nat>): real {
    if metric.F1? then SumF1(split, hits, positives, folds) else SumAccuracy(split, hits, positives, folds)
  }

  /** The mean over all folds. */
  function MeanAccuracy(split: Split, hits: set<nat>, positives: set<nat>): real {
    if split.folds == 0 then 0.0 else SumAccuracy(split, hits, positives, AllFolds(split)) / split.folds as real
  }

  function MeanOf(metric: Metric, split: Split, hits: set<nat>, positives: set<nat>): real {
    if metric.F1? then MeanF1(split, hits, positives) else MeanAccuracy(split, hits, positives)
  }

  /** Every fold holds something out. */
  ghost predicate FoldsHold(split: Split) {
    forall f: nat :: f < split.folds ==> split.Held(f) != {}
  }

  /** The folds below `k` that hold out a positive, in order. */
  function Measurable(split: Split, positives: set<nat>, k: nat): seq<nat> {
    if k == 0 then []
    else Measurable(split, positives, k - 1) + if positives * split.Held(k - 1) != {} then [k - 1] else []
  }

  function SumF1(split: Split, hits: set<nat>, positives: set<nat>, folds: seq<nat>): real {
    if |folds| == 0 then 0.0
    else
      var last := |folds| - 1;
      SumF1(split, hits, positives, folds[..last]) + FoldF1(hits, positives, split.Held(folds[last]))
  }

  /** The mean over the folds that can measure recall; 0 when there is none. */
  function MeanF1(split: Split, hits: set<nat>, positives: set<nat>): real {
    var folds := Measurable(split, positives, split.folds);
    if |folds| == 0 then 0.0 else SumF1(split, hits, positives, folds) / |folds| as real
  }

  function Best(scores: seq<real>): real {
    if |scores| == 0 then 0.0
    else
      var last := |scores| - 1;
      var before := Best(scores[..last]);
      if scores[last] > before then scores[last] else before
  }

  /** `Best` is the maximum of a non-empty list of scores that are not negative. */
  lemma {:induction false} BestIsMaximum(scores: seq<real>)
    requires |scores| > 0 && forall k :: 0 <= k < |scores| ==> scores[k] >= 0.0
    ensures forall k :: 0 <= k < |scores| ==> scores[k] <= Best(scores)
    ensures exists k :: 0 <= k < |scores| && scores[k] == Best(scores)
    decreases |scores|
  {
    var last := |scores| - 1;
    if last > 0 {
      BestIsMaximum(scores[..last]);
      var k :| 0 <= k < last && scores[..last][k] == Best(scores[..last]);
      assert scores[k] == Best(scores) || scores[last] == Best(scores);
    } else {
      assert Best(scores[..last]) == 0.0;
    }
  }

  // ---------------------------------------------------------------- the folds as lists

  /** `[i for i in range(n) if fold_of[i] == fold]`, up to `k`. */
  function HeldIds(split: Split, f: nat, k: nat): (ids: seq<nat>)
    requires k <= |split.foldOf|
    ensures forall j :: 0 <= j < |ids| ==> ids[j] < k && split.foldOf[ids[j]] == f
    ensures forall i, j :: 0 <= i < j < |ids| ==> ids[i] < ids[j]
    ensures forall i :: 0 <= i < k && split.foldOf[i] == f ==> i in ids
  {
    if k == 0 then [] else HeldIds(split, f, k - 1) + if split.foldOf[k - 1] == f then [k - 1] else []
  }

  function FoldIds(split: Split, f: nat): seq<nat> {
    HeldIds(split, f, |split.foldOf|)
  }

  function Members(ids: seq<nat>): set<nat> {
    set i | i in ids
  }

  lemma FoldIdsAreHeld(split: Split, f: nat)
    ensures Members(FoldIds(split, f)) == split.Held(f)
  {
  }

  function CellSet(pred: seq<bool>, gold: seq<bool>, ids: seq<nat>, p: bool, g: bool): set<nat>
    requires |pred| == |gold|
  {
    set i | i in ids && i < |pred| && pred[i] == p && gold[i] == g
  }

  /** Counting along a list without repetition is the size of a set. */
  lemma {:induction false} TallyIsCardinality(pred: seq<bool>, gold: seq<bool>, ids: seq<nat>, p: bool, g: bool)
    requires |pred| == |gold| && forall j :: 0 <= j < |ids| ==> ids[j] < |pred|
    requires forall i, j :: 0 <= i < j < |ids| ==> ids[i] < ids[j]
    ensures Tally(Gather(pred, ids), Gather(gold, ids), p, g) == |CellSet(pred, gold, ids, p, g)|
    decreases |ids|
  {
    if |ids| > 0 {
      var last := |ids| - 1;
      TallyIsCardinality(pred, gold, ids[..last], p, g);
      var p', g' := Gather(pred, ids), Gather(gold, ids);
      assert p'[..last] == Gather(pred, ids[..last]) && g'[..last] == Gather(gold, ids[..last]);
      assert p'[last] == pred[ids[last]] && g'[last] == gold[ids[last]];
      CellGrows(pred, gold, ids[..last], ids[last], p, g);
      assert ids == ids[..last] + [ids[last]];
    }
  }

  lemma CellGrows(pred: seq<bool>, gold: seq<bool>, ids: seq<nat>, i: nat, p: bool, g: bool)
    requires |pred| == |gold| && i < |pred| && i !in ids
    ensures |CellSet(pred, gold, ids + [i], p, g)|
            == |CellSet(pred, gold, ids, p, g)| + if pred[i] == p && gold[i] == g then 1 else 0
  {
    var before := CellSet(pred, gold, ids, p, g);
    assert CellSet(pred, gold, ids + [i], p, g) == if pred[i] == p && gold[i] == g then before + {i} else before;
  }

  /** `prf1` on a fold's lists is the F1 of the fold's sets. */
  lemma ListF1IsSetF1(split: Split, pred: seq<bool>, gold: seq<bool>, f: nat)
    requires |pred| == |gold| == |split.foldOf|
    ensures var ids := FoldIds(split, f);
            var p, g := Gather(pred, ids), Gather(gold, ids);
            F1FromCounts(Tally(p, g, true, true), Tally(p, g, true, false), Tally(p, g, false, true))
            == FoldF1(Trues(pred), Trues(gold), split.Held(f))
  {
    var ids := FoldIds(split, f);
    var p, g := Gather(pred, ids), Gather(gold, ids);
    FoldIdsAreHeld(split, f);
    TalliesAreSizes(pred, gold, ids);
    SameCounts(Tally(p, g, true, true), Tally(p, g, true, false), Tally(p, g, false, true),
               Trues(pred), Trues(gold), split.Held(f));
  }

  lemma SameCounts(tp: nat, fp: nat, fn: nat, hits: set<nat>, positives: set<nat>, held: set<nat>)
    requires tp == |hits * positives * held| && fp == |(hits - positives) * held| && fn == |(positives - hits) * held|
    ensures F1FromCounts(tp, fp, fn) == FoldF1(hits, positives, held)
  {
  }

  lemma TalliesAreSizes(pred: seq<bool>, gold: seq<bool>, ids: seq<nat>)
    requires |pred| == |gold| && forall j :: 0 <= j < |ids| ==> ids[j] < |pred|
    requires forall i, j :: 0 <= i < j < |ids| ==> ids[i] < ids[j]
    ensures var p, g := Gather(pred, ids), Gather(gold, ids);
            var hits, positives, held := Trues(pred), Trues(gold), Members(ids);
            && Tally(p, g, true, true) == |hits * positives * held|
            && Tally(p, g, true, false) == |(hits - positives) * held|
            && Tally(p, g, false, true) == |(positives - hits) * held|
            && Tally(p, g, false, false) == |held - hits - positives|
  {
    TallyIsCardinality(pred, gold, ids, false, false);
    TallyIsCardinality(pred, gold, ids, true, true);
    TallyIsCardinality(pred, gold, ids, true, false);
    TallyIsCardinality(pred, gold, ids, false, true);
    CellsAreParts(pred, gold, ids);
  }

  lemma CellsAreParts(pred: seq<bool>, gold: seq<bool>, ids: seq<nat>)
    requires |pred| == |gold| && forall j :: 0 <= j < |ids| ==> ids[j] < |pred|
    ensures var hits, positives, held := Trues(pred), Trues(gold), Members(ids);
            && CellSet(pred, gold, ids, true, true) == hits * positives * held
            && CellSet(pred, gold, ids, true, false) == (hits - positives) * held
            && CellSet(pred, gold, ids, false, true) == (positives - hits) * held
            && CellSet(pred, gold, ids, false, false) == held - hits - positives
  {
  }

  // ---------------------------------------------------------------- kfold_scores

  /** How often a body is listed in the pool. */
  function Times(bodies: seq<Body>, body: Body): nat {
    multiset(bodies)[body]
  }

  function CoverFlags<F(==)>(facts: seq<F>, cover: set<F>): (pred: seq<bool>)
    ensures |pred| == |facts| && Trues(pred) == Hits(facts, cover)
  {
    seq(|facts|, i requires 0 <= i < |facts| => facts[i] in cover)
  }

  lemma TimesMore(bodies: seq<Body>, j: nat)
    requires j < |bodies|
    ensures forall b :: Times(bodies[..j + 1], b) == Times(bodies[..j], b) + if b == bodies[j] then 1 else 0
  {
    assert bodies[..j + 1] == bodies[..j] + [bodies[j]];
  }

  function Scaled(times: nat, x: real): real {
    times as real * x
  }

  lemma ScaledAdds(m: nat, x: real, y: real)
    ensures Scaled(m, x) + Scaled(m, y) == Scaled(m, x + y)
    ensures Scaled(m + 1, x) == Scaled(m, x) + x
  {
  }

  /** Every body's sum has grown by `term` for each time it occurs among the first `j`. */
  ghost predicate Grown(bodies: seq<Body>, j: nat, term: Body -> real, before: map<Body, real>, sums: map<Body, real>) {
    && j <= |bodies|
    && before.Keys == sums.Keys == (set b | b in bodies)
    && forall b :: b in bodies ==> sums[b] == before[b] + Scaled(Times(bodies[..j], b), term(b))
  }

  lemma GrownMore(bodies: seq<Body>, j: nat, term: Body -> real, before: map<Body, real>, sums: map<Body, real>)
    requires Grown(bodies, j, term, before, sums) && j < |bodies|
    ensures Grown(bodies, j + 1, term, before, sums[bodies[j] := sums[bodies[j]] + term(bodies[j])])
  {
    TimesMore(bodies, j);
    ScaledAdds(Times(bodies[..j], bodies[j]), term(bodies[j]), 0.0);
  }

  function Term<F(==)>(metric: Metric, split: Split, facts: seq<F>, gold: seq<bool>, covers: map<Body, set<F>>,
                       f: nat): Body -> real {
    (b: Body) => if b in covers then FoldValue(metric, Hits(facts, covers[b]), Trues(gold), split.Held(f)) else 0.0
  }

  /** Every body's sum is its value, once for each time the body is listed. */
  ghost predicate SumsAre(bodies: seq<Body>, value: Body -> real, sums: map<Body, real>) {
    && sums.Keys == (set b | b in bodies)
    && forall b :: b in bodies ==> sums[b] == Scaled(Times(bodies, b), value(b))
  }

  lemma SumsGrow(bodies: seq<Body>, value: Body -> real, term: Body -> real, next: Body -> real,
                 before: map<Body, real>, sums: map<Body, real>)
    requires SumsAre(bodies, value, before) && Grown(bodies, |bodies|, term, before, sums)
    requires forall b :: b in bodies ==> next(b) == value(b) + term(b)
    ensures SumsAre(bodies, next, sums)
  {
    assert bodies[..|bodies|] == bodies;
    forall b | b in bodies
      ensures sums[b] == Scaled(Times(bodies, b), next(b))
    {
      ScaledAdds(Times(bodies, b), value(b), term(b));
    }
  }

  /** The values of a body summed over the given folds. */
  function OverFolds<F(==)>(metric: Metric, split: Split, facts: seq<F>, gold: seq<bool>, covers: map<Body, set<F>>,
                            folds: seq<nat>): Body -> real {
    (b: Body) => if b in covers then SumOf(metric, split, Hits(facts, covers[b]), Trues(gold), folds) else 0.0
  }

  lemma OneMoreFold<F>(metric: Metric, split: Split, facts: seq<F>, gold: seq<bool>, covers: map<Body, set<F>>,
                       folds: seq<nat>, k: nat)
    requires k < |folds|
    ensures forall b :: (OverFolds(metric, split, facts, gold, covers, folds[..k + 1])(b)
                         == OverFolds(metric, split, facts, gold, covers, folds[..k])(b)
                            + Term(metric, split, facts, gold, covers, folds[k])(b))
  {
    assert folds[..k + 1][..k] == folds[..k];
  }

  /** The value of one body's cover in one fold. */
  method FoldScore<F(==)>(metric: Metric, split: Split, facts: seq<F>, gold: seq<bool>, cover: set<F>, ids: seq<nat>,
                          ghost f: nat) returns (value: real)
    requires |facts| == |gold| == |split.foldOf| && ids == FoldIds(split, f) && (metric.Accuracy? ==> |ids| > 0)
    ensures value == FoldValue(metric, Hits(facts, cover), Trues(gold), split.Held(f))
  {
    var pred := CoverFlags(facts, cover);
    if metric.F1? {
      var scored := Prf1(Gather(pred, ids), Gather(gold, ids));
      ListF1IsSetF1(split, pred, gold, f);
      value := scored.value.f1;
    } else {
      value := AccuracyOn(split, pred, gold, ids, f);
    }
  }

  method FoldTerm<F(==)>(metric: Metric, split: Split, facts: seq<F>, gold: seq<bool>, covers: map<Body, set<F>>,
                         b: Body, ids: seq<nat>, ghost f: nat) returns (value: real)
    requires |facts| == |gold| == |split.foldOf| && ids == FoldIds(split, f) && (metric.Accuracy? ==> |ids| > 0)
    requires b in covers
    ensures value == Term(metric, split, facts, gold, covers, f)(b)
  {
    value := FoldScore(metric, split, facts, gold, covers[b], ids, f);
  }

  method AccuracyOn(split: Split, pred: seq<bool>, gold: seq<bool>, ids: seq<nat>, ghost f: nat)
    returns (value: real)
    requires |pred| == |gold| == |split.foldOf| && ids == FoldIds(split, f) && |ids| > 0
    ensures value == FoldAccuracy(Trues(pred), Trues(gold), split.Held(f))
  {
    var correct := CountCorrect(pred, gold, ids);
    ListAccuracyIsSetAccuracy(split, pred, gold, f, correct);
    value := correct as real / |ids| as real;
  }

  method CountCorrect(pred: seq<bool>, gold: seq<bool>, ids: seq<nat>) returns (correct: nat)
    requires |pred| == |gold| && forall j :: 0 <= j < |ids| ==> ids[j] < |pred|
    ensures correct == Tally(Gather(pred, ids), Gather(gold, ids), true, true)
                       + Tally(Gather(pred, ids), Gather(gold, ids), false, false)
  {
    correct := 0;
    ghost var p, g := Gather(pred, ids), Gather(gold, ids);
    for j := 0 to |ids|
      invariant correct == Tally(p[..j], g[..j], true, true) + Tally(p[..j], g[..j], false, false)
    {
      assert p[..j + 1][..j] == p[..j] && g[..j + 1][..j] == g[..j];
      if pred[ids[j]] == gold[ids[j]] {
        correct := correct + 1;
      }
    }
    assert p[..|ids|] == p && g[..|ids|] == g;
  }

  lemma ListAccuracyIsSetAccuracy(split: Split, pred: seq<bool>, gold: seq<bool>, f: nat, correct: nat)
    requires |pred| == |gold| == |split.foldOf| && |FoldIds(split, f)| > 0
    requires var p, g := Gather(pred, FoldIds(split, f)), Gather(gold, FoldIds(split, f));
             correct == Tally(p, g, true, true) + Tally(p, g, false, false)
    ensures correct as real / |FoldIds(split, f)| as real == FoldAccuracy(Trues(pred), Trues(gold), split.Held(f))
  {
    var ids := FoldIds(split, f);
    FoldIdsAreHeld(split, f);
    TalliesAreSizes(pred, gold, ids);
    IdsCounted(ids);
    AccuracyFromSizes(correct, |ids|, Trues(pred), Trues(gold), split.Held(f));
  }

  lemma AccuracyFromSizes(correct: nat, n: nat, hits: set<nat>, positives: set<nat>, held: set<nat>)
    requires correct == |hits * positives * held| + |held - hits - positives| && n == |held| > 0
    ensures correct as real / n as real == FoldAccuracy(hits, positives, held)
  {
  }

  lemma {:induction false} IdsCounted(ids: seq<nat>)
    requires forall i, j :: 0 <= i < j < |ids| ==> ids[i] < ids[j]
    ensures |Members(ids)| == |ids|
    decreases |ids|
  {
    if |ids| > 0 {
      var last := |ids| - 1;
      IdsCounted(ids[..last]);
      assert ids[last] !in Members(ids[..last]);
      assert ids == ids[..last] + [ids[last]];
      assert Members(ids) == Members(ids[..last]) + {ids[last]};
    }
  }

  /** One fold of `kfold_scores`: every body's value is added to its sum. */
  method AddFold<F(==)>(metric: Metric, split: Split, facts: seq<F>, gold: seq<bool>, bodies: seq<Body>,
                        covers: map<Body, set<F>>, f: nat, before: map<Body, real>) returns (sums: map<Body, real>)
    requires |facts| == |gold| == |split.foldOf| && (metric.Accuracy? && |bodies| > 0 ==> |FoldIds(split, f)| > 0)
    requires before.Keys == (set b | b in bodies) && forall b :: b in bodies ==> b in covers
    ensures Grown(bodies, |bodies|, Term(metric, split, facts, gold, covers, f), before, sums)
  {
    sums := before;
    var ids := FoldIds(split, f);
    ghost var term := Term(metric, split, facts, gold, covers, f);
    GrownStarts(bodies, term, before);
    for j := 0 to |bodies|
      invariant Grown(bodies, j, term, before, sums)
    {
      var value := FoldTerm(metric, split, facts, gold, covers, bodies[j], ids, f);
      sums := AddTo(bodies, j, term, before, sums, value);
    }
  }

  method AddTo(bodies: seq<Body>, j: nat, ghost term: Body -> real, ghost before: map<Body, real>,
               sums0: map<Body, real>, value: real) returns (sums: map<Body, real>)
    requires Grown(bodies, j, term, before, sums0) && j < |bodies| && value == term(bodies[j])
    ensures Grown(bodies, j + 1, term, before, sums)
  {
    var body := bodies[j];
    GrownMore(bodies, j, term, before, sums0);
    sums := sums0[body := sums0[body] + value];
  }

  lemma GrownStarts(bodies: seq<Body>, term: Body -> real, before: map<Body, real>)
    requires before.Keys == (set b | b in bodies)
    ensures Grown(bodies, 0, term, before, before)
  {
    assert bodies[..0] == [];
  }

  /** The folds with a held-out positive. */
  method MeasurableFolds(split: Split, gold: seq<bool>) returns (folds: seq<nat>)
    requires |gold| == |split.foldOf|
    ensures folds == Measurable(split, Trues(gold), split.folds)
  {
    folds := [];
    for f := 0 to split.folds
      invariant folds == Measurable(split, Trues(gold), f)
    {
      var ids := FoldIds(split, f);
      if exists j :: 0 <= j < |ids| && gold[ids[j]] {
        var j :| 0 <= j < |ids| && gold[ids[j]];
        assert ids[j] in Trues(gold) * split.Held(f);
        folds := folds + [f];
      } else {
        assert Trues(gold) * split.Held(f) == {};
      }
    }
  }

  /**
   `kfold_scores`, on folds already assigned: the mean of the metric, over all folds or over those
   that can measure recall, once for each time the body is listed. Accuracy divides by the size of
   every fold.
   */
  method KfoldScores<F(==)>(metric: Metric, bodies: seq<Body>, facts: seq<F>, labels: seq<bool>, split: Split,
                            covers: map<Body, set<F>>)
    returns (r: Result<map<Body, real>>)
    requires split.Valid() && |split.foldOf| == |facts|
    requires forall b :: b in bodies ==> b in covers
    ensures r.Ok? <==> 2 <= split.folds <= |facts| && |labels| == |facts|
                       && (metric.Accuracy? && |bodies| > 0 ==> FoldsHold(split))
    ensures r.Ok? ==> forall b :: b in r.value <==> b in bodies
    ensures r.Ok? ==> forall b :: b in bodies ==>
              r.value[b] == Scaled(Times(bodies, b), MeanOf(metric, split, Hits(facts, covers[b]), Trues(labels)))
  {
    if !(2 <= split.folds <= |facts|) {
      return Err("every fold needs at least one held-out fact");
    }
    if |labels| != |facts| {
      return Err("labels and facts differ in length");
    }
    var folds := AllFolds(split);
    if metric.Accuracy? {
      FoldsHoldIff(split);
      if |bodies| > 0 && exists f: nat :: f < split.folds && |FoldIds(split, f)| == 0 {
        return Err("division by zero");
      }
    } else {
      folds := MeasurableFolds(split, labels);
      if |folds| == 0 {
        return Ok(map b | b in bodies :: 0.0);
      }
    }
    var sums := SumFolds(metric, split, facts, labels, bodies, covers, folds);
    r := Ok(map b | b in bodies :: sums[b] / |folds| as real);
    forall b | b in bodies
      ensures sums[b] / |folds| as real
              == Scaled(Times(bodies, b), MeanOf(metric, split, Hits(facts, covers[b]), Trues(labels)))
    {
      MeanScales(SumOf(metric, split, Hits(facts, covers[b]), Trues(labels), folds), |folds|, Times(bodies, b));
    }
  }

  lemma FoldsHoldIff(split: Split)
    ensures FoldsHold(split) <==> forall f: nat :: f < split.folds ==> |FoldIds(split, f)| > 0
  {
    forall f: nat | f < split.folds
      ensures |FoldIds(split, f)| > 0 <==> split.Held(f) != {}
    {
      FoldIdsAreHeld(split, f);
      IdsCounted(FoldIds(split, f));
    }
  }

  method SumFolds<F(==)>(metric: Metric, split: Split, facts: seq<F>, gold: seq<bool>, bodies: seq<Body>,
                         covers: map<Body, set<F>>, folds: seq<nat>)
    returns (sums: map<Body, real>)
    requires |facts| == |gold| == |split.foldOf| && forall b :: b in bodies ==> b in covers
    requires metric.Accuracy? && |bodies| > 0 ==> forall k :: 0 <= k < |folds| ==> |FoldIds(split, folds[k])| > 0
    ensures SumsAre(bodies, OverFolds(metric, split, facts, gold, covers, folds), sums)
  {
    sums := map b | b in bodies :: 0.0;
    for k := 0 to |folds|
      invariant SumsAre(bodies, OverFolds(metric, split, facts, gold, covers, folds[..k]), sums)
    {
      var before := sums;
      sums := AddFold(metric, split, facts, gold, bodies, covers, folds[k], before);
      OneMoreFold(metric, split, facts, gold, covers, folds, k);
      SumsGrow(bodies, OverFolds(metric, split, facts, gold, covers, folds[..k]),
               Term(metric, split, facts, gold, covers, folds[k]),
               OverFolds(metric, split, facts, gold, covers, folds[..k + 1]), before, sums);
    }
    assert folds[..|folds|] == folds;
  }

  lemma MeanScales(sum: real, n: nat, times: nat)
    requires n > 0
    ensures Scaled(times, sum) / n as real == Scaled(times, sum / n as real)
  {
    QuotientScales(times as real, sum, n as real);
  }

  lemma QuotientScales(m: real, s: real, n: real)
    requires n > 0.0
    ensures m * s / n == m * (s / n)
  {
    var q := s / n;
    assert q * n == s;
    CrossMultiply(m * s, n, m * q, 1.0);
  }

  // ---------------------------------------------------------------- shuffled labels by inverse gather

  /** The reshuffled label list. */
  function Permuted(labels: seq<bool>, perm: seq<nat>): (r: seq<bool>)
    requires IsPermutation(perm) && |labels| == |perm|
    ensures |r| == |perm| && forall i :: 0 <= i < |r| ==> r[i] == labels[perm[i]]
  {
    seq(|perm|, i requires 0 <= i < |perm| => labels[perm[i]])
  }

  function Below(n: nat): (r: set<nat>)
    ensures |r| == n && forall i: nat :: i in r <==> i < n
  {
    if n == 0 then {} else Below(n - 1) + {n - 1}
  }

  /** What the first `k` draws reach. */
  function Image(perm: seq<nat>, k: nat): set<nat>
    requires k <= |perm|
  {
    if k == 0 then {} else Image(perm, k - 1) + {perm[k - 1]}
  }

  lemma {:induction false} ImageMember(perm: seq<nat>, k: nat, j: nat)
    requires k <= |perm|
    ensures j in Image(perm, k) <==> exists i :: 0 <= i < k && perm[i] == j
  {
    if k > 0 {
      ImageMember(perm, k - 1, j);
    }
  }

  lemma {:induction false} ImageSize(perm: seq<nat>, k: nat)
    requires IsPermutation(perm) && k <= |perm|
    ensures |Image(perm, k)| == k && Image(perm, k) <= Below(|perm|)
  {
    if k > 0 {
      ImageSize(perm, k - 1);
      ImageMember(perm, k - 1, perm[k - 1]);
    }
  }

  lemma EqualBySize<T>(a: set<T>, b: set<T>)
    requires a <= b && |a| == |b|
    ensures a == b
  {
    assert b == a + (b - a);
  }

  /** Every label position is drawn. */
  lemma PermutationIsOnto(perm: seq<nat>, j: nat)
    requires IsPermutation(perm) && j < |perm|
    ensures exists i :: 0 <= i < |perm| && perm[i] == j
  {
    var n := |perm|;
    ImageSize(perm, n);
    EqualBySize(Image(perm, n), Below(n));
    ImageMember(perm, n, j);
  }

  /** `[i for i, y in enumerate(labels) if y]`. */
  function PositiveIds(labels: seq<bool>): (ids: seq<nat>)
    ensures forall j: nat :: j in ids <==> j < |labels| && labels[j]
  {
    if |labels| == 0 then []
    else
      var last := |labels| - 1;
      PositiveIds(labels[..last]) + if labels[last] then [last] else []
  }

  /** The inverse permutation gathered at the original positives: the positives of the reshuffled list. */
  method PositivePositions(labels: seq<bool>, perm: seq<nat>, original: seq<nat>) returns (positions: set<nat>)
    requires IsPermutation(perm) && |labels| == |perm| && original == PositiveIds(labels)
    ensures positions == Trues(Permuted(labels, perm))
  {
    var inverse := new nat[|perm|];
    for i := 0 to |perm|
      invariant forall j :: 0 <= j < i ==> inverse[perm[j]] == j
    {
      inverse[perm[i]] := i;
    }
    positions := {};
    for k := 0 to |original|
      invariant forall i :: 0 <= i < |perm| ==> inverse[perm[i]] == i
      invariant forall i :: i in positions ==> i < |perm| && labels[perm[i]]
      invariant forall i: nat :: i < |perm| && perm[i] in original[..k] ==> i in positions
    {
      var j := original[k];
      assert j in original;
      PermutationIsOnto(perm, j);
      var i: nat :| i < |perm| && perm[i] == j;
      assert inverse[j] == i;
      positions := positions + {inverse[j]};
    }
    assert original[..|original|] == original;
  }

  // ---------------------------------------------------------------- one sample from set sizes

  /** The counts of a fold, from the size of one intersection. */
  lemma CountsFromSizes(hits: set<nat>, positives: set<nat>, held: set<nat>)
    ensures var hp, pset := positives * held, hits * held;
            var tp := |hp * pset|;
            tp <= |pset| && tp <= |hp| && F1FromCounts(tp, |pset| - tp, |hp| - tp) == FoldF1(hits, positives, held)
  {
    var hp, pset := positives * held, hits * held;
    var both := hits * positives * held;
    assert hp * pset == both;
    assert pset == both + (hits - positives) * held && both !! (hits - positives) * held;
    assert hp == both + (positives - hits) * held && both !! (positives - hits) * held;
  }

  /** `|a * b|` counted over the smaller of the two. */
  function Common(a: set<nat>, b: set<nat>): (n: nat)
    ensures n == |a * b|
  {
    assert a * b == (set i | i in a && i in b) == (set i | i in b && i in a);
    if |a| <= |b| then |set i | i in a && i in b| else |set i | i in b && i in a|
  }

  /** The folds that hold out a positive, and what each of them holds out. */
  method HeldPositives(split: Split, heldSets: seq<set<nat>>, positives: set<nat>)
    returns (heldPos: seq<set<nat>>, folds: seq<nat>)
    requires |heldSets| == split.folds && forall f :: 0 <= f < split.folds ==> heldSets[f] == split.Held(f)
    ensures |heldPos| == split.folds && forall f :: 0 <= f < split.folds ==> heldPos[f] == positives * split.Held(f)
    ensures folds == Measurable(split, positives, split.folds)
  {
    heldPos, folds := [], [];
    for f := 0 to split.folds
      invariant |heldPos| == f && forall g :: 0 <= g < f ==> heldPos[g] == positives * split.Held(g)
      invariant folds == Measurable(split, positives, f)
    {
      var held := heldSets[f];
      var hp := if |positives| <= |held| then set i | i in positives && i in held
                else set i | i in held && i in positives;
      assert hp == positives * split.Held(f);
      heldPos := heldPos + [hp];
      if hp != {} {
        folds := folds + [f];
      }
    }
  }

  lemma {:induction false} MeasurableAreFolds(split: Split, positives: set<nat>, k: nat)
    ensures forall j :: 0 <= j < |Measurable(split, positives, k)| ==> Measurable(split, positives, k)[j] < k
    ensures forall j :: 0 <= j < |Measurable(split, positives, k)| ==>
              positives * split.Held(Measurable(split, positives, k)[j]) != {}
  {
    if k > 0 {
      MeasurableAreFolds(split, positives, k - 1);
    }
  }

  /** The predicted positives of a body in each fold. */
  ghost predicate PredictedIn(split: Split, hits: set<nat>, predicted: seq<set<nat>>) {
    |predicted| == split.folds && forall f :: 0 <= f < split.folds ==> predicted[f] == hits * split.Held(f)
  }

  /** One body's score in one permutation. */
  method BodyScore(split: Split, ghost hits: set<nat>, predicted: seq<set<nat>>, ghost positives: set<nat>,
                   heldPos: seq<set<nat>>, folds: seq<nat>) returns (score: real)
    requires PredictedIn(split, hits, predicted) && PredictedIn(split, positives, heldPos)
    requires folds == Measurable(split, positives, split.folds) && |folds| > 0
    ensures score == MeanF1(split, hits, positives)
  {
    MeasurableAreFolds(split, positives, split.folds);
    var total := 0.0;
    for k := 0 to |folds|
      invariant total == SumF1(split, hits, positives, folds[..k])
    {
      var f := folds[k];
      var hp, pset := heldPos[f], predicted[f];
      var tp := Common(hp, pset);
      CountsFromSizes(hits, positives, split.Held(f));
      assert folds[..k + 1][..k] == folds[..k];
      total := total + F1FromCounts(tp, |pset| - tp, |hp| - tp);
    }
    assert folds[..|folds|] == folds;
    score := total / |folds| as real;
  }

  /** Every body's mean F1, in the order of the pool. */
  function PoolScores(split: Split, hits: seq<set<nat>>, positives: set<nat>): (scores: seq<real>)
    ensures |scores| == |hits| && forall b :: 0 <= b < |hits| ==> scores[b] == MeanF1(split, hits[b], positives)
  {
    seq(|hits|, b requires 0 <= b < |hits| => MeanF1(split, hits[b], positives))
  }

  lemma {:induction false} NoScoreWithoutFolds(scores: seq<real>)
    requires forall k :: 0 <= k < |scores| ==> scores[k] == 0.0
    ensures Best(scores) == 0.0
    decreases |scores|
  {
    if |scores| > 0 {
      NoScoreWithoutFolds(scores[..|scores| - 1]);
    }
  }

  /** The pool maximum of one permutation. */
  method PoolMaxSample(split: Split, ghost hits: seq<set<nat>>, predicted: seq<seq<set<nat>>>, heldSets: seq<set<nat>>,
                       positives: set<nat>)
    returns (poolMax: real)
    requires |heldSets| == split.folds && forall f :: 0 <= f < split.folds ==> heldSets[f] == split.Held(f)
    requires |predicted| == |hits| && forall b :: 0 <= b < |hits| ==> PredictedIn(split, hits[b], predicted[b])
    ensures poolMax == Best(PoolScores(split, hits, positives))
  {
    var heldPos, folds := HeldPositives(split, heldSets, positives);
    ghost var scores := PoolScores(split, hits, positives);
    if |folds| == 0 {
      NoScoreWithoutFolds(scores);
      return 0.0;
    }
    poolMax := 0.0;
    for b := 0 to |predicted|
      invariant poolMax == Best(scores[..b])
    {
      var score := BodyScore(split, hits[b], predicted[b], positives, heldPos, folds);
      assert scores[..b + 1][..b] == scores[..b];
      if score > poolMax {
        poolMax := score;
      }
    }
    assert scores[..|predicted|] == scores;
  }

  // ---------------------------------------------------------------- agreement with k-fold scoring

  lemma {:induction false} SumF1Bounds(split: Split, hits: set<nat>, positives: set<nat>, folds: seq<nat>)
    ensures 0.0 <= SumF1(split, hits, positives, folds) <= |folds| as real
    decreases |folds|
  {
    if |folds| > 0 {
      var last := |folds| - 1;
      var held := split.Held(folds[last]);
      SumF1Bounds(split, hits, positives, folds[..last]);
      F1IsDice(|hits * positives * held|, |(hits - positives) * held|, |(positives - hits) * held|);
    }
  }

  lemma MeanF1Bounds(split: Split, hits: set<nat>, positives: set<nat>)
    ensures 0.0 <= MeanF1(split, hits, positives) <= 1.0
  {
    var folds := Measurable(split, positives, split.folds);
    SumF1Bounds(split, hits, positives, folds);
    if |folds| > 0 {
      QuotientBounds(SumF1(split, hits, positives, folds), |folds| as real);
    }
  }

  lemma QuotientBounds(x: real, n: real)
    requires n > 0.0 && 0.0 <= x <= n
    ensures 0.0 <= x / n <= 1.0
  {
    var q := x / n;
    assert q * n == x;
    assert (1.0 - q) * n == n - x;
  }

  lemma {:induction false} PerfectSum(split: Split, hits: set<nat>, folds: seq<nat>)
    requires forall j :: 0 <= j < |folds| ==> hits * split.Held(folds[j]) != {}
    ensures SumF1(split, hits, hits, folds) == |folds| as real
    decreases |folds|
  {
    if |folds| > 0 {
      var last := |folds| - 1;
      var held := split.Held(folds[last]);
      PerfectSum(split, hits, folds[..last]);
      assert hits * hits * held == hits * held && (hits - hits) * held == {};
      F1IsDice(|hits * held|, 0, 0);
    }
  }

  /** A body that predicts exactly the labels has a mean F1 of 1. */
  lemma PerfectMean(split: Split, hits: set<nat>, i: nat)
    requires split.Valid() && i in hits && i < |split.foldOf|
    ensures MeanF1(split, hits, hits) == 1.0
  {
    var folds := Measurable(split, hits, split.folds);
    MeasurableAreFolds(split, hits, split.folds);
    PerfectSum(split, hits, folds);
    var f := split.foldOf[i];
    assert i in hits * split.Held(f);
    MeasurableHas(split, hits, split.folds, f);
    OverItself(|folds| as real);
  }

  lemma OverItself(n: real)
    requires n > 0.0
    ensures n / n == 1.0
  {
    assert (n / n - 1.0) * n == 0.0;
  }

  lemma {:induction false} MeasurableHas(split: Split, positives: set<nat>, k: nat, f: nat)
    requires f < k && positives * split.Held(f) != {}
    ensures f in Measurable(split, positives, k)
  {
    if f < k - 1 {
      MeasurableHas(split, positives, k - 1, f);
    }
  }

  /** A body that covers nothing has a mean F1 of 0. */
  lemma {:induction false} NothingCovered(split: Split, positives: set<nat>, folds: seq<nat>)
    ensures SumF1(split, {}, positives, folds) == 0.0
    decreases |folds|
  {
    if |folds| > 0 {
      var held := split.Held(folds[|folds| - 1]);
      NothingCovered(split, positives, folds[..|folds| - 1]);
      assert {} * positives * held == {} && ({} - positives) * held == {};
      NothingHit(0, |(positives - {}) * held|);
    }
  }

  // ---------------------------------------------------------------- why accuracy is not enough

  /** In one fold, predicting nothing is more accurate exactly if the false positives outnumber the true ones. */
  lemma NothingIsMoreAccurateIff(hits: set<nat>, positives: set<nat>, held: set<nat>)
    requires held != {}
    ensures FoldAccuracy({}, positives, held) > FoldAccuracy(hits, positives, held)
            <==> |(hits - positives) * held| > |hits * positives * held|
  {
    var quiet, wrong := held - hits - positives, (hits - positives) * held;
    assert {} * positives * held == {};
    assert held - {} - positives == quiet + wrong && quiet * wrong == {};
    var n, a, b := |held| as real, |quiet + wrong| as real, (|hits * positives * held| + |quiet|) as real;
    assert n > 0.0;
    QuotientOrder(a, b, n);
  }

  lemma QuotientOrder(a: real, b: real, n: real)
    requires n > 0.0
    ensures a / n > b / n <==> a > b
  {
    var p, q := a / n, b / n;
    assert p * n == a && q * n == b;
    assert (p - q) * n == a - b;
    if p > q {
      ProductPositive(p - q, n);
    } else {
      ProductPositive(q - p, n);
    }
  }

  lemma {:induction false} LessAccurateInSum(split: Split, hits: set<nat>, positives: set<nat>, folds: seq<nat>)
    requires forall k :: 0 <= k < |folds| ==> split.Held(folds[k]) != {}
    requires forall k :: 0 <= k < |folds| ==>
               |(hits - positives) * split.Held(folds[k])| > |hits * positives * split.Held(folds[k])|
    ensures |folds| > 0 ==> SumAccuracy(split, {}, positives, folds) > SumAccuracy(split, hits, positives, folds)
    decreases |folds|
  {
    if |folds| > 0 {
      var last := |folds| - 1;
      LessAccurateInSum(split, hits, positives, folds[..last]);
      NothingIsMoreAccurateIff(hits, positives, split.Held(folds[last]));
    }
  }

  lemma FoldF1Positive(hits: set<nat>, positives: set<nat>, held: set<nat>)
    ensures FoldF1(hits, positives, held) >= 0.0
    ensures hits * positives * held != {} ==> FoldF1(hits, positives, held) > 0.0
  {
    var tp, fp, fn := |hits * positives * held|, |(hits - positives) * held|, |(positives - hits) * held|;
    F1IsDice(tp, fp, fn);
    if tp > 0 {
      Quotient((2 * tp) as real, (2 * tp + fp + fn) as real);
    }
  }

  lemma {:induction false} SumF1AtLeast(split: Split, hits: set<nat>, positives: set<nat>, folds: seq<nat>, k: nat)
    requires k < |folds|
    ensures SumF1(split, hits, positives, folds) >= FoldF1(hits, positives, split.Held(folds[k]))
    decreases |folds|
  {
    var last := |folds| - 1;
    FoldF1Positive(hits, positives, split.Held(folds[last]));
    if k < last {
      SumF1AtLeast(split, hits, positives, folds[..last], k);
    } else {
      SumF1Bounds(split, hits, positives, folds[..last]);
    }
  }

  // ---------------------------------------------------------------- skipping folds keeps every ranking

  /** The mean F1 if a fold without a positive counted as 0. */
  function MeanF1OverAll(split: Split, hits: set<nat>, positives: set<nat>): real {
    if split.folds == 0 then 0.0 else SumF1(split, hits, positives, AllFolds(split)) / split.folds as real
  }

  lemma NoPositiveNoF1(hits: set<nat>, positives: set<nat>, held: set<nat>)
    requires positives * held == {}
    ensures FoldF1(hits, positives, held) == 0.0
  {
    assert hits * positives * held == {};
    NothingHit(|(hits - positives) * held|, |(positives - hits) * held|);
  }

  /** Folds without a positive add nothing to the sum. */
  lemma {:induction false} SkippedAddNothing(split: Split, hits: set<nat>, positives: set<nat>, folds: seq<nat>, k: nat)
    requires |folds| == k && forall f :: 0 <= f < k ==> folds[f] == f
    ensures SumF1(split, hits, positives, folds) == SumF1(split, hits, positives, Measurable(split, positives, k))
  {
    if k > 0 {
      SkippedAddNothing(split, hits, positives, folds[..k - 1], k - 1);
      OneFoldMoreOrSkipped(split, hits, positives, k - 1);
    }
  }

  lemma OneFoldMoreOrSkipped(split: Split, hits: set<nat>, positives: set<nat>, f: nat)
    ensures SumF1(split, hits, positives, Measurable(split, positives, f + 1))
            == SumF1(split, hits, positives, Measurable(split, positives, f)) + FoldF1(hits, positives, split.Held(f))
  {
    var before, now := Measurable(split, positives, f), Measurable(split, positives, f + 1);
    if positives * split.Held(f) == {} {
      NoPositiveNoF1(hits, positives, split.Held(f));
      assert now == before;
    } else {
      assert now == before + [f];
      SumF1Append(split, hits, positives, before, f);
    }
  }

  lemma SumF1Append(split: Split, hits: set<nat>, positives: set<nat>, folds: seq<nat>, f: nat)
    ensures SumF1(split, hits, positives, folds + [f])
            == SumF1(split, hits, positives, folds) + FoldF1(hits, positives, split.Held(f))
  {
    assert (folds + [f])[..|folds|] == folds;
  }

  /** Skipping the folds that cannot measure recall rescales every mean alike, so no ranking changes. */
  lemma SkippingKeepsRanking(split: Split, hits: set<nat>, other: set<nat>, positives: set<nat>)
    ensures MeanF1(split, hits, positives) > MeanF1(split, other, positives)
            <==> MeanF1OverAll(split, hits, positives) > MeanF1OverAll(split, other, positives)
  {
    var folds := Measurable(split, positives, split.folds);
    var x, y := SumF1(split, hits, positives, folds), SumF1(split, other, positives, folds);
    SkippedAddNothing(split, hits, positives, AllFolds(split), split.folds);
    SkippedAddNothing(split, other, positives, AllFolds(split), split.folds);
    if |folds| > 0 {
      QuotientOrder(x, y, |folds| as real);
    }
    if split.folds > 0 {
      QuotientOrder(x, y, split.folds as real);
    } else {
      assert folds == [];
    }
  }

  lemma SomethingHasF1(split: Split, hits: set<nat>, positives: set<nat>, f: nat)
    requires f < split.folds && hits * positives * split.Held(f) != {}
    ensures MeanF1(split, hits, positives) > 0.0 && MeanF1(split, {}, positives) == 0.0
  {
    var folds := Measurable(split, positives, split.folds);
    assert hits * positives * split.Held(f) <= positives * split.Held(f);
    MeasurableHas(split, positives, split.folds, f);
    var k :| 0 <= k < |folds| && folds[k] == f;
    SumF1AtLeast(split, hits, positives, folds, k);
    FoldF1Positive(hits, positives, split.Held(f));
    NothingCovered(split, positives, folds);
    MeanIsPositive(SumF1(split, hits, positives, folds), |folds| as real);
  }

  lemma MeanIsPositive(sum: real, n: real)
    requires n > 0.0
    ensures (sum > 0.0 ==> sum / n > 0.0) && 0.0 / n == 0.0
  {
    assert 0.0 / n * n == 0.0;
    QuotientOrder(sum, 0.0, n);
  }

  lemma NothingIsMoreAccurate(split: Split, hits: set<nat>, positives: set<nat>)
    requires FoldsHold(split) && split.folds > 0
    requires forall g: nat :: g < split.folds ==>
               |(hits - positives) * split.Held(g)| > |hits * positives * split.Held(g)|
    ensures MeanAccuracy(split, {}, positives) > MeanAccuracy(split, hits, positives)
  {
    LessAccurateInSum(split, hits, positives, AllFolds(split));
    QuotientOrder(SumAccuracy(split, {}, positives, AllFolds(split)),
                  SumAccuracy(split, hits, positives, AllFolds(split)), split.folds as real);
  }

  /**
   Where every fold has more false than true positives of a body that does find some, accuracy ranks
   the empty prediction above the body, while F1 ranks the body above the empty prediction.
   */
  lemma AccuracyPrefersNothing(split: Split, hits: set<nat>, positives: set<nat>, f: nat)
    requires FoldsHold(split) && f < split.folds && hits * positives * split.Held(f) != {}
    requires forall g: nat :: g < split.folds ==>
               |(hits - positives) * split.Held(g)| > |hits * positives * split.Held(g)|
    ensures MeanAccuracy(split, {}, positives) > MeanAccuracy(split, hits, positives)
    ensures MeanF1(split, hits, positives) > MeanF1(split, {}, positives)
  {
    NothingIsMoreAccurate(split, hits, positives);
    SomethingHasF1(split, hits, positives, f);
  }

  function HitsOf<F(==)>(bodies: seq<Body>, facts: seq<F>, covers: map<Body, set<F>>): (hits: seq<set<nat>>)
    requires forall b :: b in bodies ==> b in covers
    ensures |hits| == |bodies| && forall b :: 0 <= b < |bodies| ==> hits[b] == Hits(facts, covers[bodies[b]])
  {
    seq(|bodies|, b requires 0 <= b < |bodies| => Hits(facts, covers[bodies[b]]))
  }

  /** The maximum of the dictionary that `kfold_scores` returns on these labels. */
  ghost predicate IsPoolMaximum<F>(x: real, bodies: seq<Body>, split: Split, facts: seq<F>, covers: map<Body, set<F>>,
                                   positives: set<nat>)
    requires forall b :: b in bodies ==> b in covers
  {
    && (forall b :: b in bodies ==> KfoldScore(bodies, b, split, facts, covers, positives) <= x)
    && exists b :: b in bodies && KfoldScore(bodies, b, split, facts, covers, positives) == x
  }

  /** The best of the pool's mean F1 is the maximum of the k-fold scores. */
  ghost predicate BestIsPoolMaximum<F>(bodies: seq<Body>, split: Split, facts: seq<F>, covers: map<Body, set<F>>,
                                       positives: set<nat>)
    requires forall b :: b in bodies ==> b in covers
  {
    var best := Best(PoolScores(split, HitsOf(bodies, facts, covers), positives));
    IsPoolMaximum(best, bodies, split, facts, covers, positives)
  }

  /** What `KfoldScores` returns for a body. */
  function KfoldScore<F(==)>(bodies: seq<Body>, b: Body, split: Split, facts: seq<F>, covers: map<Body, set<F>>,
                             positives: set<nat>): real
    requires b in covers
  {
    Scaled(Times(bodies, b), MeanF1(split, Hits(facts, covers[b]), positives))
  }

  /** A body that is listed twice covers nothing. */
  ghost predicate DuplicatesVacuous<F>(bodies: seq<Body>, facts: seq<F>, covers: map<Body, set<F>>)
    requires forall b :: b in bodies ==> b in covers
  {
    forall b :: b in bodies && Times(bodies, b) > 1 ==> Hits(facts, covers[b]) == {}
  }

  lemma OnceOrNothing<F>(bodies: seq<Body>, b: Body, split: Split, facts: seq<F>, covers: map<Body, set<F>>,
                         positives: set<nat>)
    requires (forall c :: c in bodies ==> c in covers) && b in bodies && DuplicatesVacuous(bodies, facts, covers)
    ensures KfoldScore(bodies, b, split, facts, covers, positives) == MeanF1(split, Hits(facts, covers[b]), positives)
  {
    if Times(bodies, b) > 1 {
      var folds := Measurable(split, positives, split.folds);
      NothingCovered(split, positives, folds);
      if |folds| > 0 {
        QuotientBounds(0.0, |folds| as real);
        assert 0.0 / |folds| as real == 0.0;
      }
      assert MeanF1(split, {}, positives) == 0.0;
    } else {
      assert Times(bodies, b) == 1;
    }
  }

  lemma SampleIsMaximum<F>(bodies: seq<Body>, split: Split, facts: seq<F>, covers: map<Body, set<F>>,
                           positives: set<nat>)
    requires |bodies| > 0 && (forall b :: b in bodies ==> b in covers) && DuplicatesVacuous(bodies, facts, covers)
    ensures BestIsPoolMaximum(bodies, split, facts, covers, positives)
  {
    var hits := HitsOf(bodies, facts, covers);
    var scores := PoolScores(split, hits, positives);
    forall k | 0 <= k < |scores|
      ensures scores[k] >= 0.0 && bodies[k] in bodies
      ensures scores[k] == KfoldScore(bodies, bodies[k], split, facts, covers, positives)
    {
      MeanF1Bounds(split, hits[k], positives);
      OnceOrNothing(bodies, bodies[k], split, facts, covers, positives);
    }
    BestIsMaximum(scores);
  }

  /** If a body that covers something is listed twice, its own cover as labels makes the two differ. */
  lemma DuplicateBreaksIt<F>(bodies: seq<Body>, b: Body, split: Split, facts: seq<F>, covers: map<Body, set<F>>, i: nat)
    requires split.Valid() && |split.foldOf| == |facts| && forall c :: c in bodies ==> c in covers
    requires b in bodies && Times(bodies, b) > 1 && i in Hits(facts, covers[b])
    ensures var positives := Trues(CoverFlags(facts, covers[b]));
            !BestIsPoolMaximum(bodies, split, facts, covers, positives)
  {
    var positives := Hits(facts, covers[b]);
    PerfectMean(split, positives, i);
    assert KfoldScore(bodies, b, split, facts, covers, positives) == Times(bodies, b) as real;
    var hits := HitsOf(bodies, facts, covers);
    forall k | 0 <= k < |bodies|
      ensures PoolScores(split, hits, positives)[k] <= 1.0
    {
      MeanF1Bounds(split, hits[k], positives);
    }
    BestAtMost(PoolScores(split, hits, positives), 1.0);
  }

  lemma {:induction false} BestAtMost(scores: seq<real>, x: real)
    requires x >= 0.0 && forall k :: 0 <= k < |scores| ==> scores[k] <= x
    ensures Best(scores) <= x
    decreases |scores|
  {
    if |scores| > 0 {
      BestAtMost(scores[..|scores| - 1], x);
    }
  }

  /**
   The samples are the pool maxima of `kfold_scores` on the shuffled labels, for every labelling of
   the facts and every permutation, if and only if a body listed twice covers no fact.
   */
  lemma SamplesArePoolMaximaIff<F>(bodies: seq<Body>, split: Split, facts: seq<F>, covers: map<Body, set<F>>)
    requires split.Valid() && |split.foldOf| == |facts| && |bodies| > 0 && forall b :: b in bodies ==> b in covers
    ensures (forall labels: seq<bool> :: |labels| == |facts| ==>
               BestIsPoolMaximum(bodies, split, facts, covers, Trues(labels)))
            <==> DuplicatesVacuous(bodies, facts, covers)
  {
    if DuplicatesVacuous(bodies, facts, covers) {
      forall labels: seq<bool> | |labels| == |facts|
        ensures BestIsPoolMaximum(bodies, split, facts, covers, Trues(labels))
      {
        SampleIsMaximum(bodies, split, facts, covers, Trues(labels));
      }
    } else {
      var b :| b in bodies && Times(bodies, b) > 1 && Hits(facts, covers[b]) != {};
      var i :| i in Hits(facts, covers[b]);
      DuplicateBreaksIt(bodies, b, split, facts, covers, i);
      assert |CoverFlags(facts, covers[b])| == |facts|;
    }
  }

  lemma {:induction false} ListedOnce(bodies: seq<Body>, b: Body)
    requires NoDuplicates(bodies)
    ensures Times(bodies, b) <= 1
  {
    if |bodies| > 0 {
      ListedOnce(bodies[1..], b);
      assert bodies == [bodies[0]] + bodies[1..];
      assert b == bodies[0] ==> b !in bodies[1..];
    }
  }

  /** So on an enumerated pool every sample is the pool maximum of `kfold_scores` on the shuffled labels. */
  lemma EnumeratedSample<F>(bodies: seq<Body>, split: Split, facts: seq<F>, labels: seq<bool>, perm: seq<nat>,
                            covers: map<Body, set<F>>)
    requires NoDuplicates(bodies) && |bodies| > 0 && forall b :: b in bodies ==> b in covers
    requires IsPermutation(perm) && |perm| == |labels| == |facts|
    ensures IsPoolMaximum(Sample(split, HitsOf(bodies, facts, covers), labels, perm), bodies, split, facts, covers,
                          Trues(Permuted(labels, perm)))
  {
    forall b | b in bodies
      ensures Times(bodies, b) <= 1
    {
      ListedOnce(bodies, b);
    }
    SampleIsMaximum(bodies, split, facts, covers, Trues(Permuted(labels, perm)));
  }

  // ---------------------------------------------------------------- the threshold

  predicate Ascending(s: seq<real>) {
    forall i, j :: 0 <= i < j < |s| ==> s[i] <= s[j]
  }

  function InsertReal(x: real, s: seq<real>): (r: seq<real>)
    requires Ascending(s)
    ensures Ascending(r) && multiset(r) == multiset{x} + multiset(s)
  {
    if |s| == 0 || x <= s[0] then [x] + s
    else
      var rest := InsertReal(x, s[1..]);
      assert s == [s[0]] + s[1..];
      PrependAscending(s[0], x, s[1..], rest);
      [s[0]] + rest
  }

  lemma PrependAscending(head: real, x: real, s: seq<real>, rest: seq<real>)
    requires Ascending(rest) && multiset(rest) == multiset{x} + multiset(s)
    requires head <= x && forall y :: y in s ==> head <= y
    ensures Ascending([head] + rest)
  {
    forall k | 0 <= k < |rest|
      ensures head <= rest[k]
    {
      assert rest[k] in multiset(rest);
      assert rest[k] == x || rest[k] in s;
    }
  }

  function SortedReals(s: seq<real>): (r: seq<real>)
    ensures Ascending(r) && multiset(r) == multiset(s)
  {
    if |s| == 0 then []
    else
      assert s == [s[0]] + s[1..];
      InsertReal(s[0], SortedReals(s[1..]))
  }

  /** `_quantile`: linear interpolation in a sorted list. */
  function Quantile(values: seq<real>, q: real): real
    requires |values| > 0 && 0.0 <= q <= 1.0
  {
    if |values| == 1 then values[0]
    else
      var idx := q * (|values| - 1) as real;
      IndexInRange(q, |values|);
      Between(values, idx.Floor, idx - idx.Floor as real)
  }

  /** `values[lo] + (values[hi] - values[lo]) * frac`, with `hi` kept inside the list. */
  function Between(values: seq<real>, lo: nat, frac: real): real
    requires lo < |values|
  {
    var hi := if lo + 1 < |values| - 1 then lo + 1 else |values| - 1;
    Lerp(values[lo], values[hi], frac)
  }

  function Lerp(a: real, b: real, frac: real): real {
    a + (b - a) * frac
  }

  lemma IndexInRange(q: real, n: nat)
    requires n > 0 && 0.0 <= q <= 1.0
    ensures 0 <= (q * (n - 1) as real).Floor < n
  {
    var top := (n - 1) as real;
    ProductPositive(1.0 - q, top);
    ProductPositive(q, top);
    assert (1.0 - q) * top == top - q * top;
  }

  lemma Interpolates(values: seq<real>, lo: nat, frac: real)
    requires Ascending(values) && lo < |values| && 0.0 <= frac < 1.0
    ensures values[lo] <= Between(values, lo, frac)
    ensures Between(values, lo, frac) <= values[if lo + 1 < |values| then lo + 1 else lo]
  {
    var hi := if lo + 1 < |values| - 1 then lo + 1 else |values| - 1;
    assert values[lo] <= values[hi];
    LerpBetween(values[lo], values[hi], frac);
  }

  lemma LerpBetween(a: real, b: real, frac: real)
    requires a <= b && 0.0 <= frac < 1.0
    ensures a <= Lerp(a, b, frac) <= b
  {
    ProductPositive(b - a, frac);
    ProductPositive(b - a, 1.0 - frac);
    assert (b - a) * (1.0 - frac) == (b - a) - (b - a) * frac;
  }

  lemma ProductPositive(x: real, y: real)
    requires x >= 0.0 && y >= 0.0
    ensures x * y >= 0.0
  {
  }

  /**
   The quantile divides the list: the samples up to the index q (n - 1), rounded down, are not above
   it, those from the index rounded up on are not below it.
   */
  lemma QuantileSeparates(values: seq<real>, q: real)
    requires Ascending(values) && |values| > 0 && 0.0 <= q <= 1.0
    ensures var lo := (q * (|values| - 1) as real).Floor;
            && (forall k :: 0 <= k <= lo && k < |values| ==> values[k] <= Quantile(values, q))
            && (forall k :: 0 <= k && lo < k < |values| ==> Quantile(values, q) <= values[k])
    ensures q == 1.0 ==> Quantile(values, q) == values[|values| - 1]
  {
    IndexInRange(q, |values|);
    if |values| > 1 {
      var idx := q * (|values| - 1) as real;
      Interpolates(values, idx.Floor, idx - idx.Floor as real);
      if q == 1.0 {
        assert idx == (|values| - 1) as real;
      }
    }
  }

  datatype Summary = Summary(threshold: real, minimum: real, median: real, p95: real, maximum: real)

  function Summarize(sorted: seq<real>, quantile: real): Summary
    requires |sorted| > 0 && 0.0 < quantile <= 1.0
  {
    Summary(Quantile(sorted, quantile), sorted[0], Quantile(sorted, 0.5), Quantile(sorted, 0.95), sorted[|sorted| - 1])
  }

  /** The pool maximum of the mean F1 on the labels reshuffled by one permutation. */
  function Sample(split: Split, hits: seq<set<nat>>, labels: seq<bool>, perm: seq<nat>): real
    requires IsPermutation(perm) && |perm| == |labels|
  {
    Best(PoolScores(split, hits, Trues(Permuted(labels, perm))))
  }

  /** One sample for each permutation. */
  ghost predicate SamplesOf(samples: seq<real>, hits: seq<set<nat>>, labels: seq<bool>, split: Split,
                            perms: seq<seq<nat>>)
    requires forall p :: 0 <= p < |perms| ==> IsPermutation(perms[p]) && |perms[p]| == |labels|
  {
    |samples| <= |perms| && forall p :: 0 <= p < |samples| ==> samples[p] == Sample(split, hits, labels, perms[p])
  }

  /** The predicted positives of every body in every fold, computed once. */
  method Precompute<F(==)>(bodies: seq<Body>, facts: seq<F>, split: Split, covers: map<Body, set<F>>)
    returns (heldSets: seq<set<nat>>, predicted: seq<seq<set<nat>>>)
    requires |split.foldOf| == |facts| && forall b :: b in bodies ==> b in covers
    ensures |heldSets| == split.folds && forall f :: 0 <= f < split.folds ==> heldSets[f] == split.Held(f)
    ensures |predicted| == |bodies|
    ensures forall b :: 0 <= b < |bodies| ==> PredictedIn(split, Hits(facts, covers[bodies[b]]), predicted[b])
  {
    heldSets := [];
    for f := 0 to split.folds
      invariant |heldSets| == f && forall g :: 0 <= g < f ==> heldSets[g] == split.Held(g)
    {
      FoldIdsAreHeld(split, f);
      heldSets := heldSets + [Members(FoldIds(split, f))];
    }
    predicted := [];
    for b := 0 to |bodies|
      invariant |predicted| == b
      invariant forall c :: 0 <= c < b ==> PredictedIn(split, Hits(facts, covers[bodies[c]]), predicted[c])
    {
      var cover := covers[bodies[b]];
      var row: seq<set<nat>> := [];
      for f := 0 to split.folds
        invariant PredictedIn(Split(f, split.foldOf), Hits(facts, cover), row)
      {
        row := row + [set i | i in heldSets[f] && facts[i] in cover];
        assert row[f] == Hits(facts, cover) * split.Held(f);
      }
      predicted := predicted + [row];
    }
  }

  /** The loop over the permutations. */
  method DrawSamples(ghost hits: seq<set<nat>>, labels: seq<bool>, split: Split, perms: seq<seq<nat>>,
                     heldSets: seq<set<nat>>, predicted: seq<seq<set<nat>>>)
    returns (samples: seq<real>)
    requires forall p :: 0 <= p < |perms| ==> IsPermutation(perms[p]) && |perms[p]| == |labels|
    requires |heldSets| == split.folds && forall f :: 0 <= f < split.folds ==> heldSets[f] == split.Held(f)
    requires |predicted| == |hits| && forall b :: 0 <= b < |hits| ==> PredictedIn(split, hits[b], predicted[b])
    ensures |samples| == |perms| && SamplesOf(samples, hits, labels, split, perms)
  {
    samples := [];
    var original := PositiveIds(labels);
    for p := 0 to |perms|
      invariant |samples| == p && SamplesOf(samples, hits, labels, split, perms)
    {
      var sample := DrawSample(hits, labels, split, perms[p], heldSets, predicted, original);
      SamplesGrow(samples, hits, labels, split, perms, sample);
      samples := samples + [sample];
    }
  }

  lemma SamplesGrow(samples: seq<real>, hits: seq<set<nat>>, labels: seq<bool>, split: Split, perms: seq<seq<nat>>,
                    sample: real)
    requires forall p :: 0 <= p < |perms| ==> IsPermutation(perms[p]) && |perms[p]| == |labels|
    requires |samples| < |perms| && SamplesOf(samples, hits, labels, split, perms)
    requires sample == Sample(split, hits, labels, perms[|samples|])
    ensures SamplesOf(samples + [sample], hits, labels, split, perms)
  {
  }

  method DrawSample(ghost hits: seq<set<nat>>, labels: seq<bool>, split: Split, perm: seq<nat>,
                    heldSets: seq<set<nat>>, predicted: seq<seq<set<nat>>>, original: seq<nat>)
    returns (sample: real)
    requires IsPermutation(perm) && |perm| == |labels| && original == PositiveIds(labels)
    requires |heldSets| == split.folds && forall f :: 0 <= f < split.folds ==> heldSets[f] == split.Held(f)
    requires |predicted| == |hits| && forall b :: 0 <= b < |hits| ==> PredictedIn(split, hits[b], predicted[b])
    ensures sample == Sample(split, hits, labels, perm)
  {
    var positives := PositivePositions(labels, perm, original);
    sample := PoolMaxSample(split, hits, predicted, heldSets, positives);
  }

  /** `permutation_null_threshold`, on folds already assigned and permutations already drawn. */
  method PermutationNullThreshold<F(==)>(bodies: seq<Body>, facts: seq<F>, labels: seq<bool>, split: Split,
                                         perms: seq<seq<nat>>, quantile: real, covers: map<Body, set<F>>)
    returns (r: Result<Summary>, samples: seq<real>)
    requires split.Valid() && |split.foldOf| == |facts|
    requires forall b :: b in bodies ==> b in covers
    requires forall p :: 0 <= p < |perms| ==> IsPermutation(perms[p]) && |perms[p]| == |facts|
    ensures r.Ok? <==> 2 <= split.folds <= |facts| == |labels| && |perms| >= 1 && 0.0 < quantile <= 1.0
    ensures r.Ok? ==>
              && |samples| == |perms| && SamplesOf(samples, HitsOf(bodies, facts, covers), labels, split, perms)
              && var sorted := SortedReals(samples);
              && |sorted| == |samples|
              && r.value == Summarize(sorted, quantile)
  {
    samples := [];
    if !(2 <= split.folds <= |facts|) {
      return Err("every fold needs at least one held-out fact"), samples;
    }
    if |labels| != |facts| {
      return Err("labels and facts differ in length"), samples;
    }
    if |perms| < 1 {
      return Err("n_permutations must be >= 1"), samples;
    }
    if !(0.0 < quantile <= 1.0) {
      return Err("quantile must be in (0.0, 1.0]"), samples;
    }
    var heldSets, predicted := Precompute(bodies, facts, split, covers);
    samples := DrawSamples(HitsOf(bodies, facts, covers), labels, split, perms, heldSets, predicted);
    var sorted := SortedReals(samples);
    SameElements(sorted, samples);
    r := Ok(Summarize(sorted, quantile));
  }
}
