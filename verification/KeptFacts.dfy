/**
 Searching on the judged facts only: `_exclude_dontcare` in examples/caviar_woled/run_caviar_cv.py,
 and what a search that is right on those facts means for the reconstructed fluent.
 */
module KeptFacts {
  import opened Lists
  import opened Scorer
  import opened EventCalculus

  /** The rows below `n` that are not flagged. */
  function Kept(dontCare: seq<bool>, n: nat): (rows: seq<nat>)
    requires n <= |dontCare|
    ensures forall i :: 0 <= i < |rows| ==> rows[i] < n
    ensures forall pt: nat :: pt in rows <==> pt < n && !dontCare[pt]
  {
    if n == 0 then [] else Kept(dontCare, n - 1) + if dontCare[n - 1] then [] else [n - 1]
  }

  /** `zip` stops with the shortest of its lists. */
  function Shortest(a: nat, b: nat, c: nat): nat {
    if a <= b && a <= c then a else if b <= c then b else c
  }

  lemma GatherNext<T>(list: seq<T>, rows: seq<nat>, i: nat)
    requires i < |list| && forall j :: 0 <= j < |rows| ==> rows[j] < |list|
    ensures Gather(list, rows + [i]) == Gather(list, rows) + [list[i]]
  {
  }

  /** `_exclude_dontcare`: the unflagged facts and their labels, in order. */
  method ExcludeDontCare<F>(facts: seq<F>, labels: seq<bool>, dontCare: seq<bool>)
    returns (keptFacts: seq<F>, keptLabels: seq<bool>)
    ensures var rows := Kept(dontCare, Shortest(|facts|, |labels|, |dontCare|));
            keptFacts == Gather(facts, rows) && keptLabels == Gather(labels, rows)
  {
    keptFacts, keptLabels := [], [];
    for i := 0 to Shortest(|facts|, |labels|, |dontCare|)
      invariant keptFacts == Gather(facts, Kept(dontCare, i)) && keptLabels == Gather(labels, Kept(dontCare, i))
    {
      GatherNext(facts, Kept(dontCare, i), i);
      GatherNext(labels, Kept(dontCare, i), i);
      if !dontCare[i] {
        keptFacts, keptLabels := keptFacts + [facts[i]], keptLabels + [labels[i]];
      }
    }
  }

  /** No false positive and no false negative means that the two lists are the same. */
  lemma {:induction false} NoErrorMeansEqual(pred: seq<bool>, gold: seq<bool>)
    requires |pred| == |gold| && Tally(pred, gold, true, false) == 0 && Tally(pred, gold, false, true) == 0
    ensures pred == gold
    decreases |pred|
  {
    if |pred| > 0 {
      var last := |pred| - 1;
      NoErrorMeansEqual(pred[..last], gold[..last]);
      assert pred == pred[..last] + [pred[last]] && gold == gold[..last] + [gold[last]];
    }
  }

  /** `prf1` finds no error on the rows a mask leaves. */
  ghost predicate Faultless(pred: seq<bool>, target: seq<bool>, mask: seq<bool>) {
    && |pred| == |target| == |mask|
    && var rows := Kept(mask, |mask|);
       Tally(Gather(pred, rows), Gather(target, rows), true, false) == 0
       && Tally(Gather(pred, rows), Gather(target, rows), false, true) == 0
  }

  lemma FaultlessAgrees(pred: seq<bool>, target: seq<bool>, mask: seq<bool>, pt: nat)
    requires Faultless(pred, target, mask) && pt < |mask| && !mask[pt]
    ensures pred[pt] == target[pt]
  {
    var rows := Kept(mask, |mask|);
    NoErrorMeansEqual(Gather(pred, rows), Gather(target, rows));
    var i :| 0 <= i < |rows| && rows[i] == pt;
    assert Gather(pred, rows)[i] == Gather(target, rows)[i];
  }

  /**
   An initiation and a termination theory that are faultless on the kept facts reconstruct the
   fluent exactly, also on all the rows that were never judged.
   */
  lemma FaultlessOnKeptRestoresGold<K>(keys: seq<K>, gold: seq<bool>, init: seq<bool>, term: seq<bool>)
    requires |keys| == |gold|
    requires Faultless(init, InitLabels(keys, gold, true), InitMask(keys, gold, true))
    requires Faultless(term, TermLabels(keys, gold), TermMask(keys, gold))
    ensures Reconstructs(keys, gold, init, term)
  {
    forall pt | 0 <= pt < |keys| && !InitDontCare(keys, gold, true, pt)
      ensures init[pt] <==> IsInit(keys, gold, true, pt)
    {
      FaultlessAgrees(init, InitLabels(keys, gold, true), InitMask(keys, gold, true), pt);
    }
    forall pt | 0 <= pt < |keys| && !TermDontCare(keys, gold, pt)
      ensures term[pt] <==> IsTerm(keys, gold, pt)
    {
      FaultlessAgrees(term, TermLabels(keys, gold), TermMask(keys, gold), pt);
    }
    forall pt | 0 <= pt < |keys|
      ensures HoldsAt(keys, init, term, pt) <==> gold[pt]
    {
      UnmaskedAgreementRestoresGold(keys, gold, init, term, pt);
    }
  }
}
