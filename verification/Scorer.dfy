/**
 Scores, from examples/caviar_woled/scorer.py: precision, recall and F1 of a list of predictions,
 the same from raw counts, and what a theory of several clauses predicts. Ratios are real numbers;
 an undefined one is reported as 0, as the source does.
 */
module Scorer {
  import opened Lists

  /** A ratio, reported as 0 when it is undefined. */
  function Ratio(num: int, den: int): real {
    if den == 0 then 0.0 else num as real / den as real
  }

  function HarmonicMean(precision: real, recall: real): real {
    if precision + recall == 0.0 then 0.0 else 2.0 * precision * recall / (precision + recall)
  }

  /** At how many positions the prediction is `p` and the gold label `g`. */
  function Tally(pred: seq<bool>, gold: seq<bool>, p: bool, g: bool): nat
    requires |pred| == |gold|
    decreases |pred|
  {
    if |pred| == 0 then 0
    else
      var last := |pred| - 1;
      Tally(pred[..last], gold[..last], p, g) + if pred[last] == p && gold[last] == g then 1 else 0
  }

  /** `_f1_from_counts`: the F1 arithmetic on raw counts. */
  function F1FromCounts(tp: nat, fp: nat, fn: nat): real {
    HarmonicMean(Ratio(tp, tp + fp), Ratio(tp, tp + fn))
  }

  lemma Quotient(num: real, den: real)
    requires 0.0 < num <= den
    ensures 0.0 < num / den <= 1.0 && (num / den) * den == num
    ensures num / den == 1.0 <==> num == den
  {
    var q := num / den;
    assert q * den == num;
    assert (q - 1.0) * den == num - den;
  }

  lemma CrossMultiply(x: real, y: real, u: real, v: real)
    requires y > 0.0 && v > 0.0 && x * v == u * y
    ensures x / y == u / v
  {
    var p, q := x / y, u / v;
    assert p * y == x && q * v == u;
    assert (p - q) * (y * v) == 0.0 by {
      assert p * y * v == q * v * y;
    }
    assert y * v > 0.0;
  }

  lemma HarmonicOfQuotients(t: real, a: real, b: real)
    requires 0.0 < t && t <= a && t <= b
    ensures t / a + t / b > 0.0
    ensures 2.0 * (t / a) * (t / b) / (t / a + t / b) == 2.0 * t / (a + b)
  {
    Quotient(t, a);
    Quotient(t, b);
    var p, r := t / a, t / b;
    assert p * r * (a + b) == t * (p + r) by {
      assert p * r * (a + b) == r * (p * a) + p * (r * b);
    }
    assert 2.0 * p * r * (a + b) == 2.0 * (p * r * (a + b));
    CrossMultiply(2.0 * p * r, p + r, 2.0 * t, a + b);
  }

  /** F1 is 2 tp / (2 tp + fp + fn), without a special case as long as there is a true positive. */
  lemma F1IsDice(tp: nat, fp: nat, fn: nat)
    ensures F1FromCounts(tp, fp, fn) == Ratio(2 * tp, 2 * tp + fp + fn)
    ensures 0.0 <= F1FromCounts(tp, fp, fn) <= 1.0
    ensures F1FromCounts(tp, fp, fn) == 1.0 <==> tp > 0 && fp == 0 && fn == 0
    ensures Ratio(tp, tp + fp) + Ratio(tp, tp + fn) == 0.0 <==> tp == 0
  {
    if tp > 0 {
      var t, a, b := tp as real, (tp + fp) as real, (tp + fn) as real;
      HarmonicOfQuotients(t, a, b);
      var sum := (2 * tp + fp + fn) as real;
      assert a + b == sum && 2.0 * t == (2 * tp) as real;
      assert Ratio(tp, tp + fp) == t / a && Ratio(tp, tp + fn) == t / b;
      assert F1FromCounts(tp, fp, fn) == 2.0 * t / (a + b) by {
        assert 2.0 * (t / a) * (t / b) / (t / a + t / b) == HarmonicMean(t / a, t / b);
      }
      Quotient(2.0 * t, a + b);
      assert Ratio(2 * tp, 2 * tp + fp + fn) == (2 * tp) as real / sum;
    } else {
      NothingHit(fp, fn);
    }
  }

  lemma NothingHit(fp: nat, fn: nat)
    ensures Ratio(0, fp) == Ratio(0, fn) == Ratio(0, fp + fn) == 0.0 == F1FromCounts(0, fp, fn)
  {
    ZeroRatio(fp);
    ZeroRatio(fn);
    ZeroRatio(fp + fn);
  }

  lemma ZeroRatio(den: nat)
    ensures Ratio(0, den) == 0.0
  {
    if den > 0 {
      var q := 0 as real / den as real;
      assert q * den as real == 0.0;
    }
  }

  /** The dictionary `prf1` returns. */
  datatype Scores = Scores(precision: real, recall: real, f1: real, tp: nat, fp: nat, fn: nat, tn: nat,
                           degenerate: bool)

  /** `prf1`: the four counts cover every position, and a zero division happened exactly when nothing was hit. */
  method Prf1(pred: seq<bool>, gold: seq<bool>) returns (r: Result<Scores>)
    ensures r.Ok? <==> |pred| == |gold|
    ensures r.Ok? ==> r.value == ScoresOf(pred, gold)
    ensures r.Ok? ==>
              && var s := r.value;
              && s.tp == Tally(pred, gold, true, true) && s.fp == Tally(pred, gold, true, false)
              && s.fn == Tally(pred, gold, false, true) && s.tn == Tally(pred, gold, false, false)
              && s.tp + s.fp + s.fn + s.tn == |pred|
              && s.precision == Ratio(s.tp, s.tp + s.fp) && s.recall == Ratio(s.tp, s.tp + s.fn)
              && s.f1 == F1FromCounts(s.tp, s.fp, s.fn) == Ratio(2 * s.tp, 2 * s.tp + s.fp + s.fn)
              && (s.degenerate <==> s.tp == 0)
  {
    if |pred| != |gold| {
      return Err("prf1: lists of different length");
    }
    var tp, fp, fn, tn := CountOutcomes(pred, gold);
    F1IsDice(tp, fp, fn);
    r := Ok(RatiosOf(tp, fp, fn, tn));
  }

  method CountOutcomes(pred: seq<bool>, gold: seq<bool>) returns (tp: nat, fp: nat, fn: nat, tn: nat)
    requires |pred| == |gold|
    ensures tp == Tally(pred, gold, true, true) && fp == Tally(pred, gold, true, false)
    ensures fn == Tally(pred, gold, false, true) && tn == Tally(pred, gold, false, false)
    ensures tp + fp + fn + tn == |pred|
  {
    tp, fp, fn, tn := 0, 0, 0, 0;
    for i := 0 to |pred|
      invariant tp == Tally(pred[..i], gold[..i], true, true)
      invariant fp == Tally(pred[..i], gold[..i], true, false)
      invariant fn == Tally(pred[..i], gold[..i], false, true)
      invariant tn == Tally(pred[..i], gold[..i], false, false)
      invariant tp + fp + fn + tn == i
    {
      assert pred[..i + 1][..i] == pred[..i] && gold[..i + 1][..i] == gold[..i];
      if pred[i] && gold[i] {
        tp := tp + 1;
      } else if pred[i] && !gold[i] {
        fp := fp + 1;
      } else if !pred[i] && gold[i] {
        fn := fn + 1;
      } else {
        tn := tn + 1;
      }
    }
    assert pred[..|pred|] == pred && gold[..|gold|] == gold;
  }

  /** The ratios, with `degenerate` set by each of the three substitutions. */
  function RatiosOf(tp: nat, fp: nat, fn: nat, tn: nat): Scores {
    var precision, recall := Ratio(tp, tp + fp), Ratio(tp, tp + fn);
    Scores(precision, recall, HarmonicMean(precision, recall), tp, fp, fn, tn,
           tp + fp == 0 || tp + fn == 0 || precision + recall == 0.0)
  }

  /** The scores of a prediction, from the tallies of the four outcomes. */
  function ScoresOf(pred: seq<bool>, gold: seq<bool>): Scores
    requires |pred| == |gold|
  {
    RatiosOf(Tally(pred, gold, true, true), Tally(pred, gold, true, false),
             Tally(pred, gold, false, true), Tally(pred, gold, false, false))
  }

  // ---------------------------------------------------------------- theories

  /** Does some clause predict the fact? */
  predicate Fires<R, F>(clauses: seq<R>, predict: (R, F) -> bool, fact: F) {
    exists k :: 0 <= k < |clauses| && predict(clauses[k], fact)
  }

  function Predictions<R, F>(clauses: seq<R>, predict: (R, F) -> bool, facts: seq<F>): (pred: seq<bool>)
    ensures |pred| == |facts| && forall i :: 0 <= i < |facts| ==> pred[i] == Fires(clauses, predict, facts[i])
  {
    seq(|facts|, i requires 0 <= i < |facts| => Fires(clauses, predict, facts[i]))
  }

  /** The fact of a pair-time. */
  function StarFacts(numPt: nat): (facts: seq<(int, int)>)
    ensures |facts| == numPt && forall pt :: 0 <= pt < numPt ==> facts[pt] == (pt, 1)
  {
    seq(numPt, pt requires 0 <= pt < numPt => (pt, 1))
  }

  /** `theory_predictions`. */
  method TheoryPredictions<R>(clauses: seq<R>, predict: (R, (int, int)) -> bool, numPt: nat) returns (pred: seq<bool>)
    ensures pred == Predictions(clauses, predict, StarFacts(numPt))
  {
    pred := [];
    for pt := 0 to numPt
      invariant pred == Predictions(clauses, predict, StarFacts(numPt))[..pt]
    {
      var fires := false;
      for k := 0 to |clauses|
        invariant fires <==> exists j :: 0 <= j < k && predict(clauses[j], (pt, 1))
      {
        fires := fires || predict(clauses[k], (pt, 1));
      }
      pred := pred + [fires];
    }
  }
}
