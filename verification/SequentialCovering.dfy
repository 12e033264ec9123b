/** Multi-clause induction by sequential covering: `induce_theory` in examples/caviar_woled/theory_loop.py. */
module SequentialCovering {
  import opened Lists
  import opened Scorer

  /** A fact and its label. */
  type Labelled<F> = (F, bool)

  datatype Reason = Committed | Rejected | Abstained

  datatype StopReason = MaxClauses | NoPositives | SelectAbstained | InsufficientCoverage

  datatype Iteration<R> = Iteration(rule: Option<R>, reason: Reason, residualPositives: int, newlyCovered: int)

  datatype Theory<R> = Theory(clauses: seq<R>, iterations: seq<Iteration<R>>, stopReason: StopReason)

  /**
   What the caller provides: `select` wraps one search over the residual, and may answer differently
   each time it is called; `predict` reads one clause's prediction for one fact.
   */
  datatype Search<!F, !R> = Search(select: (nat, seq<F>, seq<bool>) -> Option<R>, predict: (R, F) -> bool)

  function Zip<F>(facts: seq<F>, labels: seq<bool>): (z: seq<Labelled<F>>)
    requires |facts| == |labels|
    ensures |z| == |facts| && forall i :: 0 <= i < |z| ==> z[i] == (facts[i], labels[i])
  {
    seq(|facts|, i requires 0 <= i < |facts| => (facts[i], labels[i]))
  }

  function Facts<F>(z: seq<Labelled<F>>): (facts: seq<F>)
    ensures |facts| == |z| && forall i :: 0 <= i < |z| ==> facts[i] == z[i].0
  {
    seq(|z|, i requires 0 <= i < |z| => z[i].0)
  }

  function Labels<F>(z: seq<Labelled<F>>): (labels: seq<bool>)
    ensures |labels| == |z| && forall i :: 0 <= i < |z| ==> labels[i] == z[i].1
  {
    seq(|z|, i requires 0 <= i < |z| => z[i].1)
  }

  /** Not a positive that some clause covers. */
  function Unexplained<F, R>(clauses: seq<R>, predict: (R, F) -> bool): Labelled<F> -> bool {
    (x: Labelled<F>) => !(x.1 && Fires(clauses, predict, x.0))
  }

  /** The original list minus exactly the positives that committed clauses cover. */
  function Residual<F, R>(z: seq<Labelled<F>>, clauses: seq<R>, predict: (R, F) -> bool): seq<Labelled<F>> {
    Filter(z, Unexplained(clauses, predict))
  }

  function IsPositive<F>(): Labelled<F> -> bool {
    (x: Labelled<F>) => x.1
  }

  /** A positive that the rule covers. */
  function CoveredBy<F, R>(rule: R, predict: (R, F) -> bool): Labelled<F> -> bool {
    (x: Labelled<F>) => predict(rule, x.0) && x.1
  }

  function Positives<F>(z: seq<Labelled<F>>): int {
    Count(z, IsPositive())
  }

  /** What an iteration of the loop with `k` clauses committed reports, for the rule proposed. */
  function Proposal<F, R>(z: seq<Labelled<F>>, clauses: seq<R>, search: Search<F, R>, minNew: int): Iteration<R> {
    var residual := Residual(z, clauses, search.predict);
    var before := Positives(residual);
    match search.select(|clauses|, Facts(residual), Labels(residual))
    case None => Iteration(None, Abstained, before, 0)
    case Some(rule) =>
      var covered := Count(residual, CoveredBy(rule, search.predict));
      Iteration(Some(rule), if covered < minNew then Rejected else Committed, before, covered)
  }

  function Proposals<F, R>(z: seq<Labelled<F>>, search: Search<F, R>, minNew: int): seq<R> -> Iteration<R> {
    (clauses: seq<R>) => Proposal(z, clauses, search, minNew)
  }

  /** Each iteration is the proposal on the residual of the clauses before it, committed or the last one. */
  ghost predicate Explained<R>(proposal: seq<R> -> Iteration<R>, clauses: seq<R>, iterations: seq<Iteration<R>>) {
    && |clauses| <= |iterations| <= |clauses| + 1
    && (forall k :: 0 <= k < |iterations| ==> iterations[k] == proposal(clauses[..k]))
    && (forall k :: 0 <= k < |clauses| ==> iterations[k].reason.Committed? && iterations[k].rule == Some(clauses[k]))
    && (|iterations| > |clauses| ==> !iterations[|clauses|].reason.Committed?)
  }

  /** Why the loop stopped: the first of the four reasons that applies. */
  ghost predicate StoppedFor<F, R>(z: seq<Labelled<F>>, search: Search<F, R>, maxClauses: int, t: Theory<R>) {
    var done, left := |t.clauses| >= maxClauses, Positives(Residual(z, t.clauses, search.predict)) > 0;
    match t.stopReason
    case MaxClauses => done && |t.iterations| == |t.clauses|
    case NoPositives => !done && !left && |t.iterations| == |t.clauses|
    case SelectAbstained => !done && left && |t.iterations| > |t.clauses| && t.iterations[|t.clauses|].reason.Abstained?
    case InsufficientCoverage => !done && left && |t.iterations| > |t.clauses|
                                 && t.iterations[|t.clauses|].reason.Rejected?
  }

  // ---------------------------------------------------------------- what one more clause leaves

  lemma FiresMore<F, R>(clauses: seq<R>, rule: R, predict: (R, F) -> bool, fact: F)
    ensures Fires(clauses + [rule], predict, fact) <==> Fires(clauses, predict, fact) || predict(rule, fact)
  {
    var all := clauses + [rule];
    if Fires(clauses, predict, fact) {
      var k :| 0 <= k < |clauses| && predict(clauses[k], fact);
      assert predict(all[k], fact);
    }
    if predict(rule, fact) {
      assert predict(all[|clauses|], fact);
    }
  }

  function NotCoveredBy<F, R>(rule: R, predict: (R, F) -> bool): Labelled<F> -> bool {
    (x: Labelled<F>) => !(predict(rule, x.0) && x.1)
  }

  /** Dropping what one more clause covers from the residual gives the residual of one more clause. */
  lemma ResidualMore<F, R>(z: seq<Labelled<F>>, clauses: seq<R>, rule: R, predict: (R, F) -> bool)
    ensures Filter(Residual(z, clauses, predict), NotCoveredBy(rule, predict)) == Residual(z, clauses + [rule], predict)
  {
    forall x | x in z
      ensures Unexplained(clauses + [rule], predict)(x)
              == (Unexplained(clauses, predict)(x) && NotCoveredBy(rule, predict)(x))
    {
      FiresMore(clauses, rule, predict, x.0);
    }
    FilterTwice(z, Unexplained(clauses, predict), NotCoveredBy(rule, predict), Unexplained(clauses + [rule], predict));
  }

  /** Every list splits into what a filter keeps and what it drops. */
  lemma {:induction false} FilterCount<T>(s: seq<T>, keep: T -> bool, p: T -> bool, dropped: T -> bool)
    requires forall x :: dropped(x) == (p(x) && !keep(x))
    ensures Count(s, p) == Count(Filter(s, keep), p) + Count(s, dropped)
    decreases |s|
  {
    if |s| > 0 {
      var last := |s| - 1;
      FilterCount(s[..last], keep, p, dropped);
      assert s == s[..last] + [s[last]];
      SumByAppend(s[..last], s[last], Indicator(p));
      SumByAppend(s[..last], s[last], Indicator(dropped));
      SumByAppend(Filter(s[..last], keep), s[last], Indicator(p));
      assert Filter(s, keep) == if keep(s[last]) then Filter(s[..last], keep) + [s[last]] else Filter(s[..last], keep);
      assert dropped(s[last]) == (p(s[last]) && !keep(s[last]));
    }
  }

  // ---------------------------------------------------------------- the loop

  /** One pass of the covering step: the residual without the covered positives. */
  method DropCovered<F, R>(facts: seq<F>, labels: seq<bool>, rule: R, predict: (R, F) -> bool)
    returns (newFacts: seq<F>, newLabels: seq<bool>)
    requires |facts| == |labels|
    ensures |newFacts| == |newLabels|
    ensures Zip(newFacts, newLabels) == Filter(Zip(facts, labels), NotCoveredBy(rule, predict))
  {
    newFacts, newLabels := [], [];
    ghost var z := Zip(facts, labels);
    for i := 0 to |facts|
      invariant |newFacts| == |newLabels|
      invariant Zip(newFacts, newLabels) == Filter(z[..i], NotCoveredBy(rule, predict))
    {
      FilterStep(z, i, NotCoveredBy(rule, predict));
      assert z[i] == (facts[i], labels[i]);
      assert NotCoveredBy(rule, predict)(z[i]) == !(predict(rule, facts[i]) && labels[i]);
      ZipAppend(newFacts, newLabels, facts[i], labels[i]);
      if !(predict(rule, facts[i]) && labels[i]) {
        newFacts, newLabels := newFacts + [facts[i]], newLabels + [labels[i]];
      }
    }
    assert z[..|facts|] == z;
  }

  lemma ZipAppend<F>(facts: seq<F>, labels: seq<bool>, fact: F, positive: bool)
    requires |facts| == |labels|
    ensures Zip(facts + [fact], labels + [positive]) == Zip(facts, labels) + [(fact, positive)]
  {
  }

  /** One search call and the report on its answer. */
  method Propose<F, R>(ghost z: seq<Labelled<F>>, search: Search<F, R>, minNew: int, clauses: seq<R>, before: int,
                       facts: seq<F>, labels: seq<bool>) returns (it: Iteration<R>)
    requires |facts| == |labels| && Zip(facts, labels) == Residual(z, clauses, search.predict)
    requires before == Positives(Zip(facts, labels))
    ensures it == Proposal(z, clauses, search, minNew)
  {
    ghost var rest := Residual(z, clauses, search.predict);
    assert Facts(rest) == facts && Labels(rest) == labels;
    var selection := search.select(|clauses|, facts, labels);
    if selection.None? {
      return Iteration(None, Abstained, before, 0);
    }
    var rule := selection.value;
    var newlyCovered := CountCovered(facts, labels, rule, search.predict);
    if newlyCovered < minNew {
      return Iteration(Some(rule), Rejected, before, newlyCovered);
    }
    it := Iteration(Some(rule), Committed, before, newlyCovered);
  }

  /** `induce_theory`. */
  method InduceTheory<F, R>(search: Search<F, R>, facts: seq<F>, labels: seq<bool>, maxClauses: int, minNew: int)
    returns (t: Theory<R>, ghost residual: seq<Labelled<F>>)
    requires |facts| == |labels|
    ensures Explained(Proposals(Zip(facts, labels), search, minNew), t.clauses, t.iterations)
    ensures StoppedFor(Zip(facts, labels), search, maxClauses, t)
    ensures residual == Residual(Zip(facts, labels), t.clauses, search.predict)
    ensures |t.clauses| <= |t.iterations| <= if maxClauses < 0 then 0 else maxClauses
  {
    ghost var z := Zip(facts, labels);
    var residualFacts, residualLabels := facts, labels;
    var clauses: seq<R>, iterations: seq<Iteration<R>> := [], [];
    FilterAll(z, Unexplained([], search.predict));
    while true
      invariant |residualFacts| == |residualLabels|
      invariant Zip(residualFacts, residualLabels) == Residual(z, clauses, search.predict)
      invariant Explained(Proposals(z, search, minNew), clauses, iterations) && |iterations| == |clauses|
      invariant |clauses| <= if maxClauses < 0 then 0 else maxClauses
      decreases maxClauses - |clauses|
    {
      residual := Residual(z, clauses, search.predict);
      if |clauses| >= maxClauses {
        return Theory(clauses, iterations, MaxClauses), residual;
      }
      var before := CountTrue(residualFacts, residualLabels);
      CountBounds(residual, IsPositive());
      if before == 0 {
        return Theory(clauses, iterations, NoPositives), residual;
      }
      var it := Propose(z, search, minNew, clauses, before, residualFacts, residualLabels);
      ExplainedMore(Proposals(z, search, minNew), clauses, iterations);
      iterations := iterations + [it];
      if it.reason.Abstained? {
        return Theory(clauses, iterations, SelectAbstained), residual;
      }
      if it.reason.Rejected? {
        return Theory(clauses, iterations, InsufficientCoverage), residual;
      }
      var rule := it.rule.value;
      ResidualMore(z, clauses, rule, search.predict);
      clauses := clauses + [rule];
      residualFacts, residualLabels := DropCovered(residualFacts, residualLabels, rule, search.predict);
    }
  }

  lemma ExplainedMore<R>(proposal: seq<R> -> Iteration<R>, clauses: seq<R>, iterations: seq<Iteration<R>>)
    requires Explained(proposal, clauses, iterations) && |iterations| == |clauses|
    requires proposal(clauses).reason.Committed? ==> proposal(clauses).rule.Some?
    ensures var p := proposal(clauses);
            if p.reason.Committed? then Explained(proposal, clauses + [p.rule.value], iterations + [p])
            else Explained(proposal, clauses, iterations + [p])
  {
    assert clauses[..|clauses|] == clauses;
    var p := proposal(clauses);
    if p.reason.Committed? {
      var more := clauses + [p.rule.value];
      assert forall k :: 0 <= k <= |clauses| ==> more[..k] == clauses[..k];
    }
  }

  method CountTrue<F>(ghost facts: seq<F>, labels: seq<bool>) returns (n: int)
    requires |facts| == |labels|
    ensures n == Positives(Zip(facts, labels))
  {
    n := 0;
    ghost var z := Zip(facts, labels);
    for i := 0 to |labels|
      invariant n == Positives(z[..i])
    {
      assert z[..i + 1] == z[..i] + [z[i]];
      SumByAppend(z[..i], z[i], Indicator(IsPositive()));
      if labels[i] {
        n := n + 1;
      }
    }
    assert z[..|labels|] == z;
  }

  method CountCovered<F, R>(facts: seq<F>, labels: seq<bool>, rule: R, predict: (R, F) -> bool) returns (n: int)
    requires |facts| == |labels|
    ensures n == Count(Zip(facts, labels), CoveredBy(rule, predict))
  {
    n := 0;
    ghost var z := Zip(facts, labels);
    for i := 0 to |labels|
      invariant n == Count(z[..i], CoveredBy(rule, predict))
    {
      assert z[..i + 1] == z[..i] + [z[i]];
      SumByAppend(z[..i], z[i], Indicator(CoveredBy(rule, predict)));
      if predict(rule, facts[i]) && labels[i] {
        n := n + 1;
      }
    }
    assert z[..|labels|] == z;
  }

  // ---------------------------------------------------------------- conservation

  function NewlyCovered<R>(): Iteration<R> -> int {
    (it: Iteration<R>) => it.newlyCovered
  }

  /** A committed iteration's count is the loss of residual positives. */
  lemma ProposalTakes<F, R>(z: seq<Labelled<F>>, search: Search<F, R>, minNew: int, clauses: seq<R>)
    requires Proposal(z, clauses, search, minNew).reason.Committed?
    ensures var p := Proposal(z, clauses, search, minNew);
            && p.newlyCovered == Positives(Residual(z, clauses, search.predict))
                                 - Positives(Residual(z, clauses + [p.rule.value], search.predict))
            && p.newlyCovered >= minNew
  {
    var rule, before := Proposal(z, clauses, search, minNew).rule.value, Residual(z, clauses, search.predict);
    ResidualMore(z, clauses, rule, search.predict);
    FilterCount(before, NotCoveredBy(rule, search.predict), IsPositive(), CoveredBy(rule, search.predict));
  }

  /** Counts that are each the loss of a weight add up to the whole loss. */
  lemma {:induction false} LossesTelescope<R>(proposal: seq<R> -> Iteration<R>, weight: seq<R> -> int, minNew: int,
                                              clauses: seq<R>, iterations: seq<Iteration<R>>, k: nat)
    requires Explained(proposal, clauses, iterations) && k <= |clauses|
    requires forall j :: 0 <= j < |clauses| ==>
               iterations[j].newlyCovered == weight(clauses[..j]) - weight(clauses[..j + 1]) >= minNew
    ensures SumBy(iterations[..k], NewlyCovered()) == weight([]) - weight(clauses[..k])
    ensures SumBy(iterations[..k], NewlyCovered()) >= minNew * k
  {
    if k == 0 {
      assert clauses[..0] == [];
    } else {
      LossesTelescope(proposal, weight, minNew, clauses, iterations, k - 1);
      assert iterations[..k] == iterations[..k - 1] + [iterations[k - 1]];
      SumByAppend(iterations[..k - 1], iterations[k - 1], NewlyCovered<R>());
      assert clauses[..k - 1 + 1] == clauses[..k];
      assert minNew * k == minNew * (k - 1) + minNew;
    }
  }

  function PositivesLeft<F, R>(z: seq<Labelled<F>>, predict: (R, F) -> bool): seq<R> -> int {
    (clauses: seq<R>) => Positives(Residual(z, clauses, predict))
  }

  /** What the committed clauses report as newly covered is what the residual has lost. */
  lemma CoverageTelescopes<F, R>(z: seq<Labelled<F>>, search: Search<F, R>, minNew: int, clauses: seq<R>,
                                 iterations: seq<Iteration<R>>)
    requires Explained(Proposals(z, search, minNew), clauses, iterations)
    ensures SumBy(iterations[..|clauses|], NewlyCovered())
            == Positives(z) - Positives(Residual(z, clauses, search.predict))
    ensures SumBy(iterations[..|clauses|], NewlyCovered()) >= minNew * |clauses|
  {
    var weight := PositivesLeft(z, search.predict);
    forall j | 0 <= j < |clauses|
      ensures iterations[j].newlyCovered == weight(clauses[..j]) - weight(clauses[..j + 1]) >= minNew
    {
      assert iterations[j] == Proposals(z, search, minNew)(clauses[..j]);
      ProposalTakes(z, search, minNew, clauses[..j]);
      assert clauses[..j + 1] == clauses[..j] + [clauses[j]];
    }
    LossesTelescope(Proposals(z, search, minNew), weight, minNew, clauses, iterations, |clauses|);
    assert clauses[..|clauses|] == clauses;
    FilterAll(z, Unexplained([], search.predict));
  }

  /** Every residual positive is a false negative of the clause union, every dropped one a true positive. */
  lemma {:induction false} ResidualIsMissed<F, R>(z: seq<Labelled<F>>, clauses: seq<R>, predict: (R, F) -> bool)
    ensures var pred, gold := Predictions(clauses, predict, Facts(z)), Labels(z);
            && Positives(Residual(z, clauses, predict)) == Tally(pred, gold, false, true)
            && Positives(z) == Tally(pred, gold, true, true) + Tally(pred, gold, false, true)
            && |Residual(z, clauses, predict)| == |z| - Tally(pred, gold, true, true)
    decreases |z|
  {
    if |z| > 0 {
      var last := |z| - 1;
      var pred, gold := Predictions(clauses, predict, Facts(z)), Labels(z);
      ResidualIsMissed(z[..last], clauses, predict);
      assert pred[..last] == Predictions(clauses, predict, Facts(z[..last]));
      assert gold[..last] == Labels(z[..last]);
      PositivesGrow(z[..last], z[last]);
      assert z == z[..last] + [z[last]];
      PositivesGrow(Residual(z[..last], clauses, predict), z[last]);
      ResidualGrows(z, clauses, predict);
    }
  }

  lemma PositivesGrow<F>(z: seq<Labelled<F>>, x: Labelled<F>)
    ensures Positives(z + [x]) == Positives(z) + if x.1 then 1 else 0
  {
    SumByAppend(z, x, Indicator(IsPositive<F>()));
  }

  lemma ResidualGrows<F, R>(z: seq<Labelled<F>>, clauses: seq<R>, predict: (R, F) -> bool)
    requires |z| > 0
    ensures var last := |z| - 1;
            var kept := Residual(z[..last], clauses, predict);
            Residual(z, clauses, predict)
            == if z[last].1 && Fires(clauses, predict, z[last].0) then kept else kept + [z[last]]
  {
  }

  /**
   Conservation: the committed iterations' newly covered positives add up to the true positives of
   the clause union, and the positives left in the residual are its false negatives.
   */
  lemma CoverageIsConserved<F, R>(z: seq<Labelled<F>>, search: Search<F, R>, minNew: int, clauses: seq<R>,
                                  iterations: seq<Iteration<R>>)
    requires Explained(Proposals(z, search, minNew), clauses, iterations)
    ensures var pred, gold := Predictions(clauses, search.predict, Facts(z)), Labels(z);
            && SumBy(iterations[..|clauses|], NewlyCovered()) == Tally(pred, gold, true, true)
            && Positives(Residual(z, clauses, search.predict)) == Tally(pred, gold, false, true)
            && minNew * |clauses| <= Tally(pred, gold, true, true)
  {
    CoverageTelescopes(z, search, minNew, clauses, iterations);
    ResidualIsMissed(z, clauses, search.predict);
  }

  function IsNegative<F>(): Labelled<F> -> bool {
    (x: Labelled<F>) => !x.1
  }

  /** Negatives are never removed, and never change their order. */
  lemma NegativesAreKept<F, R>(z: seq<Labelled<F>>, clauses: seq<R>, predict: (R, F) -> bool)
    ensures Filter(Residual(z, clauses, predict), IsNegative()) == Filter(z, IsNegative())
  {
    FilterTwice(z, Unexplained(clauses, predict), IsNegative(), IsNegative());
  }

  /** A theory is scored by `prf1` exactly as its own log says, on the pair-times it was induced from. */
  method InduceAndScore<R>(search: Search<(int, int), R>, gold: seq<bool>, maxClauses: int, minNew: int)
    returns (t: Theory<R>, s: Scores)
    ensures Explained(Proposals(Zip(StarFacts(|gold|), gold), search, minNew), t.clauses, t.iterations)
    ensures StoppedFor(Zip(StarFacts(|gold|), gold), search, maxClauses, t)
    ensures s == ScoresOf(Predictions(t.clauses, search.predict, StarFacts(|gold|)), gold)
    ensures |t.clauses| <= |t.iterations| <= if maxClauses < 0 then 0 else maxClauses
    ensures s.tp == SumBy(t.iterations[..|t.clauses|], NewlyCovered())
    ensures s.fn == Positives(Residual(Zip(StarFacts(|gold|), gold), t.clauses, search.predict))
    ensures t.stopReason.NoPositives? ==> s.fn == 0
  {
    var facts := StarFacts(|gold|);
    ghost var residual: seq<Labelled<(int, int)>>;
    t, residual := InduceTheory(search, facts, gold, maxClauses, minNew);
    var pred := TheoryPredictions(t.clauses, search.predict, |gold|);
    var scored := Prf1(pred, gold);
    ghost var z := Zip(facts, gold);
    CoverageIsConserved(z, search, minNew, t.clauses, t.iterations);
    assert Facts(z) == facts && Labels(z) == gold;
    s := scored.value;
  }
}
