/** Targets, masks and inertia over groups of rows: caviar_continuous.py. */
module ContinuousEvents {
  import opened Lists
  import opened EventCalculus
  import opened PairRows

  /*
   Each loop writes its own group's rows of shared lists. The groups are visited in an arbitrary
   order, so the results do not depend on it.
   */

  // ---------------------------------------------------------------- filling lists group by group

  /** `flags` agrees with `spec` on the rows of all groups but those still to do, and is False there. */
  ghost predicate Filled(flags: seq<bool>, spec: seq<bool>, ks: seq<Key>, todo: set<Key>) {
    && |flags| == |spec| == |ks|
    && forall pt :: 0 <= pt < |ks| ==> (flags[pt] <==> spec[pt] && ks[pt] !in todo)
  }

  /** The same inside group `k`, whose rows below `limit` are done. */
  ghost predicate FilledTo(flags: seq<bool>, spec: seq<bool>, ks: seq<Key>, todo: set<Key>, k: Key, limit: nat) {
    && |flags| == |spec| == |ks|
    && forall pt :: 0 <= pt < |ks| ==> (flags[pt] <==> spec[pt] && (ks[pt] !in todo || (ks[pt] == k && pt < limit)))
  }

  /** The first row not yet visited after `i` rows of the group. */
  function Limit(ks: seq<Key>, k: Key, i: nat): nat {
    var pts := PtsOf(ks, k, |ks|);
    if i < |pts| then pts[i] else |ks|
  }

  lemma FillStart(flags: seq<bool>, spec: seq<bool>, ks: seq<Key>, todo: set<Key>, k: Key)
    requires Filled(flags, spec, ks, todo) && k in todo
    ensures FilledTo(flags, spec, ks, todo, k, Limit(ks, k, 0))
  {
    NotBetween(ks, k, 0);
  }

  /** A row of the group from the one listed before the `i`-th up to the `i`-th. */
  predicate InLimits(ks: seq<Key>, k: Key, i: nat, pt: nat) {
    pt < Limit(ks, k, i) && pt < |ks| && ks[pt] == k && (i > 0 ==> pt >= Limit(ks, k, i - 1))
  }

  /** No row of the group lies between two it lists one after the other. */
  lemma NotBetween(ks: seq<Key>, k: Key, i: nat)
    requires i <= |PtsOf(ks, k, |ks|)|
    ensures forall pt: nat :: InLimits(ks, k, i, pt) ==> i > 0 && pt == Limit(ks, k, i - 1)
  {
    var pts := PtsOf(ks, k, |ks|);
    forall pt: nat | InLimits(ks, k, i, pt)
      ensures i > 0 && pt == Limit(ks, k, i - 1)
    {
      assert pt in pts;
      var j :| 0 <= j < |pts| && pts[j] == pt;
    }
  }

  lemma FillStep(flags: seq<bool>, spec: seq<bool>, ks: seq<Key>, todo: set<Key>, k: Key, i: nat)
    requires k in todo && i < |PtsOf(ks, k, |ks|)| && FilledTo(flags, spec, ks, todo, k, Limit(ks, k, i))
    ensures Limit(ks, k, i) < |ks|
    ensures FilledTo(flags[Limit(ks, k, i) := spec[Limit(ks, k, i)]], spec, ks, todo, k, Limit(ks, k, i + 1))
  {
    NotBetween(ks, k, i + 1);
    var pts := PtsOf(ks, k, |ks|);
    var at, next := Limit(ks, k, i), Limit(ks, k, i + 1);
    assert at == pts[i] && ks[at] == k && at < next;
    forall pt: nat | pt < |ks| && ks[pt] == k && at < pt
      ensures pt >= next
    {
      assert !InLimits(ks, k, i + 1, pt);
    }
  }

  /** The same for a row that is written only when its flag is True. */
  lemma FillNext(flags: seq<bool>, spec: seq<bool>, ks: seq<Key>, todo: set<Key>, k: Key, i: nat, hit: bool)
    requires k in todo && i < |PtsOf(ks, k, |ks|)| && FilledTo(flags, spec, ks, todo, k, Limit(ks, k, i))
    requires var pt := PtsOf(ks, k, |ks|)[i]; hit == spec[pt]
    ensures var pt := PtsOf(ks, k, |ks|)[i];
            FilledTo(Marked(flags, pt, hit), spec, ks, todo, k, Limit(ks, k, i + 1))
  {
    FillStep(flags, spec, ks, todo, k, i);
    var pt := PtsOf(ks, k, |ks|)[i];
    assert !flags[pt];
    assert flags[pt := spec[pt]] == if hit then flags[pt := true] else flags;
  }

  lemma FillEnd(flags: seq<bool>, spec: seq<bool>, ks: seq<Key>, todo: set<Key>, k: Key)
    requires FilledTo(flags, spec, ks, todo, k, |ks|)
    ensures Filled(flags, spec, ks, todo - {k})
  {
  }

  lemma FilledAll(flags: seq<bool>, spec: seq<bool>, ks: seq<Key>)
    requires Filled(flags, spec, ks, {})
    ensures flags == spec
  {
  }

  lemma FilledNone(spec: seq<bool>, ks: seq<Key>, groups: map<Key, seq<nat>>)
    requires |spec| == |ks| && Grouped(groups, ks, |ks|)
    ensures Filled(seq(|ks|, _ => false), spec, ks, groups.Keys)
  {
  }

  // ---------------------------------------------------------------- targets

  datatype Targets = Targets(isInit: seq<bool>, isTerm: seq<bool>, nInit: int, nTerm: int, nInitReal: int,
                             nInitInclusive: int)

  ghost predicate TargetsFor(t: Targets, ks: seq<Key>, gold: seq<bool>, first: bool) {
    && |gold| == |ks|
    && t.isInit == InitLabels(ks, gold, first)
    && t.isTerm == TermLabels(ks, gold)
    && t.nInit == Count(t.isInit, IsTrue) && t.nTerm == Count(t.isTerm, IsTrue)
    && t.nInitReal == Count(InitLabels(ks, gold, false), IsTrue)
    && t.nInitInclusive == Count(InitLabels(ks, gold, true), IsTrue)
  }

  /** The targets at one row of a group, from its label and that of the row before. */
  lemma TargetCells(ks: seq<Key>, gold: seq<bool>, k: Key, idx: nat, prevPos: bool)
    requires |gold| == |ks| && idx < |PtsOf(ks, k, |ks|)|
    requires idx > 0 ==> prevPos == gold[PtsOf(ks, k, |ks|)[idx - 1]]
    ensures var pt := PtsOf(ks, k, |ks|)[idx];
            && (InitLabels(ks, gold, false)[pt] <==> gold[pt] && idx > 0 && !prevPos)
            && (InitLabels(ks, gold, true)[pt] <==> gold[pt] && (idx == 0 || !prevPos))
            && (TermLabels(ks, gold)[pt] <==> !gold[pt] && idx > 0 && prevPos)
  {
    PredecessorInGroup(ks, k, |ks|, idx);
  }

  ghost predicate TargetsTo(strict: seq<bool>, incl: seq<bool>, term: seq<bool>, ks: seq<Key>, gold: seq<bool>,
                            todo: set<Key>, k: Key, limit: nat)
    requires |gold| == |ks|
  {
    && FilledTo(strict, InitLabels(ks, gold, false), ks, todo, k, limit)
    && FilledTo(incl, InitLabels(ks, gold, true), ks, todo, k, limit)
    && FilledTo(term, TermLabels(ks, gold), ks, todo, k, limit)
  }

  /** A list with one cell set if the row is hit. */
  function Marked(flags: seq<bool>, pt: nat, hit: bool): seq<bool>
    requires pt < |flags|
  {
    if hit then flags[pt := true] else flags
  }

  lemma TargetsStep(strict: seq<bool>, incl: seq<bool>, term: seq<bool>, ks: seq<Key>, gold: seq<bool>,
                    todo: set<Key>, k: Key, idx: nat, prevPos: bool)
    requires |gold| == |ks| && k in todo && idx < |PtsOf(ks, k, |ks|)|
    requires TargetsTo(strict, incl, term, ks, gold, todo, k, Limit(ks, k, idx))
    requires idx > 0 ==> prevPos == gold[PtsOf(ks, k, |ks|)[idx - 1]]
    ensures var pt := PtsOf(ks, k, |ks|)[idx];
            TargetsTo(Marked(strict, pt, gold[pt] && idx > 0 && !prevPos),
                      Marked(incl, pt, gold[pt] && (idx == 0 || !prevPos)),
                      Marked(term, pt, !gold[pt] && idx > 0 && prevPos), ks, gold, todo, k, Limit(ks, k, idx + 1))
  {
    var pos := gold[PtsOf(ks, k, |ks|)[idx]];
    TargetCells(ks, gold, k, idx, prevPos);
    FillNext(strict, InitLabels(ks, gold, false), ks, todo, k, idx, pos && idx > 0 && !prevPos);
    FillNext(incl, InitLabels(ks, gold, true), ks, todo, k, idx, pos && (idx == 0 || !prevPos));
    FillNext(term, TermLabels(ks, gold), ks, todo, k, idx, !pos && idx > 0 && prevPos);
  }

  /** The loop over one group's rows in `derive_ec_targets_continuous`. */
  method TargetsOfGroup(ks: seq<Key>, gold: seq<bool>, ghost todo: set<Key>, k: Key, pts: seq<nat>,
                        strict0: seq<bool>, incl0: seq<bool>, term0: seq<bool>)
    returns (strict: seq<bool>, incl: seq<bool>, term: seq<bool>)
    requires |gold| == |ks| && k in todo && pts == PtsOf(ks, k, |ks|)
    requires Filled(strict0, InitLabels(ks, gold, false), ks, todo)
    requires Filled(incl0, InitLabels(ks, gold, true), ks, todo)
    requires Filled(term0, TermLabels(ks, gold), ks, todo)
    ensures Filled(strict, InitLabels(ks, gold, false), ks, todo - {k})
    ensures Filled(incl, InitLabels(ks, gold, true), ks, todo - {k})
    ensures Filled(term, TermLabels(ks, gold), ks, todo - {k})
  {
    strict, incl, term := strict0, incl0, term0;
    FillStart(strict, InitLabels(ks, gold, false), ks, todo, k);
    FillStart(incl, InitLabels(ks, gold, true), ks, todo, k);
    FillStart(term, TermLabels(ks, gold), ks, todo, k);
    var prevPos := false;
    for idx := 0 to |pts|
      invariant idx > 0 ==> prevPos == gold[pts[idx - 1]]
      invariant TargetsTo(strict, incl, term, ks, gold, todo, k, Limit(ks, k, idx))
    {
      var pt := pts[idx];
      var pos := gold[pt];
      TargetsStep(strict, incl, term, ks, gold, todo, k, idx, prevPos);
      if idx == 0 {
        if pos {
          incl := incl[pt := true];
        }
      } else {
        if pos && !prevPos {
          strict := strict[pt := true];
          incl := incl[pt := true];
        }
        if !pos && prevPos {
          term := term[pt := true];
        }
      }
      prevPos := pos;
    }
    FillEnd(strict, InitLabels(ks, gold, false), ks, todo, k);
    FillEnd(incl, InitLabels(ks, gold, true), ks, todo, k);
    FillEnd(term, TermLabels(ks, gold), ks, todo, k);
  }

  method TargetsOfGroups(ks: seq<Key>, gold: seq<bool>, groups: map<Key, seq<nat>>, first: bool) returns (t: Targets)
    requires |gold| == |ks| && Grouped(groups, ks, |ks|)
    ensures TargetsFor(t, ks, gold, first)
  {
    var strict := seq(|ks|, _ => false);
    var incl, term := strict, strict;
    ghost var strictSpec, inclSpec := InitLabels(ks, gold, false), InitLabels(ks, gold, true);
    ghost var termSpec := TermLabels(ks, gold);
    FilledNone(strictSpec, ks, groups);
    FilledNone(inclSpec, ks, groups);
    FilledNone(termSpec, ks, groups);
    var todo := groups.Keys;
    while todo != {}
      invariant todo <= groups.Keys
      invariant Filled(strict, strictSpec, ks, todo) && Filled(incl, inclSpec, ks, todo)
      invariant Filled(term, termSpec, ks, todo)
      decreases todo
    {
      var k :| k in todo;
      strict, incl, term := TargetsOfGroup(ks, gold, todo, k, groups[k], strict, incl, term);
      todo := todo - {k};
    }
    FilledAll(strict, strictSpec, ks);
    FilledAll(incl, inclSpec, ks);
    FilledAll(term, termSpec, ks);
    var chosen := if first then incl else strict;
    t := Targets(chosen, term, Count(chosen, IsTrue), Count(term, IsTrue), Count(strict, IsTrue), Count(incl, IsTrue));
  }

  /** `derive_ec_targets_continuous`. */
  method DeriveTargets(segments: seq<Segment>, c: Converted, first: bool) returns (r: Result<Targets>)
    ensures r.Ok? <==> |c.isPositive| == c.numPt == |AllRows(segments)|
    ensures r.Ok? ==> TargetsFor(r.value, Keys(AllRows(segments)), c.isPositive, first)
  {
    if |c.isPositive| != c.numPt {
      return Err("is_positive does not have num_pt entries");
    }
    var rows := AllRows(segments);
    var groups := GroupRows(rows, c.numPt);
    if groups.Err? {
      return Err(groups.error);
    }
    var t := TargetsOfGroups(Keys(rows), c.isPositive, groups.value, first);
    r := Ok(t);
  }

  // ---------------------------------------------------------------- masks

  datatype Masks = Masks(initDontCare: seq<bool>, termDontCare: seq<bool>, nInit: int, nTerm: int)

  /** The don't-care cells and how many there are of each kind. */
  ghost predicate MasksFor(m: Masks, ks: seq<Key>, gold: seq<bool>, first: bool)
    requires |ks| == |gold|
  {
    && m.initDontCare == InitMask(ks, gold, first) && m.termDontCare == TermMask(ks, gold)
    && m.nInit == Count(m.initDontCare, IsTrue) && m.nTerm == Count(m.termDontCare, IsTrue)
  }

  /** The masks at one row of a group, from its label and that of the row before. */
  lemma MaskCells(ks: seq<Key>, gold: seq<bool>, first: bool, k: Key, idx: nat, prevPos: bool)
    requires |gold| == |ks| && idx < |PtsOf(ks, k, |ks|)|
    requires idx > 0 ==> prevPos == gold[PtsOf(ks, k, |ks|)[idx - 1]]
    ensures var pt := PtsOf(ks, k, |ks|)[idx];
            && (InitMask(ks, gold, first)[pt] <==> gold[pt] && if idx == 0 then !first else prevPos)
            && (TermMask(ks, gold)[pt] <==> !gold[pt] && (idx == 0 || !prevPos))
  {
    PredecessorInGroup(ks, k, |ks|, idx);
  }

  ghost predicate MasksTo(init: seq<bool>, term: seq<bool>, ks: seq<Key>, gold: seq<bool>, first: bool,
                          todo: set<Key>, k: Key, limit: nat)
    requires |gold| == |ks|
  {
    && FilledTo(init, InitMask(ks, gold, first), ks, todo, k, limit)
    && FilledTo(term, TermMask(ks, gold), ks, todo, k, limit)
  }

  lemma MasksStep(init: seq<bool>, term: seq<bool>, ks: seq<Key>, gold: seq<bool>, first: bool, todo: set<Key>, k: Key,
                  idx: nat, prevPos: bool)
    requires |gold| == |ks| && k in todo && idx < |PtsOf(ks, k, |ks|)|
    requires MasksTo(init, term, ks, gold, first, todo, k, Limit(ks, k, idx))
    requires idx > 0 ==> prevPos == gold[PtsOf(ks, k, |ks|)[idx - 1]]
    ensures var pt := PtsOf(ks, k, |ks|)[idx];
            MasksTo(Marked(init, pt, gold[pt] && if idx == 0 then !first else prevPos),
                    Marked(term, pt, !gold[pt] && (idx == 0 || !prevPos)), ks, gold, first, todo, k,
                    Limit(ks, k, idx + 1))
  {
    var pos := gold[PtsOf(ks, k, |ks|)[idx]];
    MaskCells(ks, gold, first, k, idx, prevPos);
    FillNext(init, InitMask(ks, gold, first), ks, todo, k, idx, pos && if idx == 0 then !first else prevPos);
    FillNext(term, TermMask(ks, gold), ks, todo, k, idx, !pos && (idx == 0 || !prevPos));
  }

  /** The loop over one group's rows in `derive_ec_masks_continuous`. */
  method MasksOfGroup(ks: seq<Key>, gold: seq<bool>, first: bool, ghost todo: set<Key>, k: Key, pts: seq<nat>,
                      init0: seq<bool>, term0: seq<bool>)
    returns (init: seq<bool>, term: seq<bool>)
    requires |gold| == |ks| && k in todo && pts == PtsOf(ks, k, |ks|)
    requires Filled(init0, InitMask(ks, gold, first), ks, todo) && Filled(term0, TermMask(ks, gold), ks, todo)
    ensures Filled(init, InitMask(ks, gold, first), ks, todo - {k}) && Filled(term, TermMask(ks, gold), ks, todo - {k})
  {
    init, term := init0, term0;
    FillStart(init, InitMask(ks, gold, first), ks, todo, k);
    FillStart(term, TermMask(ks, gold), ks, todo, k);
    var prevPos := false;
    for idx := 0 to |pts|
      invariant idx > 0 ==> prevPos == gold[pts[idx - 1]]
      invariant MasksTo(init, term, ks, gold, first, todo, k, Limit(ks, k, idx))
    {
      var pt := pts[idx];
      var pos := gold[pt];
      ghost var nextInit := Marked(init, pt, pos && if idx == 0 then !first else prevPos);
      ghost var nextTerm := Marked(term, pt, !pos && (idx == 0 || !prevPos));
      MasksStep(init, term, ks, gold, first, todo, k, idx, prevPos);
      if idx == 0 {
        if pos {
          if !first {
            init := init[pt := true];
          }
        } else {
          term := term[pt := true];
        }
      } else {
        if pos && prevPos {
          init := init[pt := true];
        } else if !pos && !prevPos {
          term := term[pt := true];
        }
      }
      assert init == nextInit && term == nextTerm;
      prevPos := pos;
    }
    FillEnd(init, InitMask(ks, gold, first), ks, todo, k);
    FillEnd(term, TermMask(ks, gold), ks, todo, k);
  }

  method MasksOfGroups(ks: seq<Key>, gold: seq<bool>, groups: map<Key, seq<nat>>, first: bool) returns (m: Masks)
    requires |gold| == |ks| && Grouped(groups, ks, |ks|)
    ensures MasksFor(m, ks, gold, first)
  {
    var init := seq(|ks|, _ => false);
    var term := init;
    ghost var initSpec, termSpec := InitMask(ks, gold, first), TermMask(ks, gold);
    FilledNone(initSpec, ks, groups);
    FilledNone(termSpec, ks, groups);
    var todo := groups.Keys;
    while todo != {}
      invariant todo <= groups.Keys
      invariant Filled(init, initSpec, ks, todo) && Filled(term, termSpec, ks, todo)
      decreases todo
    {
      var k :| k in todo;
      init, term := MasksOfGroup(ks, gold, first, todo, k, groups[k], init, term);
      todo := todo - {k};
    }
    FilledAll(init, initSpec, ks);
    FilledAll(term, termSpec, ks);
    m := Masks(init, term, Count(init, IsTrue), Count(term, IsTrue));
  }

  /** `derive_ec_masks_continuous`. */
  method DeriveMasks(segments: seq<Segment>, c: Converted, first: bool) returns (r: Result<Masks>)
    ensures r.Ok? <==> |c.isPositive| == c.numPt == |AllRows(segments)|
    ensures r.Ok? ==> MasksFor(r.value, Keys(AllRows(segments)), c.isPositive, first)
  {
    if |c.isPositive| != c.numPt {
      return Err("is_positive does not have num_pt entries");
    }
    var rows := AllRows(segments);
    var groups := GroupRows(rows, c.numPt);
    if groups.Err? {
      return Err(groups.error);
    }
    var m := MasksOfGroups(Keys(rows), c.isPositive, groups.value, first);
    r := Ok(m);
  }

  // ---------------------------------------------------------------- reconstruction

  function HoldsList(ks: seq<Key>, init: seq<bool>, term: seq<bool>): (s: seq<bool>)
    requires |ks| == |init| == |term|
    ensures |s| == |ks| && forall pt :: 0 <= pt < |s| ==> (s[pt] <==> HoldsAt(ks, init, term, pt))
  {
    seq(|ks|, pt requires 0 <= pt < |ks| => HoldsAt(ks, init, term, pt))
  }

  /** A row's state comes from its own events and the state of the row its group lists before it. */
  lemma HoldsNext(ks: seq<Key>, init: seq<bool>, term: seq<bool>, k: Key, i: nat)
    requires |ks| == |init| == |term| && i < |PtsOf(ks, k, |ks|)|
    ensures var pts, spec := PtsOf(ks, k, |ks|), HoldsList(ks, init, term);
            spec[pts[i]] == (init[pts[i]] || (!term[pts[i]] && i > 0 && spec[pts[i - 1]]))
  {
    PredecessorInGroup(ks, k, |ks|, i);
  }

  /** One group's state machine in `reconstruct_holds_continuous`. */
  method ReconstructGroup(ks: seq<Key>, init: seq<bool>, term: seq<bool>, ghost todo: set<Key>, k: Key, pts: seq<nat>,
                          holds0: seq<bool>)
    returns (holds: seq<bool>)
    requires |ks| == |init| == |term| && k in todo && pts == PtsOf(ks, k, |ks|)
    requires Filled(holds0, HoldsList(ks, init, term), ks, todo)
    ensures Filled(holds, HoldsList(ks, init, term), ks, todo - {k})
  {
    holds := holds0;
    ghost var spec := HoldsList(ks, init, term);
    FillStart(holds, spec, ks, todo, k);
    var state := false;
    for idx := 0 to |pts|
      invariant state == (idx > 0 && spec[pts[idx - 1]])
      invariant FilledTo(holds, spec, ks, todo, k, Limit(ks, k, idx))
    {
      var pt := pts[idx];
      HoldsNext(ks, init, term, k, idx);
      FillStep(holds, spec, ks, todo, k, idx);
      if term[pt] {
        state := false;
      }
      if init[pt] {
        state := true;
      }
      assert state == spec[pt];
      holds := holds[pt := state];
    }
    FillEnd(holds, spec, ks, todo, k);
  }

  method ReconstructGroups(ks: seq<Key>, init: seq<bool>, term: seq<bool>, groups: map<Key, seq<nat>>)
    returns (holds: seq<bool>)
    requires |ks| == |init| == |term| && Grouped(groups, ks, |ks|)
    ensures holds == HoldsList(ks, init, term)
  {
    holds := seq(|ks|, _ => false);
    ghost var spec := HoldsList(ks, init, term);
    FilledNone(spec, ks, groups);
    var todo := groups.Keys;
    while todo != {}
      invariant todo <= groups.Keys && Filled(holds, spec, ks, todo)
      decreases todo
    {
      var k :| k in todo;
      holds := ReconstructGroup(ks, init, term, todo, k, groups[k], holds);
      todo := todo - {k};
    }
    FilledAll(holds, spec, ks);
  }

  /** `reconstruct_holds_continuous`. */
  method ReconstructHolds(init: seq<bool>, term: seq<bool>, segments: seq<Segment>, numPt: nat)
    returns (r: Result<seq<bool>>)
    ensures r.Ok? <==> |init| == |term| == numPt == |AllRows(segments)|
    ensures r.Ok? ==> r.value == HoldsList(Keys(AllRows(segments)), init, term)
  {
    if |init| != numPt {
      return Err("init_pred does not have num_pt entries");
    }
    if |term| != numPt {
      return Err("term_pred does not have num_pt entries");
    }
    var rows := AllRows(segments);
    var groups := GroupRows(rows, numPt);
    if groups.Err? {
      return Err(groups.error);
    }
    var holds := ReconstructGroups(Keys(rows), init, term, groups.value);
    r := Ok(holds);
  }

  /**
   The three functions together. The labels give targets and masks; a prediction that agrees with
   those targets wherever those masks let it be judged goes through the state machine, and what
   the state machine computes from the prediction is the labels the run started from.
   */
  method MaskedRoundTrip(segments: seq<Segment>, c: Converted, init: seq<bool>, term: seq<bool>)
    returns (targets: Targets, masks: Masks, holds: seq<bool>)
    requires |c.isPositive| == c.numPt == |AllRows(segments)| == |init| == |term|
    requires AgreesOffMask(Keys(AllRows(segments)), c.isPositive, true, init, term)
    ensures TargetsFor(targets, Keys(AllRows(segments)), c.isPositive, true)
    ensures MasksFor(masks, Keys(AllRows(segments)), c.isPositive, true)
    ensures JudgedAlike(init, targets.isInit, masks.initDontCare)
    ensures JudgedAlike(term, targets.isTerm, masks.termDontCare)
    ensures holds == HoldsList(Keys(AllRows(segments)), init, term) == c.isPositive
  {
    var derived := DeriveTargets(segments, c, true);
    targets := derived.value;
    var masked := DeriveMasks(segments, c, true);
    masks := masked.value;
    var r := ReconstructHolds(init, term, segments, c.numPt);
    holds := r.value;
    JudgedRestores(Keys(AllRows(segments)), c.isPositive, init, term);
  }

  /** The prediction equals the targets wherever the mask does not hide them. */
  ghost predicate JudgedAlike(pred: seq<bool>, target: seq<bool>, mask: seq<bool>) {
    |pred| == |target| == |mask| && forall pt :: 0 <= pt < |pred| && !mask[pt] ==> pred[pt] == target[pt]
  }

  /** Agreeing with the targets off the masks is all that reconstructing the labels takes. */
  lemma JudgedRestores(ks: seq<Key>, gold: seq<bool>, init: seq<bool>, term: seq<bool>)
    requires |ks| == |gold| == |init| == |term|
    ensures JudgedAlike(init, InitLabels(ks, gold, true), InitMask(ks, gold, true))
            && JudgedAlike(term, TermLabels(ks, gold), TermMask(ks, gold))
            <==> AgreesOffMask(ks, gold, true, init, term)
    ensures AgreesOffMask(ks, gold, true, init, term) ==> HoldsList(ks, init, term) == gold
  {
    if AgreesOffMask(ks, gold, true, init, term) {
      forall pt | 0 <= pt < |ks|
        ensures HoldsList(ks, init, term)[pt] == gold[pt]
      {
        UnmaskedAgreementRestoresGold(ks, gold, init, term, pt);
      }
    }
  }
}
