/** The Event-Calculus reading of label sequences. */
module EventCalculus {
  import opened Lists

  /*
   Shared by the windowed, the continuous and the maritime pipelines: labels become initiation
   and termination events, events run through an inertia state machine, and the state machine
   gives the labels back.

   Rows of many sequences may be interleaved. `keys[pt]` names the sequence row `pt` belongs to
   (a window, a segment and pair, or an episode); a row's predecessor is the latest earlier row
   with the same key.
   */

  /** The latest of the first `n` rows that has the given key. */
  function LatestBefore<K(==)>(keys: seq<K>, key: K, n: nat): (q: Option<nat>)
    requires n <= |keys|
    ensures q.Some? ==> q.value < n && keys[q.value] == key && forall r :: q.value < r < n ==> keys[r] != key
    ensures q.None? ==> forall r :: 0 <= r < n ==> keys[r] != key
  {
    if n == 0 then None
    else if keys[n - 1] == key then Some(n - 1)
    else LatestBefore(keys, key, n - 1)
  }

  function Prev<K(==)>(keys: seq<K>, pt: nat): Option<nat>
    requires pt < |keys|
  {
    LatestBefore(keys, keys[pt], pt)
  }

  // ---------------------------------------------------------------- targets, masks, inertia

  /** The fluent did not hold at the predecessor, or there is none. */
  predicate WasOff<K(==)>(keys: seq<K>, gold: seq<bool>, pt: nat)
    requires pt < |keys| == |gold|
  {
    Prev(keys, pt).None? || !gold[Prev(keys, pt).value]
  }

  /** An initiation at `pt`; `first` says whether holding at the first observed row counts as one. */
  predicate IsInit<K(==)>(keys: seq<K>, gold: seq<bool>, first: bool, pt: nat)
    requires pt < |keys| == |gold|
  {
    gold[pt] && WasOff(keys, gold, pt) && (first || Prev(keys, pt).Some?)
  }

  predicate IsTerm<K(==)>(keys: seq<K>, gold: seq<bool>, pt: nat)
    requires pt < |keys| == |gold|
  {
    !gold[pt] && !WasOff(keys, gold, pt)
  }

  /** Rows where predicting an initiation is not judged. */
  predicate InitDontCare<K(==)>(keys: seq<K>, gold: seq<bool>, first: bool, pt: nat)
    requires pt < |keys| == |gold|
  {
    gold[pt] && (!WasOff(keys, gold, pt) || (!first && Prev(keys, pt).None?))
  }

  /** Rows where predicting a termination is not judged. */
  predicate TermDontCare<K(==)>(keys: seq<K>, gold: seq<bool>, pt: nat)
    requires pt < |keys| == |gold|
  {
    !gold[pt] && WasOff(keys, gold, pt)
  }

  /** The inertia state machine of each sequence: a termination clears first, then an initiation sets. */
  predicate HoldsAt<K(==)>(keys: seq<K>, init: seq<bool>, term: seq<bool>, pt: nat)
    requires pt < |keys| == |init| == |term|
    decreases pt
  {
    init[pt] || (!term[pt] && Prev(keys, pt).Some? && HoldsAt(keys, init, term, Prev(keys, pt).value))
  }

  /** The events of a gold sequence, as lists. */
  function InitLabels<K(==)>(keys: seq<K>, gold: seq<bool>, first: bool): (s: seq<bool>)
    requires |keys| == |gold|
    ensures |s| == |keys| && forall pt :: 0 <= pt < |s| ==> (s[pt] <==> IsInit(keys, gold, first, pt))
  {
    seq(|keys|, pt requires 0 <= pt < |keys| => IsInit(keys, gold, first, pt))
  }

  function TermLabels<K(==)>(keys: seq<K>, gold: seq<bool>): (s: seq<bool>)
    requires |keys| == |gold|
    ensures |s| == |keys| && forall pt :: 0 <= pt < |s| ==> (s[pt] <==> IsTerm(keys, gold, pt))
  {
    seq(|keys|, pt requires 0 <= pt < |keys| => IsTerm(keys, gold, pt))
  }

  /** The don't-care masks, as lists. */
  function InitMask<K(==)>(keys: seq<K>, gold: seq<bool>, first: bool): (s: seq<bool>)
    requires |keys| == |gold|
    ensures |s| == |keys| && forall pt :: 0 <= pt < |s| ==> (s[pt] <==> InitDontCare(keys, gold, first, pt))
  {
    seq(|keys|, pt requires 0 <= pt < |keys| => InitDontCare(keys, gold, first, pt))
  }

  function TermMask<K(==)>(keys: seq<K>, gold: seq<bool>): (s: seq<bool>)
    requires |keys| == |gold|
    ensures |s| == |keys| && forall pt :: 0 <= pt < |s| ==> (s[pt] <==> TermDontCare(keys, gold, pt))
  {
    seq(|keys|, pt requires 0 <= pt < |keys| => TermDontCare(keys, gold, pt))
  }

  /** A prediction that equals the targets wherever they are judged. */
  ghost predicate AgreesOffMask<K>(keys: seq<K>, gold: seq<bool>, first: bool, init: seq<bool>, term: seq<bool>) {
    && |keys| == |gold| == |init| == |term|
    && (forall pt :: 0 <= pt < |keys| && !InitDontCare(keys, gold, first, pt) ==>
          (init[pt] <==> IsInit(keys, gold, first, pt)))
    && (forall pt :: 0 <= pt < |keys| && !TermDontCare(keys, gold, pt) ==> (term[pt] <==> IsTerm(keys, gold, pt)))
  }

  // ---------------------------------------------------------------- inertia as interval closure

  /** Initiated at some row up to `pt` of the same sequence and not terminated since. */
  ghost predicate Closed<K>(keys: seq<K>, init: seq<bool>, term: seq<bool>, pt: nat)
    requires pt < |keys| == |init| == |term|
  {
    exists q :: 0 <= q <= pt && keys[q] == keys[pt] && init[q] && NotTerminated(keys, term, q, pt)
  }

  ghost predicate NotTerminated<K>(keys: seq<K>, term: seq<bool>, q: nat, pt: nat)
    requires q <= pt < |keys| == |term|
  {
    forall r :: q < r <= pt && keys[r] == keys[pt] ==> !term[r]
  }

  lemma {:induction false} InertiaIsClosure<K>(keys: seq<K>, init: seq<bool>, term: seq<bool>, pt: nat)
    requires pt < |keys| == |init| == |term|
    ensures HoldsAt(keys, init, term, pt) <==> Closed(keys, init, term, pt)
    decreases pt
  {
    var prev := Prev(keys, pt);
    if prev.Some? {
      InertiaIsClosure(keys, init, term, prev.value);
    }
    if init[pt] {
      assert NotTerminated(keys, term, pt, pt);
    } else {
      if HoldsAt(keys, init, term, pt) {
        var q :| 0 <= q <= prev.value && keys[q] == keys[prev.value] && init[q]
                 && NotTerminated(keys, term, q, prev.value);
        assert NotTerminated(keys, term, q, pt);
      }
      if Closed(keys, init, term, pt) {
        var q :| 0 <= q <= pt && keys[q] == keys[pt] && init[q] && NotTerminated(keys, term, q, pt);
        assert NotTerminated(keys, term, q, prev.value);
      }
    }
  }

  // ---------------------------------------------------------------- gold comes back

  /** When first-observed holding counts as an initiation, the masks hide nothing that matters. */
  lemma {:induction false} UnmaskedAgreementRestoresGold<K>(keys: seq<K>, gold: seq<bool>, init: seq<bool>,
                                                            term: seq<bool>, pt: nat)
    requires AgreesOffMask(keys, gold, true, init, term) && pt < |keys|
    ensures HoldsAt(keys, init, term, pt) <==> gold[pt]
    decreases pt
  {
    if Prev(keys, pt).Some? {
      UnmaskedAgreementRestoresGold(keys, gold, init, term, Prev(keys, pt).value);
    }
  }

  /** In particular the targets themselves reconstruct the labels they came from. */
  lemma TargetsRestoreGold<K>(keys: seq<K>, gold: seq<bool>, pt: nat)
    requires pt < |keys| == |gold|
    ensures HoldsAt(keys, InitLabels(keys, gold, true), TermLabels(keys, gold), pt) <==> gold[pt]
  {
    UnmaskedAgreementRestoresGold(keys, gold, InitLabels(keys, gold, true), TermLabels(keys, gold), pt);
  }

  // ---------------------------------------------------------------- one wrong cell

  ghost predicate Reconstructs<K>(keys: seq<K>, gold: seq<bool>, init: seq<bool>, term: seq<bool>) {
    && |keys| == |gold| == |init| == |term|
    && forall pt :: 0 <= pt < |keys| ==> (HoldsAt(keys, init, term, pt) <==> gold[pt])
  }

  /** Rows before a changed cell keep their state. */
  lemma {:induction false} EarlierRowsUnchanged<K>(keys: seq<K>, init: seq<bool>, term: seq<bool>,
                                                   init': seq<bool>, term': seq<bool>, pt: nat)
    requires pt < |keys| == |init| == |term| == |init'| == |term'|
    requires forall r :: 0 <= r <= pt ==> init[r] == init'[r] && (init[r] || term[r] == term'[r])
    ensures HoldsAt(keys, init, term, pt) == HoldsAt(keys, init', term', pt)
    decreases pt
  {
    if Prev(keys, pt).Some? {
      EarlierRowsUnchanged(keys, init, term, init', term', Prev(keys, pt).value);
    }
  }

  /** Flipping one initiation label changes the reconstruction exactly when the cell is judged. */
  lemma FlippedInitMatters<K>(keys: seq<K>, gold: seq<bool>, pt: nat)
    requires pt < |keys| == |gold|
    ensures var init, term := InitLabels(keys, gold, true), TermLabels(keys, gold);
            Reconstructs(keys, gold, init[pt := !init[pt]], term) <==> InitDontCare(keys, gold, true, pt)
  {
    var init, term := InitLabels(keys, gold, true), TermLabels(keys, gold);
    var flipped := init[pt := !init[pt]];
    if InitDontCare(keys, gold, true, pt) {
      forall r | 0 <= r < |keys|
        ensures HoldsAt(keys, flipped, term, r) <==> gold[r]
      {
        UnmaskedAgreementRestoresGold(keys, gold, flipped, term, r);
      }
    } else {
      if Prev(keys, pt).Some? {
        var q := Prev(keys, pt).value;
        EarlierRowsUnchanged(keys, init, term, flipped, term, q);
        TargetsRestoreGold(keys, gold, q);
      }
      assert HoldsAt(keys, flipped, term, pt) != gold[pt];
    }
  }

  /** Flipping one termination label matters unless it is not judged or an initiation overrides it. */
  lemma FlippedTermMatters<K>(keys: seq<K>, gold: seq<bool>, pt: nat)
    requires pt < |keys| == |gold|
    ensures var init, term := InitLabels(keys, gold, true), TermLabels(keys, gold);
            Reconstructs(keys, gold, init, term[pt := !term[pt]])
            <==> TermDontCare(keys, gold, pt) || IsInit(keys, gold, true, pt)
  {
    var init, term := InitLabels(keys, gold, true), TermLabels(keys, gold);
    var flipped := term[pt := !term[pt]];
    if TermDontCare(keys, gold, pt) {
      forall r | 0 <= r < |keys|
        ensures HoldsAt(keys, init, flipped, r) <==> gold[r]
      {
        UnmaskedAgreementRestoresGold(keys, gold, init, flipped, r);
      }
    } else if IsInit(keys, gold, true, pt) {
      forall r | 0 <= r < |keys|
        ensures HoldsAt(keys, init, flipped, r) <==> gold[r]
      {
        EarlierRowsUnchanged(keys, init, term, init, flipped, r);
        TargetsRestoreGold(keys, gold, r);
      }
    } else {
      var q := Prev(keys, pt).value;
      EarlierRowsUnchanged(keys, init, term, init, flipped, q);
      TargetsRestoreGold(keys, gold, q);
      assert HoldsAt(keys, init, flipped, pt) != gold[pt];
    }
  }

  // ---------------------------------------------------------------- the default reading

  /** `pt` belongs to the holding run its sequence starts with. */
  predicate Leading<K(==)>(keys: seq<K>, gold: seq<bool>, pt: nat)
    requires pt < |keys| == |gold|
    decreases pt
  {
    gold[pt] && (Prev(keys, pt).None? || Leading(keys, gold, Prev(keys, pt).value))
  }

  /** Some row up to `pt` of the same sequence is predicted as an initiation. */
  predicate InitiatedBy<K(==)>(keys: seq<K>, init: seq<bool>, pt: nat)
    requires pt < |keys| == |init|
    decreases pt
  {
    init[pt] || (Prev(keys, pt).Some? && InitiatedBy(keys, init, Prev(keys, pt).value))
  }

  /**
   When first-observed holding is not an initiation, agreement off the masks restores the labels
   outside the leading run; inside it the state is whatever the unjudged predictions make it.
   */
  lemma {:induction false} DefaultAgreement<K>(keys: seq<K>, gold: seq<bool>, init: seq<bool>, term: seq<bool>, pt: nat)
    requires AgreesOffMask(keys, gold, false, init, term) && pt < |keys|
    ensures HoldsAt(keys, init, term, pt)
            <==> if Leading(keys, gold, pt) then InitiatedBy(keys, init, pt) else gold[pt]
    decreases pt
  {
    if Prev(keys, pt).Some? {
      DefaultAgreement(keys, gold, init, term, Prev(keys, pt).value);
    }
  }

  /** The default targets reconstruct the labels except that each leading run reads as off. */
  lemma {:induction false} DefaultTargetsDropLeadingRun<K>(keys: seq<K>, gold: seq<bool>, pt: nat)
    requires pt < |keys| == |gold|
    ensures HoldsAt(keys, InitLabels(keys, gold, false), TermLabels(keys, gold), pt)
            <==> gold[pt] && !Leading(keys, gold, pt)
    decreases pt
  {
    if Prev(keys, pt).Some? {
      DefaultTargetsDropLeadingRun(keys, gold, Prev(keys, pt).value);
    }
  }

  /** The default masks leave the reconstruction determined. */
  ghost predicate MasksHarmless<K>(keys: seq<K>, gold: seq<bool>)
    requires |keys| == |gold|
  {
    forall init, term, pt :: AgreesOffMask(keys, gold, false, init, term) && 0 <= pt < |keys| ==>
      (HoldsAt(keys, init, term, pt) <==> HoldsAt(keys, InitLabels(keys, gold, false), TermLabels(keys, gold), pt))
  }

  /**
   The source calls firing on a masked row a no-op under inertia. With the default flag that is so
   exactly when no sequence is already holding at its first row.
   */
  lemma DefaultMasksHarmlessIff<K>(keys: seq<K>, gold: seq<bool>)
    requires |keys| == |gold|
    ensures MasksHarmless(keys, gold)
            <==> forall pt :: 0 <= pt < |keys| && Prev(keys, pt).None? ==> !gold[pt]
  {
    var init, term := InitLabels(keys, gold, false), TermLabels(keys, gold);
    if forall pt :: 0 <= pt < |keys| && Prev(keys, pt).None? ==> !gold[pt] {
      forall init', term', pt | AgreesOffMask(keys, gold, false, init', term') && 0 <= pt < |keys|
        ensures HoldsAt(keys, init', term', pt) <==> HoldsAt(keys, init, term, pt)
      {
        NoLeadingRun(keys, gold, pt);
        DefaultAgreement(keys, gold, init', term', pt);
        DefaultAgreement(keys, gold, init, term, pt);
      }
    } else {
      var pt :| 0 <= pt < |keys| && Prev(keys, pt).None? && gold[pt];
      var fired := init[pt := true];
      assert AgreesOffMask(keys, gold, false, fired, term);
      assert HoldsAt(keys, fired, term, pt) && !HoldsAt(keys, init, term, pt);
    }
  }

  /** A row that begins by holding is masked, but firing on it is read. */
  lemma FiringOnMaskedRowIsRead<K>(key: K)
    ensures InitMask([key], [true], false) == [true] && InitLabels([key], [true], false) == [false]
    ensures AgreesOffMask([key], [true], false, [true], [false])
    ensures AgreesOffMask([key], [true], false, [false], [false])
    ensures HoldsAt([key], [true], [false], 0) && !HoldsAt([key], [false], [false], 0)
  {
  }

  lemma {:induction false} NoLeadingRun<K>(keys: seq<K>, gold: seq<bool>, pt: nat)
    requires pt < |keys| == |gold|
    requires forall r :: 0 <= r < |keys| && Prev(keys, r).None? ==> !gold[r]
    ensures !Leading(keys, gold, pt)
    decreases pt
  {
    if Prev(keys, pt).Some? {
      NoLeadingRun(keys, gold, Prev(keys, pt).value);
    }
  }

  // ---------------------------------------------------------------- counting events

  predicate IsTrue(b: bool) {
    b
  }

  function Bit(b: bool): int {
    if b then 1 else 0
  }

  /** Real initiations minus terminations over the rows of `key` before `n`. */
  function NetEvents<K(==)>(keys: seq<K>, gold: seq<bool>, key: K, n: nat): int
    requires n <= |keys| == |gold|
  {
    if n == 0 then 0
    else NetEvents(keys, gold, key, n - 1)
         + if keys[n - 1] == key then Bit(IsInit(keys, gold, false, n - 1)) - Bit(IsTerm(keys, gold, n - 1)) else 0
  }

  function FirstOf<K(==)>(keys: seq<K>, key: K, n: nat): (q: Option<nat>)
    requires n <= |keys|
    ensures q.Some? ==> q.value < n && keys[q.value] == key && forall r :: 0 <= r < q.value ==> keys[r] != key
    ensures q.None? ==> forall r :: 0 <= r < n ==> keys[r] != key
  {
    if n == 0 then None
    else if FirstOf(keys, key, n - 1).Some? then FirstOf(keys, key, n - 1)
    else if keys[n - 1] == key then Some(n - 1) else None
  }

  /** Per sequence, real initiations minus terminations is last state minus first state. */
  lemma {:induction false} EventsTelescope<K>(keys: seq<K>, gold: seq<bool>, key: K, n: nat)
    requires n <= |keys| == |gold|
    ensures NetEvents(keys, gold, key, n)
            == if FirstOf(keys, key, n).None? then 0
               else Bit(gold[LatestBefore(keys, key, n).value]) - Bit(gold[FirstOf(keys, key, n).value])
  {
    if n > 0 {
      EventsTelescope(keys, gold, key, n - 1);
    }
  }
}
