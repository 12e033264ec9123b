/** The windowed event pipeline: caviar_convert.py and ec_scorer.py. */
module WindowEvents {
  import opened Lists
  import opened EventCalculus

  /*
   Row `w * T + t` is step `t` of window `w`; each window is its own sequence in the sense of
   EventCalculus.
   */

  /** The window of every row. */
  function WindowKeys(n: nat, T: nat): (ks: seq<nat>)
    ensures |ks| == n * T
    ensures forall pt :: 0 <= pt < |ks| ==> ks[pt] < n
  {
    if n == 0 then [] else
      assert n * T == (n - 1) * T + T;
      WindowKeys(n - 1, T) + seq(T, _ => n - 1)
  }

  lemma {:induction false} KeysOfPrefix(n: nat, T: nat, w: nat)
    requires w <= n
    ensures w * T <= n * T
    ensures WindowKeys(n, T)[..w * T] == WindowKeys(w, T)
  {
    if w < n {
      KeysOfPrefix(n - 1, T, w);
      assert n * T == (n - 1) * T + T;
      assert WindowKeys(n, T)[..w * T] == WindowKeys(n - 1, T)[..w * T];
    }
  }

  lemma KeyAt(n: nat, T: nat, w: nat, t: nat)
    requires w < n && t < T
    ensures w * T + t < n * T
    ensures WindowKeys(n, T)[w * T + t] == w
  {
    KeysOfPrefix(n, T, w + 1);
    assert (w + 1) * T == w * T + T;
    assert WindowKeys(n, T)[w * T + t] == WindowKeys(n, T)[..(w + 1) * T][w * T + t];
  }

  /** The predecessor of a row is the step before it in its window. */
  lemma PrevAt(n: nat, T: nat, w: nat, t: nat)
    requires w < n && t < T
    ensures w * T + t < n * T
    ensures Prev(WindowKeys(n, T), w * T + t) == if t == 0 then None else Some(w * T + t - 1)
  {
    var ks := WindowKeys(n, T);
    KeyAt(n, T, w, t);
    if t > 0 {
      KeyAt(n, T, w, t - 1);
    } else {
      KeysOfPrefix(n, T, w);
      forall pt | 0 <= pt < w * T
        ensures ks[pt] != w
      {
        assert ks[pt] == ks[..w * T][pt];
      }
    }
  }

  ghost predicate SharedLength(windows: seq<seq<int>>, T: nat) {
    forall w :: 0 <= w < |windows| ==> |windows[w]| == T
  }

  /** The direct label of every row: the complex label equals the target. */
  function GoldRows(windows: seq<seq<int>>, target: int): (gold: seq<bool>) {
    if |windows| == 0 then []
    else
      var last := windows[|windows| - 1];
      GoldRows(windows[..|windows| - 1], target) + seq(|last|, t requires 0 <= t < |last| => last[t] == target)
  }

  lemma {:induction false} GoldLength(windows: seq<seq<int>>, target: int, T: nat)
    requires SharedLength(windows, T)
    ensures |GoldRows(windows, target)| == |windows| * T
  {
    if |windows| > 0 {
      var n := |windows| - 1;
      GoldLength(windows[..n], target, T);
      assert |windows| * T == n * T + T;
    }
  }

  lemma {:induction false} GoldAt(windows: seq<seq<int>>, target: int, T: nat, w: nat, t: nat)
    requires SharedLength(windows, T) && w < |windows| && t < T
    ensures w * T + t < |GoldRows(windows, target)| == |windows| * T
    ensures GoldRows(windows, target)[w * T + t] <==> windows[w][t] == target
  {
    var n := |windows| - 1;
    GoldLength(windows, target, T);
    GoldLength(windows[..n], target, T);
    KeyAt(|windows|, T, w, t);
    if w < n {
      GoldAt(windows[..n], target, T, w, t);
    }
  }

  datatype Targets = Targets(isInit: seq<bool>, isTerm: seq<bool>, nInit: int, nTerm: int, numPt: nat, T: nat)

  ghost predicate TargetsTo(isInit: seq<bool>, isTerm: seq<bool>, ks: seq<nat>, gold: seq<bool>, m: nat)
    requires |ks| == |gold|
  {
    && |isInit| == |isTerm| == m <= |ks|
    && (forall pt :: 0 <= pt < m ==> (isInit[pt] <==> IsInit(ks, gold, true, pt)))
    && (forall pt :: 0 <= pt < m ==> (isTerm[pt] <==> IsTerm(ks, gold, pt)))
  }

  /** The events of step `t` of window `w`, from its label and that of the step before. */
  lemma StepEvents(windows: seq<seq<int>>, target: int, T: nat, w: nat, t: nat)
    requires SharedLength(windows, T) && w < |windows| && t < T && |GoldRows(windows, target)| == |windows| * T
    ensures w * T + t < |windows| * T
    ensures var ks, gold := WindowKeys(|windows|, T), GoldRows(windows, target);
            var now, was := windows[w][t] == target, t > 0 && windows[w][t - 1] == target;
            && (IsInit(ks, gold, true, w * T + t) <==> now && !was)
            && (IsTerm(ks, gold, w * T + t) <==> !now && was)
  {
    PrevAt(|windows|, T, w, t);
    GoldAt(windows, target, T, w, t);
    if t > 0 {
      GoldAt(windows, target, T, w, t - 1);
    }
  }

  lemma TargetsAppend(isInit: seq<bool>, isTerm: seq<bool>, ks: seq<nat>, gold: seq<bool>, m: nat)
    requires |ks| == |gold| && m < |ks| && TargetsTo(isInit, isTerm, ks, gold, m)
    ensures TargetsTo(isInit + [IsInit(ks, gold, true, m)], isTerm + [IsTerm(ks, gold, m)], ks, gold, m + 1)
  {
  }

  /** One turn of the loop over windows of `derive_ec_targets`. */
  method TargetsOfWindow(windows: seq<seq<int>>, target: int, T: nat, w: nat, init0: seq<bool>, term0: seq<bool>)
    returns (isInit: seq<bool>, isTerm: seq<bool>)
    requires SharedLength(windows, T) && w < |windows| && |GoldRows(windows, target)| == |windows| * T
    requires TargetsTo(init0, term0, WindowKeys(|windows|, T), GoldRows(windows, target), w * T)
    ensures TargetsTo(isInit, isTerm, WindowKeys(|windows|, T), GoldRows(windows, target), (w + 1) * T)
  {
    isInit, isTerm := init0, term0;
    ghost var ks, gold := WindowKeys(|windows|, T), GoldRows(windows, target);
    for t := 0 to T
      invariant TargetsTo(isInit, isTerm, ks, gold, w * T + t)
    {
      var isTarget := windows[w][t] == target;
      var prevIsTarget := t > 0 && windows[w][t - 1] == target;
      StepEvents(windows, target, T, w, t);
      TargetsAppend(isInit, isTerm, ks, gold, w * T + t);
      isInit := isInit + [isTarget && (t == 0 || !prevIsTarget)];
      isTerm := isTerm + [!isTarget && t > 0 && prevIsTarget];
    }
    assert (w + 1) * T == w * T + T;
  }

  /** `derive_ec_targets`. */
  method DeriveEcTargets(windows: seq<seq<int>>, target: int) returns (r: Result<Targets>)
    ensures r.Ok? <==> |windows| > 0 && |windows[0]| > 0 && SharedLength(windows, |windows[0]|)
    ensures r.Ok? ==>
            var ks, gold := WindowKeys(|windows|, r.value.T), GoldRows(windows, target);
            && r.value.T == |windows[0]| && |ks| == |gold|
            && r.value.isInit == InitLabels(ks, gold, true) && r.value.isTerm == TermLabels(ks, gold)
            && r.value.nInit == Count(r.value.isInit, IsTrue) && r.value.nTerm == Count(r.value.isTerm, IsTrue)
            && r.value.numPt == |gold|
  {
    if |windows| == 0 {
      return Err("needs at least one datapoint");
    }
    var T := |windows[0]|;
    if T <= 0 {
      return Err("a window needs >= 1 timestep");
    }
    for i := 0 to |windows|
      invariant forall w :: 0 <= w < i ==> |windows[w]| == T
    {
      if |windows[i]| != T {
        return Err("differing window length");
      }
    }
    GoldLength(windows, target, T);
    var isInit: seq<bool>, isTerm: seq<bool> := [], [];
    for w := 0 to |windows|
      invariant TargetsTo(isInit, isTerm, WindowKeys(|windows|, T), GoldRows(windows, target), w * T)
    {
      isInit, isTerm := TargetsOfWindow(windows, target, T, w, isInit, isTerm);
    }
    r := Ok(Targets(isInit, isTerm, Count(isInit, IsTrue), Count(isTerm, IsTrue), |windows| * T, T));
  }

  ghost predicate HoldsTo(holds: seq<bool>, ks: seq<nat>, init: seq<bool>, term: seq<bool>, m: nat)
    requires |ks| == |init| == |term|
  {
    |holds| == m <= |ks| && forall pt :: 0 <= pt < m ==> (holds[pt] <==> HoldsAt(ks, init, term, pt))
  }

  /** One window's state machine in `reconstruct_holds`. */
  method HoldsOfWindow(init: seq<bool>, term: seq<bool>, n: nat, T: nat, w: nat, holds0: seq<bool>)
    returns (holds: seq<bool>)
    requires |init| == |term| == n * T && w < n && HoldsTo(holds0, WindowKeys(n, T), init, term, w * T)
    ensures HoldsTo(holds, WindowKeys(n, T), init, term, (w + 1) * T)
  {
    holds := holds0;
    var state := false;
    for t := 0 to T
      invariant HoldsTo(holds, WindowKeys(n, T), init, term, w * T + t)
      invariant state == (t > 0 && holds[w * T + t - 1])
    {
      var pt := w * T + t;
      PrevAt(n, T, w, t);
      if term[pt] {
        state := false;
      }
      if init[pt] {
        state := true;
      }
      holds := holds + [state];
    }
    assert (w + 1) * T == w * T + T;
  }

  /** `reconstruct_holds` of ec_scorer.py. */
  method ReconstructWindows(init: seq<bool>, term: seq<bool>, n: nat, T: nat) returns (r: Result<seq<bool>>)
    ensures r.Ok? <==> |init| == |term| == n * T
    ensures r.Ok? ==> HoldsTo(r.value, WindowKeys(n, T), init, term, n * T)
    // the interval-closure reading
    ensures r.Ok? ==> forall pt :: 0 <= pt < n * T ==> (r.value[pt] <==> Closed(WindowKeys(n, T), init, term, pt))
  {
    if |init| != n * T {
      return Err("init_pred length");
    }
    if |term| != n * T {
      return Err("term_pred length");
    }
    var holds: seq<bool> := [];
    for w := 0 to n
      invariant HoldsTo(holds, WindowKeys(n, T), init, term, w * T)
    {
      holds := HoldsOfWindow(init, term, n, T, w, holds);
    }
    forall pt | 0 <= pt < n * T
      ensures holds[pt] <==> Closed(WindowKeys(n, T), init, term, pt)
    {
      InertiaIsClosure(WindowKeys(n, T), init, term, pt);
    }
    r := Ok(holds);
  }

  /** The targets of a windowed split, run through the state machine window by window, give the labels back. */
  method WindowRoundTrip(windows: seq<seq<int>>, target: int) returns (targets: Targets, holds: seq<bool>)
    requires |windows| > 0 && |windows[0]| > 0 && SharedLength(windows, |windows[0]|)
    ensures targets.T == |windows[0]| && |GoldRows(windows, target)| == |windows| * targets.T
    ensures targets.isInit == InitLabels(WindowKeys(|windows|, targets.T), GoldRows(windows, target), true)
    ensures targets.isTerm == TermLabels(WindowKeys(|windows|, targets.T), GoldRows(windows, target))
    ensures HoldsTo(holds, WindowKeys(|windows|, targets.T), targets.isInit, targets.isTerm, |windows| * targets.T)
    ensures holds == GoldRows(windows, target)
  {
    var derived := DeriveEcTargets(windows, target);
    targets := derived.value;
    var r := ReconstructWindows(targets.isInit, targets.isTerm, |windows|, targets.T);
    holds := r.value;
    forall pt | 0 <= pt < |holds|
      ensures holds[pt] == GoldRows(windows, target)[pt]
    {
      TargetsRestoreGold(WindowKeys(|windows|, targets.T), GoldRows(windows, target), pt);
    }
  }
}
