/**
 The audit's verdicts: `classify_events` in examples/caviar_woled/audit_dump_vs_xml.py. Events come in
 the order in which the source visits them, each with the ground-truth event it maps to, if any.
 */
module EventAudit {
  import opened Lists

  datatype Verdict = Unmatched | SpliceArtifact | Duplicate | Real

  /** Event `i` maps to the same ground-truth event as an earlier one. */
  predicate ClaimedBefore<K(==)>(mapped: seq<Option<K>>, i: nat)
    requires i < |mapped|
  {
    exists j :: 0 <= j < i && mapped[j] == mapped[i]
  }

  /** The definitions: no match, no such event in the ground truth, a later copy, or the first claim. */
  function VerdictOn<K(==)>(mapped: seq<Option<K>>, truth: set<K>, i: nat): Verdict
    requires i < |mapped|
  {
    if mapped[i].None? then Unmatched
    else if mapped[i].value !in truth then SpliceArtifact
    else if ClaimedBefore(mapped, i) then Duplicate
    else Real
  }

  /** The events among the first `n` that claim ground-truth event `k`, in order. */
  function Claims<K(==)>(mapped: seq<Option<K>>, k: K, n: nat): seq<nat>
    requires n <= |mapped|
  {
    if n == 0 then [] else Claims(mapped, k, n - 1) + if mapped[n - 1] == Some(k) then [n - 1] else []
  }

  lemma {:induction false} ClaimsMembers<K>(mapped: seq<Option<K>>, k: K, n: nat)
    requires n <= |mapped|
    ensures forall j: nat :: j in Claims(mapped, k, n) <==> j < n && mapped[j] == Some(k)
  {
    if n > 0 {
      ClaimsMembers(mapped, k, n - 1);
    }
  }

  ghost predicate ClaimedSoFar<K>(claimed: map<K, seq<nat>>, mapped: seq<Option<K>>, truth: set<K>, n: nat)
    requires n <= |mapped|
  {
    forall k :: k in truth ==> (if k in claimed then claimed[k] else []) == Claims(mapped, k, n)
  }

  /** `classify_events`. */
  method ClassifyEvents<K(==)>(mapped: seq<Option<K>>, truth: set<K>)
    returns (verdicts: seq<Verdict>, claimed: map<K, seq<nat>>)
    ensures |verdicts| == |mapped| && forall i :: 0 <= i < |mapped| ==> verdicts[i] == VerdictOn(mapped, truth, i)
    ensures ClaimedSoFar(claimed, mapped, truth, |mapped|)
  {
    verdicts, claimed := [], map[];
    for i := 0 to |mapped|
      invariant |verdicts| == i && forall j :: 0 <= j < i ==> verdicts[j] == VerdictOn(mapped, truth, j)
      invariant ClaimedSoFar(claimed, mapped, truth, i)
    {
      var verdict;
      verdict, claimed := ClassifyOne(mapped, truth, i, claimed);
      verdicts := verdicts + [verdict];
    }
  }

  /** One event of the loop. */
  method ClassifyOne<K(==)>(mapped: seq<Option<K>>, truth: set<K>, i: nat, claimed0: map<K, seq<nat>>)
    returns (verdict: Verdict, claimed: map<K, seq<nat>>)
    requires i < |mapped| && ClaimedSoFar(claimed0, mapped, truth, i)
    ensures verdict == VerdictOn(mapped, truth, i) && ClaimedSoFar(claimed, mapped, truth, i + 1)
  {
    verdict, claimed := Unmatched, claimed0;
    ClaimStep(claimed, mapped, truth, i);
    if mapped[i].Some? {
      var key := mapped[i].value;
      if key !in truth {
        verdict := SpliceArtifact;
      } else {
        ClaimedIffEntry(claimed, mapped, truth, i);
        verdict := if key in claimed && claimed[key] != [] then Duplicate else Real;
        claimed := AddClaim(claimed, key, i);
      }
    }
  }

  function AddClaim<K(==)>(claimed: map<K, seq<nat>>, key: K, i: nat): map<K, seq<nat>> {
    claimed[key := (if key in claimed then claimed[key] else []) + [i]]
  }

  lemma ClaimStep<K>(claimed: map<K, seq<nat>>, mapped: seq<Option<K>>, truth: set<K>, i: nat)
    requires i < |mapped| && ClaimedSoFar(claimed, mapped, truth, i)
    ensures mapped[i].None? || mapped[i].value !in truth ==> ClaimedSoFar(claimed, mapped, truth, i + 1)
    ensures mapped[i].Some? && mapped[i].value in truth
            ==> ClaimedSoFar(AddClaim(claimed, mapped[i].value, i), mapped, truth, i + 1)
  {
  }

  lemma ClaimedIffEntry<K>(claimed: map<K, seq<nat>>, mapped: seq<Option<K>>, truth: set<K>, i: nat)
    requires i < |mapped| && ClaimedSoFar(claimed, mapped, truth, i) && mapped[i].Some? && mapped[i].value in truth
    ensures var key := mapped[i].value; ClaimedBefore(mapped, i) <==> key in claimed && claimed[key] != []
  {
    var key := mapped[i].value;
    var claims := Claims(mapped, key, i);
    ClaimsMembers(mapped, key, i);
    if ClaimedBefore(mapped, i) {
      var j: nat :| j < i && mapped[j] == mapped[i];
      assert j in claims;
    }
    if |claims| > 0 {
      assert claims[0] in claims;
    }
  }

  // ---------------------------------------------------------------- what the counts mean

  function Verdicts<K(==)>(mapped: seq<Option<K>>, truth: set<K>, n: nat): (v: seq<Verdict>)
    requires n <= |mapped|
    ensures |v| == n && forall i :: 0 <= i < n ==> v[i] == VerdictOn(mapped, truth, i)
  {
    seq(n, i requires 0 <= i < n => VerdictOn(mapped, truth, i))
  }

  function Is(verdict: Verdict): Verdict -> bool {
    (v: Verdict) => v == verdict
  }

  /** The ground-truth events that the first `n` events claim. */
  function ClaimedEvents<K(==)>(mapped: seq<Option<K>>, truth: set<K>, n: nat): set<K>
    requires n <= |mapped|
  {
    if n == 0 then {}
    else ClaimedEvents(mapped, truth, n - 1)
         + if mapped[n - 1].Some? && mapped[n - 1].value in truth then {mapped[n - 1].value} else {}
  }

  ghost predicate IsClaimed<K>(mapped: seq<Option<K>>, k: K, n: nat)
    requires n <= |mapped|
  {
    exists j :: 0 <= j < n && mapped[j] == Some(k)
  }

  lemma {:induction false} ClaimedEventsMembers<K>(mapped: seq<Option<K>>, truth: set<K>, n: nat)
    requires n <= |mapped|
    ensures ClaimedEvents(mapped, truth, n) <= truth
    ensures forall k :: k in ClaimedEvents(mapped, truth, n) <==> k in truth && IsClaimed(mapped, k, n)
  {
    if n > 0 {
      ClaimedEventsMembers(mapped, truth, n - 1);
    }
  }

  /** As many events are real as ground-truth events are claimed: no transition is counted twice. */
  lemma {:induction false} RealEventsCountClaims<K>(mapped: seq<Option<K>>, truth: set<K>, n: nat)
    requires n <= |mapped|
    ensures Count(Verdicts(mapped, truth, n), Is(Real)) == |ClaimedEvents(mapped, truth, n)|
  {
    if n > 0 {
      RealEventsCountClaims(mapped, truth, n - 1);
      var before, verdict := Verdicts(mapped, truth, n - 1), VerdictOn(mapped, truth, n - 1);
      assert Verdicts(mapped, truth, n) == before + [verdict];
      CountAppend(before, verdict, Is(Real));
      RealIffNewClaim(mapped, truth, n - 1);
    }
  }

  lemma RealIffNewClaim<K>(mapped: seq<Option<K>>, truth: set<K>, i: nat)
    requires i < |mapped|
    ensures |ClaimedEvents(mapped, truth, i + 1)|
            == |ClaimedEvents(mapped, truth, i)| + if VerdictOn(mapped, truth, i) == Real then 1 else 0
  {
    var before := ClaimedEvents(mapped, truth, i);
    ClaimedEventsMembers(mapped, truth, i);
    if mapped[i].Some? && mapped[i].value in truth {
      var key := mapped[i].value;
      assert key in before <==> ClaimedBefore(mapped, i);
      if key in before {
        assert before + {key} == before;
      }
    } else {
      assert before + {} == before;
    }
  }

  /** Nothing in the ground truth is missed if and only if there are as many real events as ground-truth events. */
  lemma AllClaimedIff<K>(mapped: seq<Option<K>>, truth: set<K>)
    ensures Count(Verdicts(mapped, truth, |mapped|), Is(Real)) == |truth|
            <==> forall k :: k in truth ==> Some(k) in mapped
  {
    var claimed := ClaimedEvents(mapped, truth, |mapped|);
    RealEventsCountClaims(mapped, truth, |mapped|);
    ClaimedEventsMembers(mapped, truth, |mapped|);
    assert truth == claimed + (truth - claimed);
    if |claimed| == |truth| {
      assert truth - claimed == {};
      assert forall k :: k in truth ==> k in claimed;
    }
    if forall k :: k in truth ==> Some(k) in mapped {
      AllMappedAreClaimed(mapped, truth);
    }
  }

  lemma AllMappedAreClaimed<K>(mapped: seq<Option<K>>, truth: set<K>)
    requires forall k :: k in truth ==> Some(k) in mapped
    ensures ClaimedEvents(mapped, truth, |mapped|) == truth
  {
    ClaimedEventsMembers(mapped, truth, |mapped|);
    forall k | k in truth
      ensures k in ClaimedEvents(mapped, truth, |mapped|)
    {
      assert Some(k) in mapped;
      var j: nat :| j < |mapped| && mapped[j] == Some(k);
    }
  }
}
