/** The worker pool of `compile_kernels` in build.rs. */
module KernelPool {
  import opened Lists

  /*
   A state machine: the main thread and its workers claim modules from a shared counter, workers
   wait for a Cargo job slot, and a helper thread delivers the slots. A step is one atomic action
   of one thread; any order of enabled steps is a run. `failed` is read with relaxed ordering, so
   a read may miss a store.
   */

  /** A file name and its hash. */
  type Artifact = (string, nat)

  /** `size` orders the modules; `output` is what compiling a module returns when it succeeds. */
  datatype Config = Config(names: seq<string>, size: string -> nat, output: string -> seq<Artifact>, numJobs: nat,
                           jobserver: bool) {
    /** Largest source first. */
    function Modules(): (r: seq<string>)
      ensures multiset(r) == multiset(names)
    {
      Sorted(names, SizeKey(size))
    }

    function Total(): nat { |Modules()| }

    /** What compiling the `i`-th module returns. */
    function Output(i: nat): seq<Artifact>
      requires i < Total()
    {
      output(Modules()[i])
    }

    /** `NUM_JOBS.max(1).min(modules.len())`. */
    function Jobs(): nat {
      var wanted := if numJobs < 1 then 1 else numJobs;
      if Total() < wanted then Total() else wanted
    }

    /** Main is thread 0; the workers are the threads from 1 on. */
    function Threads(): nat {
      if Jobs() < 1 then 1 else Jobs()
    }

    predicate Helped() { jobserver && Jobs() > 1 }
  }

  function SizeKey(size: string -> nat): string -> (int, int) {
    (name: string) => (0 - size(name) as int, 0)
  }

  /**
   Where a thread is. Main requests a slot and spawns a worker in turn, `left` more of them; a
   worker waits for the receiver's mutex and then, holding it, for a slot. Both run the same loop:
   test `failed`, claim an index, compile it, publish the artifacts.
   */
  datatype Phase =
    | Requesting(left: nat)
    | Spawning(left: nat)
    | Unspawned
    | Waiting
    | Receiving
    | Testing
    | Claiming
    | Compiling(index: nat)
    | Publishing(index: nat)
    | Leaving(panicked: bool)
    | Ended(panicked: bool)

  datatype Helper = Absent | Active | Closing | Gone

  /** What the threads share; `channel` holds slots (true) and acquisition errors (false). */
  datatype Shared = Shared(
    next: nat,
    failed: bool,
    holder: Option<nat>,
    poisoned: bool,
    helper: Helper,
    channel: seq<bool>,
    artifacts: seq<Artifact>
  )

  /** A record of the run, which no step looks at. */
  datatype Ledger = Ledger(
    requested: nat,
    sent: nat,
    granted: nat,
    returned: nat,
    started: seq<nat>,
    published: seq<nat>,
    lost: seq<nat>,
    faults: nat
  )

  datatype State = State(
    threads: seq<Phase>,
    slots: seq<bool>,
    shared: Shared,
    ledger: Ledger,
    outcome: Option<Result<seq<Artifact>>>
  )

  datatype Step =
    | Request
    | Spawn
    | StartFails
    | Lock(t: nat)
    | FindPoisoned(t: nat)
    | Receive(t: nat)
    | FindDisconnected(t: nat)
    | Test(t: nat, seen: bool)
    | Claim(t: nat)
    | FinishCompiling(t: nat)
    | FailCompiling(t: nat)
    | Publish(t: nat)
    | DropHelper
    | Send(ok: bool)
    | Close
    | Return

  function Init(c: Config): State {
    var first := if c.Helped() then Requesting(c.Jobs() - 1) else Testing;
    State([first] + Repeat(Unspawned, c.Threads() - 1), Repeat(false, c.Threads()),
          Shared(0, false, None, false, if c.Helped() then Active else Absent, [], []),
          Ledger(0, 0, 0, 0, [], [], [], 0), None)
  }

  predicate At(s: State, t: nat, phase: Phase) {
    t < |s.threads| && s.threads[t] == phase
  }

  predicate Stopped(phase: Phase) {
    phase.Ended? || phase.Unspawned?
  }

  /** The thread that a step is an action of; the helper's steps are filed under main. */
  function Actor(step: Step): nat {
    match step
    case Lock(t) => t
    case FindPoisoned(t) => t
    case Receive(t) => t
    case FindDisconnected(t) => t
    case Test(t, _) => t
    case Claim(t) => t
    case FinishCompiling(t) => t
    case FailCompiling(t) => t
    case Publish(t) => t
    case _ => 0
  }

  /** May a thread in this phase take the step? */
  predicate Allowed(c: Config, s: State, step: Step, phase: Phase)
    requires |s.threads| == c.Threads()
  {
    match step
    case Request => phase.Requesting?
    case Spawn => phase.Spawning? && 0 < phase.left < c.Threads() && s.threads[c.Threads() - phase.left].Unspawned?
    case StartFails => phase.Requesting? || phase.Spawning?
    case Lock(_) => phase.Waiting? && s.shared.holder.None? && !s.shared.poisoned
    case FindPoisoned(_) => phase.Waiting? && s.shared.holder.None? && s.shared.poisoned
    case Receive(_) => phase.Receiving? && |s.shared.channel| > 0
    case FindDisconnected(_) => phase.Receiving? && |s.shared.channel| == 0 && !CanSend(s.shared.helper)
    case Test(_, seen) => phase.Testing? && (seen ==> s.shared.failed)
    case Claim(_) => phase.Claiming?
    case FinishCompiling(_) => phase.Compiling?
    case FailCompiling(_) => phase.Compiling?
    case Publish(_) => phase.Publishing? && phase.index < c.Total()
    case DropHelper => phase.Leaving?
    case Send(_) => CanSend(s.shared.helper) && s.ledger.sent < s.ledger.requested && s.outcome.None?
    case Close => s.shared.helper.Closing?
    case Return => s.outcome.None? && forall t :: 0 <= t < |s.threads| ==> Stopped(s.threads[t])
  }

  predicate CanSend(helper: Helper) {
    helper.Active? || helper.Closing?
  }

  predicate Enabled(c: Config, s: State, step: Step) {
    |s.threads| == |s.slots| == c.Threads() && Actor(step) < c.Threads() && Allowed(c, s, step, s.threads[Actor(step)])
  }

  /** How thread `t` ends: main still has the helper to drop. */
  function Leave(t: nat, panicked: bool): Phase {
    if t == 0 then Leaving(panicked) else Ended(panicked)
  }

  /** Where the actor goes. */
  function Goal(c: Config, s: State, step: Step): Phase
    requires Enabled(c, s, step)
  {
    var phase := s.threads[Actor(step)];
    match step
    case Request => Spawning(phase.left)
    case Spawn => if phase.left > 1 then Requesting(phase.left - 1) else Testing
    case StartFails => Leave(0, true)
    case Lock(_) => Receiving
    case FindPoisoned(t) => Leave(t, true)
    case Receive(t) => if s.shared.channel[0] then Testing else Leave(t, true)
    case FindDisconnected(t) => Leave(t, false)
    case Test(t, seen) => if seen then Leave(t, false) else Claiming
    case Claim(t) => if s.shared.next < c.Total() then Compiling(s.shared.next) else Leave(t, false)
    case FinishCompiling(_) => Publishing(phase.index)
    case FailCompiling(t) => Leave(t, true)
    case Publish(_) => Testing
    case DropHelper => Ended(phase.panicked)
    case _ => phase
  }

  /** Does the actor hold a job slot afterwards? It drops the slot when its thread ends. */
  function SlotAfter(c: Config, s: State, step: Step): bool
    requires Enabled(c, s, step)
  {
    if step.Receive? then s.shared.channel[0]
    else s.slots[Actor(step)] && !Goal(c, s, step).Ended?
  }

  function SharedAfter(c: Config, s: State, step: Step): Shared
    requires Enabled(c, s, step)
  {
    var m := s.shared;
    match step
    case Lock(t) => m.(holder := Some(t))
    case Receive(_) =>
      if m.channel[0] then m.(channel := m.channel[1..], holder := None)
      else m.(channel := m.channel[1..], holder := None, poisoned := true, failed := true)
    case FindDisconnected(_) => m.(holder := None)
    case Claim(_) => m.(next := m.next + 1)
    case FailCompiling(_) => m.(failed := true)
    case Publish(t) => m.(artifacts := m.artifacts + c.Output(s.threads[t].index))
    case DropHelper => if m.helper.Active? then m.(helper := Closing) else m
    case Send(ok) => m.(channel := m.channel + [ok])
    case Close => m.(helper := Gone)
    case Return => m.(channel := [])
    case _ => m
  }

  function LedgerAfter(c: Config, s: State, step: Step): Ledger
    requires Enabled(c, s, step)
  {
    var g := s.ledger;
    match step
    case Request => g.(requested := g.requested + 1)
    case StartFails => g.(faults := g.faults + 1)
    case Receive(_) => if s.shared.channel[0] then g else g.(faults := g.faults + 1)
    case Claim(_) => if s.shared.next < c.Total() then g.(started := g.started + [s.shared.next]) else g
    case FailCompiling(t) => g.(lost := g.lost + [s.threads[t].index], faults := g.faults + 1)
    case Publish(t) => g.(published := g.published + [s.threads[t].index])
    case Send(ok) => g.(sent := g.sent + 1, granted := g.granted + if ok then 1 else 0)
    case Return => g.(returned := g.returned + Slots(s.shared.channel))
    case _ => g
  }

  function Apply(c: Config, s: State, step: Step): State
    requires Enabled(c, s, step)
  {
    var a := Actor(step);
    var slot := SlotAfter(c, s, step);
    var ledger := LedgerAfter(c, s, step);
    State(Before(c, s, step)[a := Goal(c, s, step)],
          s.slots[a := slot],
          SharedAfter(c, s, step),
          if s.slots[a] && !slot then ledger.(returned := ledger.returned + 1) else ledger,
          if step == Return then Some(Verdict(s)) else s.outcome)
  }

  /** The threads when the actor makes its move: a worker being spawned is waiting by then. */
  function Before(c: Config, s: State, step: Step): (threads: seq<Phase>)
    requires Enabled(c, s, step)
    ensures |threads| == |s.threads|
  {
    if step == Spawn then s.threads[c.Threads() - s.threads[0].left := Waiting] else s.threads
  }

  /** A panic in any thread of the scope is a panic of the scope. */
  function Verdict(s: State): Result<seq<Artifact>> {
    if SomePanic(s.threads) then Err("a kernel thread panicked") else Ok(s.shared.artifacts)
  }

  function Slots(s: seq<bool>): nat {
    CountBounds(s, IsSlot());
    Count(s, IsSlot())
  }

  predicate Panicking(phase: Phase) {
    (phase.Leaving? || phase.Ended?) && phase.panicked
  }

  predicate SomePanic(threads: seq<Phase>) {
    exists t :: 0 <= t < |threads| && Panicking(threads[t])
  }

  function IsSlot(): bool -> bool {
    (b: bool) => b
  }

  // ---------------------------------------------------------------- what every step keeps

  /** In the loop. */
  predicate Working(phase: Phase) {
    phase.Testing? || phase.Claiming? || phase.Compiling? || phase.Publishing?
  }

  predicate Starting(phase: Phase) {
    phase.Requesting? || phase.Spawning?
  }

  /** Has claimed module `i`, and neither published nor lost it yet. */
  function BusyWith(i: nat): Phase -> bool {
    (phase: Phase) => phase == Compiling(i) || phase == Publishing(i)
  }

  function Equals(i: nat): nat -> bool {
    (j: nat) => i == j
  }

  function Past(): Phase -> bool {
    (phase: Phase) => phase.Leaving? || phase.Ended?
  }

  function IsCompiling(): Phase -> bool {
    (phase: Phase) => phase.Compiling?
  }

  /** What thread `t` may be doing, and that a worker is in its loop exactly while it holds a slot. */
  predicate Role(c: Config, t: nat, phase: Phase, slot: bool) {
    if t == 0 then
      !slot && (phase.Leaving? || phase.Ended? || Working(phase) || (Starting(phase) && c.Helped()))
    else
      slot == Working(phase) && !Starting(phase) && !phase.Leaving?
  }

  ghost predicate Roles(c: Config, threads: seq<Phase>, slots: seq<bool>) {
    && |threads| == |slots| == c.Threads()
    && forall t :: 0 <= t < |threads| ==> Role(c, t, threads[t], slots[t])
  }

  /** While main spawns, the last `left` workers are not there yet. */
  ghost predicate SpawnOrder(c: Config, threads: seq<Phase>) {
    |threads| == c.Threads() &&
    (Starting(threads[0]) ==>
      && 0 < threads[0].left < c.Threads()
      && forall t :: c.Threads() - threads[0].left <= t < c.Threads() ==> threads[t].Unspawned?)
  }

  /** Without a job server there are no workers. */
  ghost predicate Alone(c: Config, threads: seq<Phase>) {
    !c.Helped() ==> forall t :: 0 < t < |threads| ==> threads[t].Unspawned?
  }

  /** The receiver's mutex is held by exactly the worker that waits for a slot. */
  ghost predicate Mutex(threads: seq<Phase>, holder: Option<nat>) {
    && (forall t :: 0 <= t < |threads| ==> (threads[t].Receiving? <==> holder == Some(t)))
    && (holder.Some? ==> holder.value < |threads|)
  }

  /** How a step moves its actor, whatever the shared state. */
  predicate Hop(step: Step, phase: Phase, goal: Phase) {
    match step
    case Request => phase.Requesting? && goal == Spawning(phase.left)
    case Spawn =>
      phase.Spawning? && phase.left > 0 && goal == if phase.left > 1 then Requesting(phase.left - 1) else Testing
    case StartFails => Starting(phase) && goal == Leaving(true)
    case Lock(_) => phase.Waiting? && goal.Receiving?
    case FindPoisoned(t) => phase.Waiting? && goal == Leave(t, true)
    case Receive(t) => phase.Receiving? && (goal.Testing? || goal == Leave(t, true))
    case FindDisconnected(t) => phase.Receiving? && goal == Leave(t, false)
    case Test(t, _) => phase.Testing? && (goal.Claiming? || goal == Leave(t, false))
    case Claim(t) => phase.Claiming? && (goal.Compiling? || goal == Leave(t, false))
    case FinishCompiling(_) => phase.Compiling? && goal == Publishing(phase.index)
    case FailCompiling(t) => phase.Compiling? && goal == Leave(t, true)
    case Publish(_) => phase.Publishing? && goal.Testing?
    case DropHelper => phase.Leaving? && goal == Ended(phase.panicked)
    case _ => goal == phase
  }

  lemma StepIsHop(c: Config, s: State, step: Step)
    requires Enabled(c, s, step)
    ensures Hop(step, s.threads[Actor(step)], Goal(c, s, step))
  {
  }

  /** How often module `i` is being worked on, published or lost. */
  function Fate(threads: seq<Phase>, ledger: Ledger, i: nat): int {
    Count(threads, BusyWith(i)) + Settled(ledger, i)
  }

  function Claimed(c: Config, next: nat): nat {
    if next < c.Total() then next else c.Total()
  }

  /** Modules are started in order, once each, and none is forgotten. */
  ghost predicate EachOnce(c: Config, s: State) {
    && s.ledger.started == Range(0, Claimed(c, s.shared.next))
    && forall i: nat :: Fate(s.threads, s.ledger, i) == if i < Claimed(c, s.shared.next) then 1 else 0
  }

  /** The counter overshoots by at most one per finished thread, so it cannot wrap around. */
  ghost predicate CounterBounded(c: Config, s: State) {
    s.shared.next <= c.Total() + Count(s.threads, Past())
  }

  /** One request for each worker spawned, or about to be. */
  predicate Requests(c: Config, first: Phase, requested: nat) {
    if Starting(first) then requested + first.left + (if first.Requesting? then 1 else 0) == c.Threads()
    else requested < c.Threads()
  }

  /** Every slot Cargo granted is waiting in the channel, held by a worker, or back. */
  ghost predicate SlotsConserved(s: State) {
    && s.ledger.granted == Slots(s.shared.channel) + Slots(s.slots) + s.ledger.returned
    && s.ledger.granted <= s.ledger.sent <= s.ledger.requested
    && (s.outcome.Some? ==> s.shared.channel == [])
  }

  /** A thread has panicked exactly when something went wrong. */
  ghost predicate Blame(s: State) {
    && (SomePanic(s.threads) <==> s.ledger.faults > 0)
    && (s.shared.failed || s.shared.poisoned || |s.ledger.lost| > 0 ==> s.ledger.faults > 0)
  }

  /** Main leaves its loop only when no module is left or something went wrong. */
  predicate MainStays(c: Config, first: Phase, m: Shared) {
    first == Leaving(false) || first == Ended(false) ==> m.failed || m.next >= c.Total()
  }

  predicate HelperLife(c: Config, first: Phase, helper: Helper) {
    && (helper.Active? ==> !first.Ended?)
    && (helper.Closing? || helper.Gone? ==> first.Ended?)
    && (helper.Absent? <==> !c.Helped())
  }

  function Outputs(c: Config, indices: seq<nat>): seq<Artifact>
    requires forall k :: 0 <= k < |indices| ==> indices[k] < c.Total()
    decreases |indices|
  {
    if |indices| == 0 then []
    else
      var last := |indices| - 1;
      Outputs(c, indices[..last]) + c.Output(indices[last])
  }

  /** The result list holds the outputs of the published modules. */
  ghost predicate ResultsSoFar(c: Config, published: seq<nat>, artifacts: seq<Artifact>) {
    && (forall k :: 0 <= k < |published| ==> published[k] < c.Total())
    && artifacts == Outputs(c, published)
  }

  ghost predicate Concluded(s: State) {
    s.outcome.Some? ==> s.outcome.value == Verdict(s) && forall t :: 0 <= t < |s.threads| ==> Stopped(s.threads[t])
  }

  ghost predicate Invariant(c: Config, s: State) {
    && Roles(c, s.threads, s.slots)
    && SpawnOrder(c, s.threads)
    && Alone(c, s.threads)
    && Mutex(s.threads, s.shared.holder)
    && EachOnce(c, s)
    && CounterBounded(c, s)
    && Requests(c, s.threads[0], s.ledger.requested)
    && SlotsConserved(s)
    && Blame(s)
    && MainStays(c, s.threads[0], s.shared)
    && HelperLife(c, s.threads[0], s.shared.helper)
    && ResultsSoFar(c, s.ledger.published, s.shared.artifacts)
    && Concluded(s)
  }

  // ---------------------------------------------------------------- counting under an update

  lemma {:induction false} SumByUpdate<T>(s: seq<T>, i: nat, x: T, f: T -> int)
    requires i < |s|
    ensures SumBy(s[i := x], f) == SumBy(s, f) - f(s[i]) + f(x)
  {
    if i == 0 {
      assert s[0 := x][1..] == s[1..];
    } else {
      assert s[i := x][1..] == s[1..][i - 1 := x];
      SumByUpdate(s[1..], i - 1, x, f);
    }
  }

  lemma CountUpdate<T>(s: seq<T>, i: nat, x: T, p: T -> bool)
    requires i < |s|
    ensures Count(s[i := x], p) == Count(s, p) - Indicator(p)(s[i]) + Indicator(p)(x)
  {
    SumByUpdate(s, i, x, Indicator(p));
  }

  lemma SumThreads(c: Config, s: State, step: Step, f: Phase -> int)
    requires Enabled(c, s, step)
    ensures SumBy(Apply(c, s, step).threads, f)
            == SumBy(s.threads, f) - f(s.threads[Actor(step)]) + f(Goal(c, s, step))
               + if step == Spawn then f(Waiting) - f(Unspawned) else 0
  {
    SumByUpdate(Before(c, s, step), Actor(step), Goal(c, s, step), f);
    if step == Spawn {
      SumByUpdate(s.threads, c.Threads() - s.threads[0].left, Waiting, f);
    }
  }

  // ---------------------------------------------------------------- each part is kept

  lemma RoleKept(c: Config, s: State, step: Step)
    requires Enabled(c, s, step)
    requires Role(c, Actor(step), s.threads[Actor(step)], s.slots[Actor(step)])
    ensures Role(c, Actor(step), Goal(c, s, step), SlotAfter(c, s, step))
  {
  }

  lemma RolesMoved(c: Config, threads: seq<Phase>, slots: seq<bool>, a: nat, phase: Phase, slot: bool)
    requires Roles(c, threads, slots) && a < |threads| && Role(c, a, phase, slot)
    ensures Roles(c, threads[a := phase], slots[a := slot])
  {
  }

  lemma RolesKept(c: Config, s: State, step: Step)
    requires Roles(c, s.threads, s.slots) && Enabled(c, s, step)
    ensures var s' := Apply(c, s, step); Roles(c, s'.threads, s'.slots)
  {
    var before := Before(c, s, step);
    if step == Spawn {
      var w := c.Threads() - s.threads[0].left;
      RolesMoved(c, s.threads, s.slots, w, Waiting, false);
      assert s.slots[w := false] == s.slots;
    }
    assert Roles(c, before, s.slots);
    RoleKept(c, s, step);
    RolesMoved(c, before, s.slots, Actor(step), Goal(c, s, step), SlotAfter(c, s, step));
  }

  lemma SpawnOrderKept(c: Config, s: State, step: Step)
    requires Roles(c, s.threads, s.slots) && SpawnOrder(c, s.threads) && Enabled(c, s, step)
    ensures SpawnOrder(c, Apply(c, s, step).threads)
  {
  }

  lemma AloneKept(c: Config, s: State, step: Step)
    requires Roles(c, s.threads, s.slots) && Alone(c, s.threads) && Enabled(c, s, step)
    ensures Alone(c, Apply(c, s, step).threads)
  {
  }

  lemma MutexMoved(threads: seq<Phase>, holder: Option<nat>, a: nat, phase: Phase, after: Option<nat>)
    requires Mutex(threads, holder) && a < |threads|
    requires if phase.Receiving? then (holder.None? || holder == Some(a)) && after == Some(a)
             else after == if threads[a].Receiving? then None else holder
    ensures Mutex(threads[a := phase], after)
  {
  }

  /** The mutex is taken and released together with the phase it belongs to. */
  lemma LockStep(c: Config, s: State, step: Step)
    requires Enabled(c, s, step)
    requires s.threads[Actor(step)].Receiving? <==> s.shared.holder == Some(Actor(step))
    ensures var phase, holder, after := Goal(c, s, step), s.shared.holder, SharedAfter(c, s, step).holder;
            if phase.Receiving? then (holder.None? || holder == Some(Actor(step))) && after == Some(Actor(step))
            else after == if s.threads[Actor(step)].Receiving? then None else holder
  {
  }

  lemma MutexKept(c: Config, s: State, step: Step)
    requires Mutex(s.threads, s.shared.holder) && Enabled(c, s, step)
    ensures Mutex(Apply(c, s, step).threads, SharedAfter(c, s, step).holder)
  {
    if step == Spawn {
      MutexMoved(s.threads, s.shared.holder, c.Threads() - s.threads[0].left, Waiting, s.shared.holder);
    }
    LockStep(c, s, step);
    MutexMoved(Before(c, s, step), s.shared.holder, Actor(step), Goal(c, s, step), SharedAfter(c, s, step).holder);
  }

  /** Going to work on module `i`, or leaving that work, is the other side of claiming or settling it. */
  lemma BusyMoves(c: Config, s: State, step: Step, i: nat)
    requires Enabled(c, s, step)
    ensures Indicator(BusyWith(i))(Goal(c, s, step)) - Indicator(BusyWith(i))(s.threads[Actor(step)])
            == (if Claimed(c, s.shared.next) <= i < Claimed(c, SharedAfter(c, s, step).next) then 1 else 0)
               - if (step.FailCompiling? || step.Publish?) && s.threads[step.t].index == i then 1 else 0
  {
    StepIsHop(c, s, step);
    NextAfter(c, s, step);
  }

  lemma NextAfter(c: Config, s: State, step: Step)
    requires Enabled(c, s, step)
    ensures SharedAfter(c, s, step).next == s.shared.next + if step.Claim? then 1 else 0
    ensures step.Claim? && s.shared.next < c.Total() ==> Goal(c, s, step) == Compiling(s.shared.next)
    ensures step.Claim? && s.shared.next >= c.Total() ==> Past()(Goal(c, s, step))
  {
  }

  lemma FateKept(c: Config, s: State, step: Step, i: nat)
    requires EachOnce(c, s) && Enabled(c, s, step)
    ensures var s' := Apply(c, s, step);
            Fate(s'.threads, s'.ledger, i) == if i < Claimed(c, s'.shared.next) then 1 else 0
  {
    SumThreads(c, s, step, Indicator(BusyWith(i)));
    SettledCounts(c, s, step, i);
    BusyMoves(c, s, step, i);
    NextAfter(c, s, step);
    assert Settled(Apply(c, s, step).ledger, i) == Settled(LedgerAfter(c, s, step), i);
    assert Fate(s.threads, s.ledger, i) == if i < Claimed(c, s.shared.next) then 1 else 0;
  }

  function Settled(ledger: Ledger, i: nat): int {
    Count(ledger.published, Equals(i)) + Count(ledger.lost, Equals(i))
  }

  /** A module is settled when it is published or lost, by the thread that was busy with it. */
  lemma SettledCounts(c: Config, s: State, step: Step, i: nat)
    requires Enabled(c, s, step)
    ensures Settled(LedgerAfter(c, s, step), i)
            == Settled(s.ledger, i)
               + if (step.FailCompiling? || step.Publish?) && s.threads[step.t].index == i then 1 else 0
  {
    match step
    case FailCompiling(t) => CountAppend(s.ledger.lost, s.threads[t].index, Equals(i));
    case Publish(t) => CountAppend(s.ledger.published, s.threads[t].index, Equals(i));
    case _ =>
  }

  lemma StartedInOrder(c: Config, s: State, step: Step)
    requires Enabled(c, s, step) && s.ledger.started == Range(0, Claimed(c, s.shared.next))
    ensures Apply(c, s, step).ledger.started == Range(0, Claimed(c, SharedAfter(c, s, step).next))
  {
    var n := s.shared.next;
    assert Apply(c, s, step).ledger.started == LedgerAfter(c, s, step).started;
    if step.Claim? && n < c.Total() {
      assert Range(0, n + 1) == Range(0, n) + [n];
    }
  }

  lemma EachOnceKept(c: Config, s: State, step: Step)
    requires EachOnce(c, s) && Enabled(c, s, step)
    ensures EachOnce(c, Apply(c, s, step))
  {
    var s' := Apply(c, s, step);
    StartedInOrder(c, s, step);
    forall i: nat
      ensures Fate(s'.threads, s'.ledger, i) == if i < Claimed(c, s'.shared.next) then 1 else 0
    {
      FateKept(c, s, step, i);
    }
  }

  lemma CounterKept(c: Config, s: State, step: Step)
    requires CounterBounded(c, s) && Enabled(c, s, step)
    ensures CounterBounded(c, Apply(c, s, step))
  {
    SumThreads(c, s, step, Indicator(Past()));
    PastMoves(c, s, step);
    NextAfter(c, s, step);
    CountBounds(Apply(c, s, step).threads, Past());
  }

  /** A thread that finds no module left ends. */
  lemma PastMoves(c: Config, s: State, step: Step)
    requires Enabled(c, s, step)
    ensures Indicator(Past())(Goal(c, s, step))
            >= Indicator(Past())(s.threads[Actor(step)])
               + if step.Claim? && s.shared.next >= c.Total() then 1 else 0
  {
    StepIsHop(c, s, step);
    NextAfter(c, s, step);
  }

  lemma FirstMoves(c: Config, s: State, step: Step)
    requires Enabled(c, s, step)
    ensures Apply(c, s, step).threads[0] == if Actor(step) == 0 then Goal(c, s, step) else s.threads[0]
    ensures Apply(c, s, step).ledger.requested == s.ledger.requested + if step == Request then 1 else 0
  {
  }

  lemma RequestsKept(c: Config, s: State, step: Step)
    requires Roles(c, s.threads, s.slots) && SpawnOrder(c, s.threads) && Enabled(c, s, step)
    requires Requests(c, s.threads[0], s.ledger.requested)
    ensures var s' := Apply(c, s, step); Requests(c, s'.threads[0], s'.ledger.requested)
  {
    FirstMoves(c, s, step);
    StepIsHop(c, s, step);
  }

  lemma ChannelMoves(c: Config, s: State, step: Step)
    requires Enabled(c, s, step)
    ensures var channel := s.shared.channel;
            Slots(SharedAfter(c, s, step).channel)
            == if step == Return then 0
               else Slots(channel) + (if step == Send(true) then 1 else 0)
                    - if step.Receive? && channel[0] then 1 else 0
  {
    match step
    case Receive(t) =>
      assert s.shared.channel == [s.shared.channel[0]] + s.shared.channel[1..];
      CountConcat([s.shared.channel[0]], s.shared.channel[1..], IsSlot());
    case Send(ok) => CountAppend(s.shared.channel, ok, IsSlot());
    case _ =>
  }

  /** A slot is received by a thread that has none, and given back by a thread that ends. */
  lemma SlotMoves(c: Config, s: State, step: Step)
    requires Enabled(c, s, step) && Role(c, Actor(step), s.threads[Actor(step)], s.slots[Actor(step)])
    ensures Slots(Apply(c, s, step).slots) + Apply(c, s, step).ledger.returned
            == Slots(s.slots) + LedgerAfter(c, s, step).returned
               + if step.Receive? && s.shared.channel[0] then 1 else 0
  {
    CountUpdate(s.slots, Actor(step), SlotAfter(c, s, step), IsSlot());
    StepIsHop(c, s, step);
  }

  lemma LedgerMoves(c: Config, s: State, step: Step)
    requires Enabled(c, s, step)
    ensures var g, g' := s.ledger, Apply(c, s, step).ledger;
            && g'.granted == g.granted + (if step == Send(true) then 1 else 0)
            && g'.sent == g.sent + (if step.Send? then 1 else 0)
            && g'.requested == g.requested + (if step == Request then 1 else 0)
            && LedgerAfter(c, s, step).returned == g.returned + if step == Return then Slots(s.shared.channel) else 0
  {
  }

  lemma SlotsConservedKept(c: Config, s: State, step: Step)
    requires SlotsConserved(s) && Enabled(c, s, step)
    requires Role(c, Actor(step), s.threads[Actor(step)], s.slots[Actor(step)])
    ensures SlotsConserved(Apply(c, s, step))
  {
    ChannelMoves(c, s, step);
    SlotMoves(c, s, step);
    LedgerMoves(c, s, step);
    ConcludedChannel(c, s, step);
  }

  lemma ConcludedChannel(c: Config, s: State, step: Step)
    requires SlotsConserved(s) && Enabled(c, s, step)
    ensures Apply(c, s, step).outcome.Some? ==> SharedAfter(c, s, step).channel == []
  {
  }

  /** A thread that panics had a reason, and every fault makes its thread panic. */
  lemma PanicHasReason(c: Config, s: State, step: Step)
    requires Enabled(c, s, step) && (s.shared.poisoned ==> s.ledger.faults > 0)
    ensures var before, faults := Panicking(s.threads[Actor(step)]), LedgerAfter(c, s, step).faults;
            if Panicking(Goal(c, s, step)) then before || faults > 0 else !before && faults == s.ledger.faults
  {
    StepIsHop(c, s, step);
  }

  lemma FaultsGrow(c: Config, s: State, step: Step)
    requires Blame(s) && Enabled(c, s, step)
    ensures LedgerAfter(c, s, step).faults >= s.ledger.faults
    ensures var m, g := SharedAfter(c, s, step), LedgerAfter(c, s, step);
            m.failed || m.poisoned || |g.lost| > 0 ==> g.faults > 0
  {
  }

  lemma SameFaults(c: Config, s: State, step: Step)
    requires Enabled(c, s, step)
    ensures Apply(c, s, step).ledger.faults == LedgerAfter(c, s, step).faults
    ensures Apply(c, s, step).ledger.lost == LedgerAfter(c, s, step).lost
  {
  }

  lemma PanicMoved(threads: seq<Phase>, before: seq<Phase>, a: nat, phase: Phase)
    requires |threads| == |before| && a < |before| && before[a] == threads[a]
    requires Panicking(threads[a]) ==> Panicking(phase)
    requires forall t :: 0 <= t < |threads| ==> Panicking(threads[t]) == Panicking(before[t])
    ensures SomePanic(before[a := phase]) <==> SomePanic(threads) || Panicking(phase)
  {
    var after := before[a := phase];
    if SomePanic(threads) {
      var t: nat :| t < |threads| && Panicking(threads[t]);
      assert Panicking(after[t]);
    }
    if Panicking(phase) {
      assert Panicking(after[a]);
    }
  }

  lemma BlameKept(c: Config, s: State, step: Step)
    requires Blame(s) && Enabled(c, s, step)
    ensures Blame(Apply(c, s, step))
  {
    PanicHasReason(c, s, step);
    FaultsGrow(c, s, step);
    SameFaults(c, s, step);
    PanicMoved(s.threads, Before(c, s, step), Actor(step), Goal(c, s, step));
  }

  lemma MainStaysKept(c: Config, s: State, step: Step)
    requires Roles(c, s.threads, s.slots) && MainStays(c, s.threads[0], s.shared) && Enabled(c, s, step)
    ensures var s' := Apply(c, s, step); MainStays(c, s'.threads[0], s'.shared)
  {
  }

  lemma HelperLifeKept(c: Config, s: State, step: Step)
    requires Roles(c, s.threads, s.slots) && HelperLife(c, s.threads[0], s.shared.helper) && Enabled(c, s, step)
    ensures var s' := Apply(c, s, step); HelperLife(c, s'.threads[0], s'.shared.helper)
  {
  }

  lemma OutputsAppend(c: Config, indices: seq<nat>, i: nat)
    requires i < c.Total() && forall k :: 0 <= k < |indices| ==> indices[k] < c.Total()
    ensures Outputs(c, indices + [i]) == Outputs(c, indices) + c.Output(i)
  {
    assert (indices + [i])[..|indices + [i]| - 1] == indices;
  }

  lemma ResultsKept(c: Config, s: State, step: Step)
    requires ResultsSoFar(c, s.ledger.published, s.shared.artifacts) && Enabled(c, s, step)
    ensures ResultsSoFar(c, LedgerAfter(c, s, step).published, SharedAfter(c, s, step).artifacts)
  {
    if step.Publish? {
      ResultsGrow(c, s.ledger.published, s.shared.artifacts, s.threads[step.t].index);
    } else {
      OnlyPublishAdds(c, s, step);
    }
  }

  /** Publishing module `i` adds its output. */
  lemma ResultsGrow(c: Config, published: seq<nat>, artifacts: seq<Artifact>, i: nat)
    requires ResultsSoFar(c, published, artifacts) && i < c.Total()
    ensures ResultsSoFar(c, published + [i], artifacts + c.Output(i))
  {
    OutputsAppend(c, published, i);
  }

  lemma OnlyPublishAdds(c: Config, s: State, step: Step)
    requires Enabled(c, s, step) && !step.Publish?
    ensures LedgerAfter(c, s, step).published == s.ledger.published
    ensures SharedAfter(c, s, step).artifacts == s.shared.artifacts
  {
  }

  lemma ConcludedKept(c: Config, s: State, step: Step)
    requires Concluded(s) && Enabled(c, s, step)
    ensures Concluded(Apply(c, s, step))
  {
    if s.outcome.Some? {
      OnlyCloseIsLeft(c, s, step);
    }
    if step == Close || step == Return {
      ThreadsRest(c, s, step);
    }
  }

  /** Once there is an outcome, only the helper still has a step. */
  lemma OnlyCloseIsLeft(c: Config, s: State, step: Step)
    requires Enabled(c, s, step) && s.outcome.Some? && forall t :: 0 <= t < |s.threads| ==> Stopped(s.threads[t])
    ensures step == Close
  {
    StepIsHop(c, s, step);
    assert Stopped(s.threads[Actor(step)]) && Stopped(s.threads[0]);
  }

  lemma ThreadsRest(c: Config, s: State, step: Step)
    requires Enabled(c, s, step) && (step == Close || step == Return)
    ensures Apply(c, s, step).threads == s.threads && SharedAfter(c, s, step).artifacts == s.shared.artifacts
  {
  }

  lemma InvariantKept(c: Config, s: State, step: Step)
    requires Invariant(c, s) && Enabled(c, s, step)
    ensures Invariant(c, Apply(c, s, step))
  {
    RolesKept(c, s, step);
    SpawnOrderKept(c, s, step);
    AloneKept(c, s, step);
    MutexKept(c, s, step);
    EachOnceKept(c, s, step);
    CounterKept(c, s, step);
    RequestsKept(c, s, step);
    SlotsConservedKept(c, s, step);
    BlameKept(c, s, step);
    MainStaysKept(c, s, step);
    HelperLifeKept(c, s, step);
    ResultsKept(c, s, step);
    ConcludedKept(c, s, step);
  }

  lemma InvariantStarts(c: Config)
    ensures Invariant(c, Init(c))
  {
    ThreadsStart(c);
    LedgerStarts(c);
    CountBounds(Init(c).threads, Past());
  }

  lemma ThreadsStart(c: Config)
    ensures var s := Init(c);
            && Roles(c, s.threads, s.slots) && SpawnOrder(c, s.threads) && Alone(c, s.threads)
            && Mutex(s.threads, s.shared.holder) && Requests(c, s.threads[0], s.ledger.requested)
  {
  }

  lemma LedgerStarts(c: Config)
    ensures EachOnce(c, Init(c)) && SlotsConserved(Init(c)) && Blame(Init(c))
  {
    var s := Init(c);
    forall i: nat
      ensures Fate(s.threads, s.ledger, i) == 0
    {
      NobodyStartsBusy(c, i);
    }
    CountBounds(s.slots, IsSlot());
  }

  lemma NobodyStartsBusy(c: Config, i: nat)
    ensures Count(Init(c).threads, BusyWith(i)) == 0
  {
    CountBounds(Init(c).threads, BusyWith(i));
  }

  // ---------------------------------------------------------------- runs

  /** A run: the states it goes through and the step taken from each of them. */
  ghost predicate IsRun(c: Config, states: seq<State>, steps: seq<Step>) {
    && |states| == |steps| + 1
    && states[0] == Init(c)
    && forall k :: 0 <= k < |steps| ==>
         Enabled(c, states[k], steps[k]) && states[k + 1] == Apply(c, states[k], steps[k])
  }

  lemma {:induction false} RunsKeepInvariant(c: Config, states: seq<State>, steps: seq<Step>, k: nat)
    requires IsRun(c, states, steps) && k <= |steps|
    ensures Invariant(c, states[k])
  {
    if k == 0 {
      InvariantStarts(c);
    } else {
      RunsKeepInvariant(c, states, steps, k - 1);
      InvariantKept(c, states[k - 1], steps[k - 1]);
    }
  }

  // ---------------------------------------------------------------- each module at most once, and within the slots

  /** A module is claimed at most once, and at any moment at most one thread compiles it. */
  lemma CompiledAtMostOnce(c: Config, states: seq<State>, steps: seq<Step>, k: nat)
    requires IsRun(c, states, steps) && k <= |steps|
    ensures ClaimsApart(states[k])
  {
    RunsKeepInvariant(c, states, steps, k);
    EachOnceKeepsApart(c, states[k]);
  }

  /** No index is claimed twice, and no two threads compile the same module. */
  ghost predicate ClaimsApart(s: State) {
    && (forall i, j :: 0 <= i < j < |s.ledger.started| ==> s.ledger.started[i] != s.ledger.started[j])
    && (forall t, u, i :: 0 <= t < u < |s.threads| && s.threads[t] == Compiling(i) ==> s.threads[u] != Compiling(i))
    && (forall t, i :: 0 <= t < |s.threads| && s.threads[t] == Compiling(i) ==> Exclusive(s.ledger, i))
  }

  lemma EachOnceKeepsApart(c: Config, s: State)
    requires EachOnce(c, s)
    ensures ClaimsApart(s)
  {
    forall t, i | 0 <= t < |s.threads| && s.threads[t] == Compiling(i)
      ensures Exclusive(s.ledger, i)
      ensures forall u :: t < u < |s.threads| ==> s.threads[u] != Compiling(i)
    {
      BusyAlone(c, s, t, i);
    }
  }

  predicate Exclusive(ledger: Ledger, i: nat) {
    i in ledger.started && i !in ledger.published && i !in ledger.lost
  }

  lemma BusyAlone(c: Config, s: State, t: nat, i: nat)
    requires EachOnce(c, s) && t < |s.threads| && s.threads[t] == Compiling(i)
    ensures Exclusive(s.ledger, i)
    ensures forall u :: t < u < |s.threads| ==> s.threads[u] != Compiling(i)
  {
    CountTwo(s.threads, BusyWith(i), t, t);
    CountBounds(s.ledger.published, Equals(i));
    CountBounds(s.ledger.lost, Equals(i));
    assert Fate(s.threads, s.ledger, i) <= 1;
    assert i < Claimed(c, s.shared.next) && s.ledger.started[i] == i;
    forall u | t < u < |s.threads|
      ensures s.threads[u] != Compiling(i)
    {
      CountTwo(s.threads, BusyWith(i), t, u);
    }
  }

  /**
   At most as many modules compile at a time as Cargo allows: the implicit slot of main and one held
   job slot for each further one; and never more than NUM_JOBS.
   */
  lemma CompilesWithinSlots(c: Config, states: seq<State>, steps: seq<Step>, k: nat)
    requires IsRun(c, states, steps) && k <= |steps|
    ensures var s := states[k];
            && Count(s.threads, IsCompiling()) <= 1 + Slots(s.slots)
            && Slots(s.slots) + s.ledger.returned <= s.ledger.granted
            && Count(s.threads, IsCompiling()) <= if c.numJobs < 1 then 1 else c.numJobs
  {
    RunsKeepInvariant(c, states, steps, k);
    CompilingCounts(c, states[k].threads, states[k].slots);
  }

  lemma CompilingCounts(c: Config, threads: seq<Phase>, slots: seq<bool>)
    requires Roles(c, threads, slots)
    ensures Count(threads, IsCompiling()) <= 1 + Slots(slots)
    ensures Count(threads, IsCompiling()) <= if c.numJobs < 1 then 1 else c.numJobs
  {
    CompilingHoldsSlot(threads[1..], slots[1..]);
    assert threads == [threads[0]] + threads[1..] && slots == [slots[0]] + slots[1..];
    CountConcat([threads[0]], threads[1..], IsCompiling());
    CountConcat([slots[0]], slots[1..], IsSlot());
    CountBounds([threads[0]], IsCompiling());
    CountBounds([slots[0]], IsSlot());
    CountBounds(threads, IsCompiling());
  }

  lemma {:induction false} CompilingHoldsSlot(threads: seq<Phase>, slots: seq<bool>)
    requires |threads| == |slots| && forall t :: 0 <= t < |threads| && threads[t].Compiling? ==> slots[t]
    ensures Count(threads, IsCompiling()) <= Count(slots, IsSlot())
  {
    if |threads| > 0 {
      CompilingHoldsSlot(threads[1..], slots[1..]);
    }
  }

  // ---------------------------------------------------------------- every run ends

  /** How many steps a thread in this phase can still take, not counting the modules it may claim. */
  function PhaseWeight(phase: Phase): nat {
    match phase
    case Requesting(left) => 3 + 2 * left
    case Spawning(left) => 2 + 2 * left
    case Unspawned => 6
    case Waiting => 5
    case Receiving => 4
    case Testing => 3
    case Claiming => 2
    case Compiling(_) => 5
    case Publishing(_) => 4
    case Leaving(_) => 1
    case Ended(_) => 0
  }

  function Weight(): Phase -> int {
    (phase: Phase) => PhaseWeight(phase)
  }

  function HelperWeight(helper: Helper): nat {
    match helper
    case Active => 2
    case Closing => 1
    case _ => 0
  }

  /** What is left apart from the phases. */
  function OtherWork(c: Config, m: Shared, sent: nat, open: bool): int {
    4 * (c.Total() - Claimed(c, m.next)) + HelperWeight(m.helper) - sent + if open then 1 else 0
  }

  function Measure(c: Config, s: State): int {
    SumBy(s.threads, Weight()) + OtherWork(c, s.shared, s.ledger.sent, s.outcome.None?) + c.Threads()
  }

  lemma {:induction false} WeightsPositive(threads: seq<Phase>)
    ensures SumBy(threads, Weight()) >= 0
  {
    if |threads| > 0 {
      WeightsPositive(threads[1..]);
    }
  }

  lemma MeasurePositive(c: Config, s: State)
    requires Invariant(c, s)
    ensures Measure(c, s) >= 0
  {
    WeightsPositive(s.threads);
  }

  predicate ClaimsModule(c: Config, s: State, step: Step) {
    step.Claim? && s.shared.next < c.Total()
  }

  lemma HopGetsLighter(step: Step, phase: Phase, goal: Phase)
    requires Hop(step, phase, goal)
    ensures var before, after := PhaseWeight(phase), PhaseWeight(goal);
            if goal.Compiling? && step.Claim? then after == before + 3
            else if step.Send? || step == Close || step == Return then after == before else after < before
  {
  }

  /** The actor's phase gets lighter, unless it claims a module. */
  lemma PhaseGetsLighter(c: Config, s: State, step: Step)
    requires Enabled(c, s, step)
    ensures var before, after := PhaseWeight(s.threads[Actor(step)]), PhaseWeight(Goal(c, s, step));
            if ClaimsModule(c, s, step) then after == before + 3
            else if step.Send? || step == Close || step == Return then after == before else after < before
  {
    StepIsHop(c, s, step);
    HopGetsLighter(step, s.threads[Actor(step)], Goal(c, s, step));
  }

  /** The rest gets lighter where the phases do not. */
  lemma RestGetsLighter(c: Config, s: State, step: Step)
    requires Enabled(c, s, step)
    ensures var open, m, g := s.outcome.None?, SharedAfter(c, s, step), LedgerAfter(c, s, step);
            OtherWork(c, m, g.sent, open && step != Return)
            <= OtherWork(c, s.shared, s.ledger.sent, open)
               - (if ClaimsModule(c, s, step) then 4 else 0)
               - (if step.Send? || step == Close || step == Return then 1 else 0)
  {
    var m := SharedAfter(c, s, step);
    assert m.next == s.shared.next + if step.Claim? then 1 else 0;
    assert m.helper == if step == Close then Gone else if step == DropHelper && s.shared.helper.Active? then Closing
           else s.shared.helper;
    assert LedgerAfter(c, s, step).sent == s.ledger.sent + if step.Send? then 1 else 0;
  }

  /** Every step takes some work away. */
  lemma StepsDescend(c: Config, s: State, step: Step)
    requires Enabled(c, s, step)
    ensures Measure(c, Apply(c, s, step)) < Measure(c, s)
  {
    SumThreads(c, s, step, Weight());
    PhaseGetsLighter(c, s, step);
    RestGetsLighter(c, s, step);
    var s' := Apply(c, s, step);
    assert s'.ledger.sent == LedgerAfter(c, s, step).sent;
    assert s'.outcome.None? <==> s.outcome.None? && step != Return;
  }

  lemma OneStepOfRun(c: Config, states: seq<State>, steps: seq<Step>, k: nat)
    requires IsRun(c, states, steps) && k < |steps|
    ensures Measure(c, states[k + 1]) < Measure(c, states[k])
  {
    StepsDescend(c, states[k], steps[k]);
  }

  lemma {:induction false} RunDescends(c: Config, states: seq<State>, steps: seq<Step>, k: nat)
    requires IsRun(c, states, steps) && k <= |steps|
    ensures Measure(c, states[k]) <= Measure(c, Init(c)) - k
  {
    if k > 0 {
      RunDescends(c, states, steps, k - 1);
      OneStepOfRun(c, states, steps, k - 1);
    }
  }

  lemma {:induction false} UnspawnedWeigh(n: nat)
    ensures SumBy(Repeat(Unspawned, n), Weight()) == 6 * n
  {
    if n > 0 {
      assert Repeat(Unspawned, n)[1..] == Repeat(Unspawned, n - 1);
      UnspawnedWeigh(n - 1);
    }
  }

  /** Every run ends: its length is bounded by the number of modules and of threads. */
  lemma EveryRunEnds(c: Config, states: seq<State>, steps: seq<Step>)
    requires IsRun(c, states, steps)
    ensures |steps| <= 4 * c.Total() + 9 * c.Threads()
  {
    RunDescends(c, states, steps, |steps|);
    RunsKeepInvariant(c, states, steps, |steps|);
    MeasurePositive(c, states[|steps|]);
    MeasureStarts(c);
  }

  lemma MeasureStarts(c: Config)
    ensures Measure(c, Init(c)) <= 4 * c.Total() + 9 * c.Threads()
  {
    var s := Init(c);
    var others := Repeat(Unspawned, c.Threads() - 1);
    UnspawnedWeigh(c.Threads() - 1);
    assert s.threads == [s.threads[0]] + others && [s.threads[0]][1..] == [];
    SumByConcat([s.threads[0]], others, Weight());
    assert SumBy([s.threads[0]], Weight()) == Weight()(s.threads[0]);
  }

  // ---------------------------------------------------------------- no run gets stuck

  /** A thread that has not stopped, and does not wait for a slot, can take a step. */
  function NextStep(c: Config, s: State, t: nat): Step
    requires t < |s.threads|
  {
    match s.threads[t]
    case Requesting(_) => Request
    case Spawning(_) => Spawn
    case Waiting => if s.shared.poisoned then FindPoisoned(t) else Lock(t)
    case Receiving => if |s.shared.channel| > 0 then Receive(t) else FindDisconnected(t)
    case Testing => Test(t, s.shared.failed)
    case Claiming => Claim(t)
    case Compiling(_) => FinishCompiling(t)
    case Publishing(_) => Publish(t)
    case Leaving(_) => DropHelper
    case _ => Return
  }

  lemma PublishableIndex(c: Config, s: State, t: nat)
    requires EachOnce(c, s) && t < |s.threads| && s.threads[t].Publishing?
    ensures s.threads[t].index < c.Total()
  {
    var i := s.threads[t].index;
    CountTwo(s.threads, BusyWith(i), t, t);
    CountBounds(s.ledger.published, Equals(i));
    CountBounds(s.ledger.lost, Equals(i));
    assert Fate(s.threads, s.ledger, i) <= 1;
  }

  /** Main never waits for anything. */
  lemma MainIsNeverBlocked(c: Config, s: State)
    requires Roles(c, s.threads, s.slots) && SpawnOrder(c, s.threads) && EachOnce(c, s) && !s.threads[0].Ended?
    ensures Enabled(c, s, NextStep(c, s, 0))
  {
    if s.threads[0].Publishing? {
      PublishableIndex(c, s, 0);
    }
  }

  /** A waiting worker goes on as soon as the mutex is free; its holder, once a slot came or the helper is gone. */
  lemma WorkerIsNotBlocked(c: Config, s: State, t: nat)
    requires Invariant(c, s) && 0 < t < |s.threads| && !Stopped(s.threads[t])
    requires s.threads[t].Waiting? ==> s.shared.holder.None?
    requires s.threads[t].Receiving? ==> |s.shared.channel| > 0 || !CanSend(s.shared.helper)
    ensures Enabled(c, s, NextStep(c, s, t))
  {
    assert Role(c, t, s.threads[t], s.slots[t]);
    if s.threads[t].Publishing? {
      PublishableIndex(c, s, t);
    }
  }

  /** The worker to look at when main is through: the holder of the mutex if `t` waits for it. */
  lemma SomeWorkerGoesOn(c: Config, s: State, t: nat)
    requires Invariant(c, s) && !CanSend(s.shared.helper) && 0 < t < |s.threads| && !Stopped(s.threads[t])
    ensures CanGoOn(c, s)
  {
    var u := if s.threads[t].Waiting? && s.shared.holder.Some? then s.shared.holder.value else t;
    assert Role(c, 0, s.threads[0], s.slots[0]);
    assert s.threads[u].Receiving? || u == t;
    WorkerIsNotBlocked(c, s, u);
    ThreadGoesOn(c, s, u);
  }

  /**
   Until the result is returned, some thread of the build can take a step: no run waits for a job
   slot that Cargo may never grant. Waiting workers are let go when main has dropped the helper.
   */
  lemma NeverStuck(c: Config, states: seq<State>, steps: seq<Step>)
    requires IsRun(c, states, steps) && states[|steps|].outcome.None?
    ensures CanGoOn(c, states[|steps|])
  {
    RunsKeepInvariant(c, states, steps, |steps|);
    StateNotStuck(c, states[|steps|]);
  }

  /** Some step other than the arrival of a job slot can be taken. */
  ghost predicate CanGoOn(c: Config, s: State) {
    exists step: Step :: Enabled(c, s, step) && !step.Send?
  }

  lemma ThreadGoesOn(c: Config, s: State, t: nat)
    requires t < |s.threads| && Enabled(c, s, NextStep(c, s, t))
    ensures CanGoOn(c, s)
  {
    assert !NextStep(c, s, t).Send?;
  }

  lemma HelperGoesOn(c: Config, s: State)
    requires Roles(c, s.threads, s.slots) && s.shared.helper.Closing?
    ensures CanGoOn(c, s)
  {
    assert Enabled(c, s, Close);
  }

  lemma ScopeReturns(c: Config, s: State)
    requires Roles(c, s.threads, s.slots) && AllStopped(s.threads) && s.outcome.None?
    ensures CanGoOn(c, s)
  {
    assert Enabled(c, s, Return);
  }

  lemma StateNotStuck(c: Config, s: State)
    requires Invariant(c, s) && s.outcome.None?
    ensures CanGoOn(c, s)
  {
    if !s.threads[0].Ended? {
      MainIsNeverBlocked(c, s);
      ThreadGoesOn(c, s, 0);
    } else if s.shared.helper.Closing? {
      HelperGoesOn(c, s);
    } else if AllStopped(s.threads) {
      ScopeReturns(c, s);
    } else {
      var t: nat :| t < |s.threads| && !Stopped(s.threads[t]);
      SomeWorkerGoesOn(c, s, t);
    }
  }

  predicate AllStopped(threads: seq<Phase>) {
    forall t :: 0 <= t < |threads| ==> Stopped(threads[t])
  }

  // ---------------------------------------------------------------- the result

  lemma {:induction false} OutputsCount(c: Config, indices: seq<nat>, x: Artifact)
    requires forall k :: 0 <= k < |indices| ==> indices[k] < c.Total()
    ensures multiset(Outputs(c, indices))[x] == SumBy(indices, Contribution(c, x))
    decreases |indices|
  {
    if |indices| > 0 {
      var last := |indices| - 1;
      var before, i := indices[..last], indices[last];
      OutputsCount(c, before, x);
      SumByAppend(before, i, Contribution(c, x));
      assert indices == before + [i];
      assert Outputs(c, indices) == Outputs(c, before) + c.Output(i);
    }
  }

  /** How often `x` is in the output of module `i`. */
  function Contribution(c: Config, x: Artifact): nat -> int {
    (i: nat) => if i < c.Total() then multiset(c.Output(i))[x] as int else 0
  }

  lemma OutputsPermute(c: Config, a: seq<nat>, b: seq<nat>)
    requires multiset(a) == multiset(b)
    requires forall k :: 0 <= k < |b| ==> b[k] < c.Total()
    ensures forall k :: 0 <= k < |a| ==> a[k] < c.Total()
    ensures multiset(Outputs(c, a)) == multiset(Outputs(c, b))
  {
    SameElements(a, b);
    forall k | 0 <= k < |a|
      ensures a[k] < c.Total()
    {
      assert a[k] in b;
    }
    forall x: Artifact
      ensures multiset(Outputs(c, a))[x] == multiset(Outputs(c, b))[x]
    {
      OutputsCount(c, a, x);
      OutputsCount(c, b, x);
      SumByPermutation(a, b, Contribution(c, x));
    }
  }

  lemma {:induction false} CountIsMultiplicity(s: seq<nat>, i: nat)
    ensures multiset(s)[i] == Count(s, Equals(i))
  {
    if |s| > 0 {
      CountIsMultiplicity(s[1..], i);
      assert s == [s[0]] + s[1..];
    }
  }

  /** When every claim came to an end and none was lost, each module was published exactly once. */
  lemma PublishedOnceEach(c: Config, s: State)
    requires Invariant(c, s) && s.ledger.lost == [] && s.shared.next >= c.Total()
    requires forall t :: 0 <= t < |s.threads| ==> Stopped(s.threads[t])
    ensures multiset(s.ledger.published) == multiset(RangeNat(0, c.Total()))
  {
    forall i: nat
      ensures multiset(s.ledger.published)[i] == multiset(RangeNat(0, c.Total()))[i]
    {
      assert Fate(s.threads, s.ledger, i) == if i < c.Total() then 1 else 0;
      CountBounds(s.threads, BusyWith(i));
      CountIsMultiplicity(s.ledger.published, i);
      RangeMultiplicity(c.Total(), i);
    }
  }

  lemma {:induction false} RangeMultiplicity(n: nat, i: nat)
    ensures multiset(RangeNat(0, n))[i] == if i < n then 1 else 0
  {
    if n > 0 {
      RangeMultiplicity(n - 1, i);
      assert RangeNat(0, n) == RangeNat(0, n - 1) + [n - 1];
    }
  }

  /**
   The result: an error exactly when some compilation, slot acquisition or thread start failed, and
   otherwise every module was compiled exactly once and the result holds exactly their artifacts.
   */
  lemma ResultIsComplete(c: Config, states: seq<State>, steps: seq<Step>)
    requires IsRun(c, states, steps) && states[|steps|].outcome.Some?
    ensures var s := states[|steps|];
            && (s.outcome.value.Err? <==> s.ledger.faults > 0)
            && (s.ledger.faults == 0 ==>
                  && multiset(s.ledger.published) == multiset(s.ledger.started) == multiset(RangeNat(0, c.Total()))
                  && multiset(s.outcome.value.value) == multiset(Outputs(c, RangeNat(0, c.Total()))))
  {
    RunsKeepInvariant(c, states, steps, |steps|);
    var s := states[|steps|];
    if s.ledger.faults == 0 {
      assert Stopped(s.threads[0]);
      assert s.threads[0] == Ended(false) by {
        assert !Panicking(s.threads[0]) && Role(c, 0, s.threads[0], s.slots[0]);
      }
      PublishedOnceEach(c, s);
      assert s.ledger.started == RangeNat(0, c.Total());
      OutputsPermute(c, s.ledger.published, RangeNat(0, c.Total()));
    }
  }

  /** Every job slot that Cargo granted has been given back when the result is returned. */
  lemma SlotsComeBack(c: Config, states: seq<State>, steps: seq<Step>)
    requires IsRun(c, states, steps) && states[|steps|].outcome.Some?
    ensures states[|steps|].ledger.granted == states[|steps|].ledger.returned
  {
    RunsKeepInvariant(c, states, steps, |steps|);
    var s := states[|steps|];
    forall t | 0 <= t < |s.slots|
      ensures !s.slots[t]
    {
      assert Role(c, t, s.threads[t], s.slots[t]) && Stopped(s.threads[t]);
    }
    CountBounds(s.slots, IsSlot());
  }
}
