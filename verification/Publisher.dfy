/**
 The partial publisher: a coalescing loop with a hold-down window and a shutdown barrier.

 `Act` and `Enabled` give the publisher and its environment as a state machine whose actions may
 interleave in any order: signals, ticks, time and shutdown can arrive between any two steps of the
 loop, also during a render. A run is a sequence of enabled actions from `Start`. The method
 `RunPartialPublisher` is the loop itself and is proved to produce only such runs.
 */
module Publisher {
  import opened Wrappers

  datatype PublisherState = Idle | HoldingDown(dirty: bool)

  datatype LoopEvent = Signal | HoldDownExpired | ShutdownObserved

  datatype BufferedSignal = Present | Absent

  datatype FinalRender = Required | NotRequired

  datatype Transition =
    | Exit(carriedSignal: BufferedSignal)
    | RenderLeadingEdge
    | MarkDirty
    | RenderCoalesced
    | ParkIdle

  function AtBarrier(state: PublisherState, buffered: BufferedSignal): FinalRender {
    match (state, buffered)
    case (HoldingDown(true), _) => Required
    case (_, Present) => Required
    case (_, Absent) => NotRequired
  }

  function Transit(stopping: bool, state: PublisherState, event: LoopEvent): Transition {
    match (stopping, event, state)
    case (true, Signal, _) => Exit(Present)
    case (true, _, _) => Exit(Absent)
    case (false, ShutdownObserved, _) => Exit(Absent)
    case (false, Signal, Idle) => RenderLeadingEdge
    case (false, Signal, HoldingDown(_)) => MarkDirty
    case (false, HoldDownExpired, HoldingDown(true)) => RenderCoalesced
    case (false, HoldDownExpired, _) => ParkIdle
  }

  // ----- The publisher among its environment

  /** `permit` is the notifier; `tick` a due interval tick; `changed` an unseen shutdown change. */
  datatype World = World(permit: bool, tick: bool, stop: bool, changed: bool, now: nat)

  datatype Phase =
    | Selecting                     // awaiting one of the select branches
    | Deciding(event: LoopEvent)    // a branch won; `stopping` is not yet read
    | Rendering                     // a render of the loop is in flight
    | Draining                      // the loop has exited and will look at the permit once
    | Barrier(decision: FinalRender)
    | Flushing                      // the terminal render is in flight
    | Done

  datatype Sys = Sys(world: World, phase: Phase, state: PublisherState, deadline: nat)

  datatype Config = Config(holdDown: nat, hasInterval: bool)

  datatype Action =
    | Notify | Tick | SendShutdown | DropSender | Advance(elapsed: nat)  // the environment
    | TakePermit | TakeTick | TakeExpiry | TakeShutdown                  // the select branches
    | Decide | RenderDone | Drain | Settle | FlushDone                   // the loop and the barrier

  const START := Sys(World(false, false, false, false, 0), Selecting, Idle, 0)

  predicate IsEnvironment(a: Action) {
    a.Notify? || a.Tick? || a.SendShutdown? || a.DropSender? || a.Advance?
  }

  predicate Enabled(c: Config, s: Sys, a: Action) {
    match a
    case Tick => c.hasInterval
    case TakePermit => s.phase == Selecting && s.world.permit
    case TakeTick => s.phase == Selecting && s.world.tick
    case TakeExpiry => s.phase == Selecting && s.state.HoldingDown? && s.world.now >= s.deadline
    case TakeShutdown => s.phase == Selecting && s.world.changed
    case Decide => s.phase.Deciding?
    case RenderDone => s.phase == Rendering
    case Drain => s.phase == Draining
    case Settle => s.phase.Barrier?
    case FlushDone => s.phase == Flushing
    case _ => true
  }

  function Happen(w: World, a: Action): World {
    match a
    case Notify => w.(permit := true)
    case Tick => w.(tick := true)
    case SendShutdown => w.(stop := true, changed := true)
    case DropSender => w.(changed := true)
    case Advance(elapsed) => w.(now := w.now + elapsed)
    case _ => w
  }

  function Act(c: Config, s: Sys, a: Action): Sys
    requires Enabled(c, s, a)
  {
    var w := s.world;
    match a
    case TakePermit => s.(world := w.(permit := false), phase := Deciding(Signal))
    case TakeTick => s.(world := w.(tick := false), phase := Deciding(Signal))
    case TakeExpiry => s.(phase := Deciding(HoldDownExpired))
    case TakeShutdown => s.(world := w.(changed := false), phase := Deciding(ShutdownObserved))
    case Decide =>
      (match Transit(w.stop, s.state, s.phase.event)
       case Exit(Present) => s.(phase := Barrier(AtBarrier(s.state, Present)))
       case Exit(Absent) => s.(phase := Draining)
       case RenderLeadingEdge => s.(phase := Rendering)
       case RenderCoalesced => s.(phase := Rendering)
       case MarkDirty => s.(phase := Selecting, state := HoldingDown(true))
       case ParkIdle => s.(phase := Selecting, state := Idle))
    case RenderDone => s.(phase := Selecting, state := HoldingDown(false), deadline := w.now + c.holdDown)
    case Drain =>
      s.(world := w.(permit := false),
         phase := Barrier(AtBarrier(s.state, if w.permit then Present else Absent)))
    case Settle => s.(phase := if s.phase.decision.Required? then Flushing else Done)
    case FlushDone => s.(phase := Done)
    case _ => s.(world := Happen(w, a))
  }

  /** The actions of a run and the states between them. */
  datatype Run = Run(acts: seq<Action>, sts: seq<Sys>)

  ghost predicate Legal(c: Config, r: Run) {
    && |r.sts| == |r.acts| + 1
    && r.sts[0] == START
    && forall i {:trigger r.acts[i]} | 0 <= i < |r.acts| ::
         Enabled(c, r.sts[i], r.acts[i]) && r.sts[i + 1] == Act(c, r.sts[i], r.acts[i])
  }

  lemma StepAt(c: Config, r: Run, i: nat)
    requires Legal(c, r) && i < |r.acts|
    ensures Enabled(c, r.sts[i], r.acts[i]) && r.sts[i + 1] == Act(c, r.sts[i], r.acts[i])
  {}

  predicate InRender(s: Sys) { s.phase == Rendering || s.phase == Flushing }

  /** A render starts at step `m`: a leading-edge, a coalesced or the terminal one. */
  ghost predicate StartsRender(c: Config, r: Run, m: int)
    requires Legal(c, r)
  {
    0 <= m < |r.acts| && !InRender(r.sts[m]) && InRender(r.sts[m + 1])
  }

  // ----- Coalesce, never drop

  /** The loop has taken its last look at the notifier once it stands at the barrier. */
  predicate PastLastLook(s: Sys) { s.phase.Barrier? || s.phase == Flushing || s.phase == Done }

  /** The publisher still remembers that some signal has not been rendered. */
  predicate Remembers(s: Sys) {
    match s.phase
    case Selecting | Draining => s.world.permit || s.state == HoldingDown(true)
    case Deciding(event) => s.world.permit || s.state == HoldingDown(true) || event == Signal
    case Rendering => s.world.permit
    case Barrier(decision) => decision == Required
    case Flushing | Done => false
  }

  lemma MemoryIsKept(c: Config, s: Sys, a: Action)
    requires Enabled(c, s, a)
    ensures Remembers(s) ==> Remembers(Act(c, s, a)) || (!InRender(s) && InRender(Act(c, s, a)))
    ensures a == Notify && !PastLastLook(s) ==> Remembers(Act(c, s, a))
  {}

  /** At any point of any run a signal sent in time has been followed by a render start or is remembered. */
  lemma {:induction false} SignalIsServedOrRemembered(c: Config, r: Run, i: nat, n: nat)
    requires Legal(c, r) && i < n <= |r.acts|
    requires r.acts[i] == Notify && !PastLastLook(r.sts[i])
    ensures (exists m :: i < m < n && StartsRender(c, r, m)) || Remembers(r.sts[n])
  {
    MemoryIsKept(c, r.sts[n - 1], r.acts[n - 1]);
    if n > i + 1 {
      SignalIsServedOrRemembered(c, r, i, n - 1);
      if !exists m :: i < m < n - 1 && StartsRender(c, r, m) {
        assert StartsRender(c, r, n - 1) || Remembers(r.sts[n]);
      }
    }
  }

  /** In a finished run, every signal sent before the last look is followed by a render that starts after it. */
  lemma CoalesceNeverDrop(c: Config, r: Run, i: nat)
    requires Legal(c, r) && r.sts[|r.acts|].phase == Done
    requires i < |r.acts| && r.acts[i] == Notify && !PastLastLook(r.sts[i])
    ensures exists m :: i < m && StartsRender(c, r, m)
  {
    SignalIsServedOrRemembered(c, r, i, |r.acts|);
  }

  /** The bound is exact for the notifier and does not extend to the interval: a due tick can be dropped. */
  lemma DueTickCanBeDropped(c: Config)
    requires c.hasInterval
    ensures exists r :: Legal(c, r) && r.sts[|r.acts|].phase == Done
              && r.acts != [] && r.acts[0] == Tick && !PastLastLook(r.sts[0])
              && forall m :: !StartsRender(c, r, m)
  {
    var r := Extend(c, Extend(c, Extend(c, EMPTY_RUN, Tick), SendShutdown), TakeShutdown);
    r := Extend(c, Extend(c, Extend(c, r, Decide), Drain), Settle);
  }

  const EMPTY_RUN := Run([], [START])

  ghost function Extend(c: Config, r: Run, a: Action): (q: Run)
    requires Legal(c, r) && Enabled(c, r.sts[|r.acts|], a)
    ensures Legal(c, q) && |q.acts| == |r.acts| + 1
  {
    Run(r.acts + [a], r.sts + [Act(c, r.sts[|r.acts|], a)])
  }

  // ----- Every render is paid for

  predicate Arrives(a: Action) { a.Notify? || a.Tick? }

  ghost predicate Consumes(c: Config, r: Run, k: int)
    requires Legal(c, r)
  {
    0 <= k < |r.acts| &&
    (r.acts[k] == TakePermit || r.acts[k] == TakeTick || (r.acts[k] == Drain && r.sts[k].world.permit))
  }

  predicate Funded(s: Sys) {
    match s.phase
    case Selecting | Draining => s.state == HoldingDown(true)
    case Deciding(event) => s.state == HoldingDown(true) || event == Signal
    case Barrier(decision) => decision == Required
    case _ => false
  }

  lemma {:induction false} FundsComeFromASignal(c: Config, r: Run, n: nat)
    requires Legal(c, r) && n <= |r.acts| && Funded(r.sts[n])
    ensures exists k :: k < n && Consumes(c, r, k) && forall m | k <= m < n :: !StartsRender(c, r, m)
  {
    assert n > 0;
    assert !StartsRender(c, r, n - 1);
    if Funded(r.sts[n - 1]) {
      FundsComeFromASignal(c, r, n - 1);
      var k :| k < n - 1 && Consumes(c, r, k) && forall m | k <= m < n - 1 :: !StartsRender(c, r, m);
      assert forall m | k <= m < n :: !StartsRender(c, r, m);
    } else {
      assert Consumes(c, r, n - 1);
    }
  }

  /** Each render is paid for by a signal consumed since the previous render started. */
  lemma EveryRenderIsPaidFor(c: Config, r: Run, m: nat)
    requires Legal(c, r) && StartsRender(c, r, m)
    ensures exists k :: k < m && Consumes(c, r, k) && forall j | k <= j < m :: !StartsRender(c, r, j)
  {
    StepAt(c, r, m);
    assert Funded(r.sts[m]);
    FundsComeFromASignal(c, r, m);
  }

  lemma FundsArePaidOut(c: Config, s: Sys, a: Action, next: Sys)
    requires Enabled(c, s, a) && next == Act(c, s, a)
    ensures Funded(s) ==> Funded(next) || (!InRender(s) && InRender(next))
    ensures a in {TakePermit, TakeTick} || (a == Drain && s.world.permit) ==> Funded(next)
    ensures IsEnvironment(a) ==> Funded(next) == Funded(s) && InRender(next) == InRender(s)
  {}

  /** What is owed stays owed until a render starts. */
  lemma {:induction false} FundsLast(c: Config, r: Run, i: nat, j: nat)
    requires Legal(c, r) && i <= j <= |r.acts| && Funded(r.sts[i])
    ensures Funded(r.sts[j]) || exists m :: i <= m < j && StartsRender(c, r, m)
  {
    if i < j {
      FundsLast(c, r, i, j - 1);
      StepAt(c, r, j - 1);
      FundsArePaidOut(c, r.sts[j - 1], r.acts[j - 1], r.sts[j]);
      assert Funded(r.sts[j - 1]) ==> Funded(r.sts[j]) || StartsRender(c, r, j - 1);
    }
  }

  /**
   When anything that happens around the publisher is followed by a render: in a finished run exactly
   when the loop already owes one, or still takes a signal, a tick or a buffered signal afterwards.
   */
  lemma RenderFollowsIff(c: Config, r: Run, i: nat)
    requires Legal(c, r) && r.sts[|r.acts|].phase == Done
    requires i < |r.acts| && IsEnvironment(r.acts[i])
    ensures (exists m :: i < m && StartsRender(c, r, m)) <==> Funded(r.sts[i]) || exists k :: i < k && Consumes(c, r, k)
  {
    StepAt(c, r, i);
    FundsArePaidOut(c, r.sts[i], r.acts[i], r.sts[i + 1]);
    if m :| i < m && StartsRender(c, r, m) {
      EveryRenderIsPaidFor(c, r, m);
      var k :| k < m && Consumes(c, r, k) && forall j | k <= j < m :: !StartsRender(c, r, j);
      if k < i {
        ConsumptionFunds(c, r, k);
        FundsLast(c, r, k + 1, i);
      }
    }
    if Funded(r.sts[i]) { FundsLast(c, r, i, |r.acts|); }
    if k :| i < k && Consumes(c, r, k) { ConsumedIsRendered(c, r, k); }
  }

  lemma ConsumptionFunds(c: Config, r: Run, k: int)
    requires Legal(c, r) && Consumes(c, r, k)
    ensures Funded(r.sts[k + 1])
  {
    StepAt(c, r, k);
    FundsArePaidOut(c, r.sts[k], r.acts[k], r.sts[k + 1]);
  }

  /** In a finished run every signal and every tick that the loop takes is followed by a render. */
  lemma ConsumedIsRendered(c: Config, r: Run, k: int)
    requires Legal(c, r) && r.sts[|r.acts|].phase == Done && Consumes(c, r, k)
    ensures exists m :: k < m && StartsRender(c, r, m)
  {
    ConsumptionFunds(c, r, k);
    FundsLast(c, r, k + 1, |r.acts|);
  }

  /**
   A due tick is lost exactly when it is dropped at the exit: in a finished run a tick due at `i` while
   nothing is owed and no signal comes after it is followed by a render iff the loop takes it.
   */
  lemma LoneTickIsRenderedIffTaken(c: Config, r: Run, i: nat)
    requires Legal(c, r) && r.sts[|r.acts|].phase == Done
    requires i < |r.acts| && r.acts[i] == Tick && !Funded(r.sts[i]) && !r.sts[i].world.permit
    requires forall k | i < k < |r.acts| :: r.acts[k] != Notify
    ensures (exists m :: i < m && StartsRender(c, r, m)) <==> exists k :: i < k < |r.acts| && r.acts[k] == TakeTick
  {
    RenderFollowsIff(c, r, i);
    if k :| i < k && Consumes(c, r, k) { NoPermitWithoutNotify(c, r, i, k); }
    if k :| i < k < |r.acts| && r.acts[k] == TakeTick { assert Consumes(c, r, k); }
  }

  lemma {:induction false} NoPermitWithoutNotify(c: Config, r: Run, i: nat, k: nat)
    requires Legal(c, r) && i < k <= |r.acts| && !r.sts[i].world.permit
    requires forall j | i <= j < |r.acts| :: r.acts[j] != Notify
    ensures !r.sts[k].world.permit && (k < |r.acts| ==> r.acts[k] != TakePermit)
  {
    StepAt(c, r, k - 1);
    if k > i + 1 { NoPermitWithoutNotify(c, r, i, k - 1); }
    if k < |r.acts| { StepAt(c, r, k); }
  }

  ghost function Renders(c: Config, r: Run, n: nat): nat
    requires Legal(c, r) && n <= |r.acts|
  {
    if n == 0 then 0 else Renders(c, r, n - 1) + (if StartsRender(c, r, n - 1) then 1 else 0)
  }

  ghost function Arrivals(r: Run, n: nat): nat
    requires n <= |r.acts|
  {
    if n == 0 then 0 else Arrivals(r, n - 1) + (if Arrives(r.acts[n - 1]) then 1 else 0)
  }

  /** What a state holds to pay for renders: a signal already taken, the permit and a due tick. */
  function Purse(s: Sys): nat {
    (if Funded(s) then 1 else 0) + (if s.world.permit then 1 else 0) + (if s.world.tick then 1 else 0)
  }

  lemma StepIsPaidFor(c: Config, s: Sys, a: Action)
    requires Enabled(c, s, a)
    ensures (if !InRender(s) && InRender(Act(c, s, a)) then 1 else 0) + Purse(Act(c, s, a))
         <= Purse(s) + (if Arrives(a) then 1 else 0)
  {
    if a == Decide { assert Funded(s) || s.phase.event != Signal; }
  }

  /** Signals are spent at most once: a run never starts more renders than signals and ticks arrived. */
  lemma {:induction false} NoMoreRendersThanSignals(c: Config, r: Run, n: nat)
    requires Legal(c, r) && n <= |r.acts|
    ensures Renders(c, r, n) + Purse(r.sts[n]) <= Arrivals(r, n)
  {
    if n > 0 {
      NoMoreRendersThanSignals(c, r, n - 1);
      StepIsPaidFor(c, r.sts[n - 1], r.acts[n - 1]);
    }
  }

  // ----- Timing

  /** What holds at every point after a render of the loop completed at time `t`. */
  predicate HoldsDown(c: Config, s: Sys, t: nat) {
    && s.world.now >= t
    && (s.phase != Rendering && s.state.HoldingDown? ==> s.deadline >= t + c.holdDown)
    && (s.phase != Rendering && s.state == Idle ==> s.world.now >= t + c.holdDown)
    && (s.phase == Deciding(HoldDownExpired) ==> s.world.now >= s.deadline && s.state.HoldingDown?)
    && (s.phase == Rendering ==> s.world.now >= t + c.holdDown)
  }

  lemma HoldDownStep(c: Config, s: Sys, a: Action, next: Sys, t: nat)
    requires Enabled(c, s, a) && next == Act(c, s, a)
    requires HoldsDown(c, s, t)
    ensures HoldsDown(c, next, t)
  {}

  lemma HoldDownStarts(c: Config, s: Sys, next: Sys)
    requires Enabled(c, s, RenderDone) && next == Act(c, s, RenderDone)
    ensures HoldsDown(c, next, s.world.now)
  {}

  lemma {:induction false} HoldDownHolds(c: Config, r: Run, p: nat, n: nat)
    requires Legal(c, r) && p < n <= |r.acts| && r.acts[p] == RenderDone
    ensures HoldsDown(c, r.sts[n], r.sts[p].world.now)
  {
    StepAt(c, r, n - 1);
    if n > p + 1 {
      HoldDownHolds(c, r, p, n - 1);
      HoldDownStep(c, r.sts[n - 1], r.acts[n - 1], r.sts[n], r.sts[p].world.now);
    } else {
      HoldDownStarts(c, r.sts[p], r.sts[n]);
    }
  }

  /** Every render the loop starts, starts at least the hold-down after each earlier one completed. */
  lemma RendersAreSpaced(c: Config, r: Run, p: nat, m: nat)
    requires Legal(c, r) && p < m < |r.acts| && r.acts[p] == RenderDone
    requires StartsRender(c, r, m) && r.sts[m + 1].phase == Rendering
    ensures r.sts[m].world.now >= r.sts[p].world.now + c.holdDown
  {
    HoldDownHolds(c, r, p, m);
    StepAt(c, r, m);
  }

  predicate Leaving(s: Sys) { s.phase == Draining || PastLastLook(s) }

  lemma {:induction false} LeavingIsForGood(c: Config, r: Run, k: nat, n: nat)
    requires Legal(c, r) && k <= n <= |r.acts| && Leaving(r.sts[k])
    ensures Leaving(r.sts[n])
    ensures r.sts[k].phase in {Flushing, Done} ==> r.sts[n].phase in {Flushing, Done}
    ensures r.sts[k].phase == Done ==> r.sts[n].phase == Done
  {
    if k < n {
      LeavingIsForGood(c, r, k, n - 1);
      StepAt(c, r, n - 1);
    }
  }

  /** Once the loop has read `stopping` as true, at most one more render starts. */
  lemma AtMostOneRenderOnceStoppingIsObserved(c: Config, r: Run, k: nat, m1: nat, m2: nat)
    requires Legal(c, r) && k < |r.acts| && r.acts[k] == Decide && r.sts[k].world.stop
    requires k <= m1 && k <= m2 && StartsRender(c, r, m1) && StartsRender(c, r, m2)
    ensures m1 == m2
  {
    StepAt(c, r, m1);
    StepAt(c, r, m2);
    LeavingIsForGood(c, r, k + 1, m1 + 1);
    LeavingIsForGood(c, r, k + 1, m2 + 1);
    if m1 < m2 { LeavingIsForGood(c, r, m1 + 1, m2); }
    if m2 < m1 { LeavingIsForGood(c, r, m2 + 1, m1); }
  }

  ghost function FinishedSince(r: Run, k: nat, n: nat): nat
    requires k <= n <= |r.acts|
  {
    if n == k then 0
    else FinishedSince(r, k, n - 1) + (if r.acts[n - 1] in {RenderDone, FlushDone} then 1 else 0)
  }

  /** How many renders can still finish once shutdown has been sent. */
  function Outstanding(s: Sys): nat {
    if s.phase == Rendering then 2 else if s.phase == Done then 0 else 1
  }

  lemma OutstandingStep(c: Config, s: Sys, a: Action)
    requires Enabled(c, s, a)
    ensures s.world.stop || a == SendShutdown ==> Act(c, s, a).world.stop
    ensures s.world.stop ==>
              (if a in {RenderDone, FlushDone} then 1 else 0) + Outstanding(Act(c, s, a)) <= Outstanding(s)
  {}

  /** At most two renders finish after shutdown is sent: one in flight across it, and the flush. */
  lemma {:induction false} AtMostTwoFinishAfterShutdown(c: Config, r: Run, k: nat, n: nat)
    requires Legal(c, r) && k < n <= |r.acts| && r.acts[k] == SendShutdown
    ensures r.sts[n].world.stop
    ensures FinishedSince(r, k, n) + Outstanding(r.sts[n]) <= 2
  {
    OutstandingStep(c, r.sts[n - 1], r.acts[n - 1]);
    if n > k + 1 {
      AtMostTwoFinishAfterShutdown(c, r, k, n - 1);
    }
  }

  /** Two is reached: a one-render bound on the barrier would be false. */
  lemma TwoCanFinishAfterShutdown(c: Config) returns (r: Run, k: nat)
    ensures Legal(c, r) && k < |r.acts| && r.acts[k] == SendShutdown
    ensures FinishedSince(r, k, |r.acts|) == 2
  {
    r := RenderInFlight(c);
    k := |r.acts|;
    r := Then(c, r, SendShutdown, k);
    r := Then(c, r, Notify, k);
    r := Then(c, r, RenderDone, k);
    assert r.sts[|r.acts|] == Sys(World(true, false, true, true, 0), Selecting, HoldingDown(false), c.holdDown);
    r := FlushAfterShutdown(c, r, k);
  }

  lemma RenderInFlight(c: Config) returns (r: Run)
    ensures Legal(c, r)
    ensures r.sts[|r.acts|] == Sys(World(false, false, false, false, 0), Rendering, Idle, 0)
  {
    r := Then(c, EMPTY_RUN, Notify, 0);
    r := Then(c, r, TakePermit, 0);
    r := Then(c, r, Decide, 0);
  }

  lemma FlushAfterShutdown(c: Config, r: Run, k: nat) returns (q: Run)
    requires Legal(c, r) && k <= |r.acts|
    requires r.sts[|r.acts|] == Sys(World(true, false, true, true, 0), Selecting, HoldingDown(false), c.holdDown)
    ensures Legal(c, q) && r.acts <= q.acts
    ensures FinishedSince(q, k, |q.acts|) == FinishedSince(r, k, |r.acts|) + 1
  {
    q := Then(c, r, TakeShutdown, k);
    q := Then(c, q, Decide, k);
    assert q.sts[|q.acts|] == Sys(World(true, false, true, false, 0), Draining, HoldingDown(false), c.holdDown);
    q := FlushFromDrain(c, q, k);
  }

  lemma FlushFromDrain(c: Config, r: Run, k: nat) returns (q: Run)
    requires Legal(c, r) && k <= |r.acts|
    requires r.sts[|r.acts|].phase == Draining && r.sts[|r.acts|].world.permit
    ensures Legal(c, q) && r.acts <= q.acts
    ensures FinishedSince(q, k, |q.acts|) == FinishedSince(r, k, |r.acts|) + 1
  {
    q := Then(c, r, Drain, k);
    q := Then(c, q, Settle, k);
    q := Then(c, q, FlushDone, k);
  }

  lemma Then(c: Config, r: Run, a: Action, k: nat) returns (q: Run)
    requires Legal(c, r) && Enabled(c, r.sts[|r.acts|], a) && k <= |r.acts|
    ensures Legal(c, q) && q.acts == r.acts + [a]
    ensures q.sts[|q.acts|] == Act(c, r.sts[|r.acts|], a)
    ensures FinishedSince(q, k, |q.acts|)
         == FinishedSince(r, k, |r.acts|) + (if a in {RenderDone, FlushDone} then 1 else 0)
  {
    q := Extend(c, r, a);
    FinishedPrefix(r, q, k, |r.acts|);
  }

  lemma {:induction false} FinishedPrefix(r: Run, q: Run, k: nat, n: nat)
    requires k <= n <= |r.acts| && r.acts <= q.acts
    ensures FinishedSince(r, k, n) == FinishedSince(q, k, n)
  {
    if n > k { FinishedPrefix(r, q, k, n - 1); }
  }

  /** The loop's only step once it is past the select. */
  function OwnStep(s: Sys): Action
    requires s.phase != Selecting && s.phase != Done
  {
    match s.phase
    case Deciding(_) => Decide
    case Rendering => RenderDone
    case Draining => Drain
    case Barrier(_) => Settle
    case Flushing => FlushDone
  }

  function ToFlush(c: Config, s: Sys, steps: nat): Sys
    decreases steps
  {
    if steps == 0 || s.phase in {Selecting, Rendering, Flushing, Done} then s
    else ToFlush(c, Act(c, s, OwnStep(s)), steps - 1)
  }

  /**
   From the exit decision to the start of the flush no step depends on the time or on the hold-down:
   at most three steps of the loop lead there, and none of them waits.
   */
  lemma FlushNeverWaits(c: Config, s: Sys)
    requires s.phase == Draining || s.phase.Barrier? || (s.phase.Deciding? && s.world.stop)
    ensures var t := ToFlush(c, s, 3);
            && t.phase in {Flushing, Done} && t.world.now == s.world.now
            && (Remembers(s) ==> t.phase == Flushing)
    ensures forall a, now: nat, deadline: nat | !IsEnvironment(a) ::
              Enabled(c, s.(world := s.world.(now := now), deadline := deadline), a) <==> a == OwnStep(s)
  {
    var s1 := Act(c, s, OwnStep(s));
    if s.phase.Deciding? && s1.phase == Draining {
      assert ToFlush(c, s, 3) == ToFlush(c, s1, 2) == ToFlush(c, Act(c, s1, Drain), 1);
    }
  }

  // ----- Prompt service while the loop runs

  ghost predicate CanFollow(c: Config, s: Sys, acts: seq<Action>, end: Sys)
    decreases |acts|
  {
    if acts == [] then s == end
    else Enabled(c, s, acts[0]) && CanFollow(c, Act(c, s, acts[0]), acts[1..], end)
  }

  /** The steps that serve a remembered signal: mark it, wait the hold-down out, render. */
  function Service(s: Sys): seq<Action>
    requires s.phase == Selecting && Remembers(s)
  {
    if s.state == Idle then [TakePermit, Decide]
    else
      var wait := if s.deadline > s.world.now then s.deadline - s.world.now else 0;
      (if s.state.dirty then [] else [TakePermit, Decide]) + [Advance(wait), TakeExpiry, Decide]
  }

  lemma {:induction false} DeadlineIsNear(c: Config, r: Run, n: nat)
    requires Legal(c, r) && n <= |r.acts|
    ensures r.sts[n].deadline <= r.sts[n].world.now + c.holdDown
  {
    if n > 0 {
      DeadlineIsNear(c, r, n - 1);
      StepAt(c, r, n - 1);
    }
  }

  /** No remembered signal is stuck: without any further signal it can be rendered within the hold-down. */
  lemma RememberedSignalIsServiceable(c: Config, r: Run, n: nat)
    requires Legal(c, r) && n <= |r.acts|
    requires var s := r.sts[n]; s.phase == Selecting && Remembers(s) && !s.world.stop
    ensures var s := r.sts[n];
            exists end :: CanFollow(c, s, Service(s), end) && end.phase == Rendering
              && end.world.now <= s.world.now + c.holdDown
  {
    DeadlineIsNear(c, r, n);
    var s := r.sts[n];
    if s.state == Idle {
      FollowPair(c, s, TakePermit, Decide);
    } else if s.state.dirty {
      var end := ServeDirty(c, s);
    } else {
      var d := Act(c, Act(c, s, TakePermit), Decide);
      FollowPair(c, s, TakePermit, Decide);
      var end := ServeDirty(c, d);
      FollowBoth(c, s, [TakePermit, Decide], d, Service(d), end);
      assert Service(s) == [TakePermit, Decide] + Service(d);
    }
  }

  /** A dirty hold-down is served by waiting it out. */
  lemma ServeDirty(c: Config, s: Sys) returns (end: Sys)
    requires s.phase == Selecting && s.state == HoldingDown(true) && !s.world.stop
    requires s.deadline <= s.world.now + c.holdDown
    ensures CanFollow(c, s, Service(s), end) && end.phase == Rendering && end.world.now <= s.world.now + c.holdDown
  {
    var wait := Service(s)[0];
    var m := Act(c, s, wait);
    FollowOne(c, s, wait);
    FollowPair(c, m, TakeExpiry, Decide);
    end := Act(c, Act(c, m, TakeExpiry), Decide);
    FollowBoth(c, s, [wait], m, [TakeExpiry, Decide], end);
    assert Service(s) == [wait] + [TakeExpiry, Decide];
  }

  lemma FollowPair(c: Config, s: Sys, a: Action, b: Action)
    requires Enabled(c, s, a) && Enabled(c, Act(c, s, a), b)
    ensures CanFollow(c, s, [a, b], Act(c, Act(c, s, a), b))
  {
    var m := Act(c, s, a);
    FollowOne(c, s, a);
    FollowOne(c, m, b);
    FollowBoth(c, s, [a], m, [b], Act(c, m, b));
    assert [a] + [b] == [a, b];
  }

  /** The loop takes two steps of its own, in no time, from one state to another. */
  ghost predicate StepsTo(c: Config, s: Sys, branch: Action, phase: Phase, state: PublisherState, deadline: nat) {
    exists end :: CanFollow(c, s, [branch, Decide], end)
      && end.phase == phase && end.state == state && end.deadline == deadline && end.world.now == s.world.now
  }

  /** A signal to an idle publisher is rendered at once. */
  lemma IdleSignalRendersAtOnce(c: Config, s: Sys)
    requires s.phase == Selecting && s.state == Idle && s.world.permit && !s.world.stop
    ensures StepsTo(c, s, TakePermit, Rendering, Idle, s.deadline)
  {
    FollowPair(c, s, TakePermit, Decide);
  }

  /** A signal during the hold-down only marks the report dirty; the deadline stays. */
  lemma SignalInHoldDownMarksDirty(c: Config, s: Sys)
    requires s.phase == Selecting && s.state.HoldingDown? && s.world.permit && !s.world.stop
    ensures StepsTo(c, s, TakePermit, Selecting, HoldingDown(true), s.deadline)
  {
    FollowPair(c, s, TakePermit, Decide);
  }

  /** When the hold-down is over, a clean publisher becomes idle again and a dirty one renders. */
  lemma HoldDownEnds(c: Config, s: Sys)
    requires s.phase == Selecting && s.state.HoldingDown? && s.world.now >= s.deadline && !s.world.stop
    ensures if s.state.dirty then StepsTo(c, s, TakeExpiry, Rendering, s.state, s.deadline)
            else StepsTo(c, s, TakeExpiry, Selecting, Idle, s.deadline)
  {
    FollowPair(c, s, TakeExpiry, Decide);
  }

  /** Once `stopping` is set, or the shutdown is observed, the loop's decision leaves it. */
  lemma ShutdownLeaves(c: Config, s: Sys)
    requires s.phase.Deciding? && (s.world.stop || s.phase.event == ShutdownObserved)
    ensures Act(c, s, Decide).phase == Draining || Act(c, s, Decide).phase.Barrier?
  {}

  /** A waiting loop that is told to shut down can finish in at most five steps and no time, flushing iff it owes. */
  lemma ShutdownCanFinish(c: Config, s: Sys)
    requires s.phase == Selecting && s.world.changed
    ensures var acts := [TakeShutdown, Decide, Drain, Settle] + (if Remembers(s) then [FlushDone] else []);
            exists end :: CanFollow(c, s, acts, end) && end.phase == Done && end.world.now == s.world.now
  {
    var d := Act(c, Act(c, s, TakeShutdown), Decide);
    FollowPair(c, s, TakeShutdown, Decide);
    FollowPair(c, d, Drain, Settle);
    var b := Act(c, Act(c, d, Drain), Settle);
    FollowBoth(c, s, [TakeShutdown, Decide], d, [Drain, Settle], b);
    assert [TakeShutdown, Decide] + [Drain, Settle] == [TakeShutdown, Decide, Drain, Settle];
    if Remembers(s) {
      FollowOne(c, b, FlushDone);
      FollowBoth(c, s, [TakeShutdown, Decide, Drain, Settle], b, [FlushDone], Act(c, b, FlushDone));
    } else {
      assert [TakeShutdown, Decide, Drain, Settle] + [] == [TakeShutdown, Decide, Drain, Settle];
    }
  }

  // ----- The loop itself

  /** What the environment does around one turn of the loop, and the select branch that wins it. */
  datatype Turn = Turn(before: seq<Action>, branch: Action, between: seq<Action>, during: seq<Action>)

  ghost predicate OnlyEnvironment(c: Config, acts: seq<Action>) {
    forall a | a in acts :: IsEnvironment(a) && (a.Tick? ==> c.hasInterval)
  }

  ghost predicate Scripted(c: Config, t: Turn) {
    OnlyEnvironment(c, t.before) && OnlyEnvironment(c, t.between) && OnlyEnvironment(c, t.during)
  }

  function HappenAll(w: World, acts: seq<Action>): World
    decreases |acts|
  {
    if acts == [] then w else HappenAll(Happen(w, acts[0]), acts[1..])
  }

  /** The turn's branch is one of the select's and is ready when the select looks. */
  predicate Ready(c: Config, s: Sys, t: Turn) {
    t.branch in {TakePermit, TakeTick, TakeExpiry, TakeShutdown}
    && Enabled(c, s.(world := HappenAll(s.world, t.before)), t.branch)
  }

  /** Where the loop stands just before it decides. */
  function Selected(c: Config, s: Sys, t: Turn): (d: Sys)
    requires Ready(c, s, t)
    ensures d.phase.Deciding?
  {
    var d := Act(c, s.(world := HappenAll(s.world, t.before)), t.branch);
    d.(world := HappenAll(d.world, t.between))
  }

  /** The actions one turn contributes, and where it leaves the loop. */
  function TurnActs(c: Config, s: Sys, t: Turn): seq<Action> {
    if !Ready(c, s, t) then t.before
    else
      t.before + [t.branch] + t.between + [Decide]
      + (if Act(c, Selected(c, s, t), Decide).phase == Rendering then t.during + [RenderDone] else [])
  }

  function TurnEnd(c: Config, s: Sys, t: Turn): Sys {
    if !Ready(c, s, t) then s.(world := HappenAll(s.world, t.before))
    else
      var d := Act(c, Selected(c, s, t), Decide);
      if d.phase == Rendering then Act(c, d.(world := HappenAll(d.world, t.during)), RenderDone) else d
  }

  function SettleActs(decision: FinalRender, atExit: Turn): seq<Action> {
    atExit.between + [Settle] + (if decision == Required then atExit.during + [FlushDone] else [])
  }

  function ExitActs(s: Sys, atExit: Turn): seq<Action> {
    match s.phase
    case Draining =>
      atExit.before + [Drain] + SettleActs(ExitDecision(s, atExit), atExit)
    case Barrier(decision) => SettleActs(decision, atExit)
    case _ => []
  }

  /** The whole script as the loop must live it: turn after turn until one of them leaves the loop. */
  function LoopActs(c: Config, s: Sys, turns: seq<Turn>, atExit: Turn): seq<Action>
    decreases |turns|
  {
    if turns == [] then []
    else
      var end := TurnEnd(c, s, turns[0]);
      TurnActs(c, s, turns[0])
      + (if end.phase == Selecting then LoopActs(c, end, turns[1..], atExit) else ExitActs(end, atExit))
  }

  function TurnRenders(c: Config, s: Sys, t: Turn): nat {
    if Ready(c, s, t) && Act(c, Selected(c, s, t), Decide).phase == Rendering then 1 else 0
  }

  function ExitDecision(s: Sys, atExit: Turn): FinalRender {
    match s.phase
    case Draining => AtBarrier(s.state, if HappenAll(s.world, atExit.before).permit then Present else Absent)
    case Barrier(decision) => decision
    case _ => NotRequired
  }

  function LoopRenders(c: Config, s: Sys, turns: seq<Turn>, atExit: Turn): nat
    decreases |turns|
  {
    if turns == [] then 0
    else
      var end := TurnEnd(c, s, turns[0]);
      TurnRenders(c, s, turns[0])
      + (if end.phase == Selecting then LoopRenders(c, end, turns[1..], atExit)
         else if ExitDecision(end, atExit) == Required then 1 else 0)
  }

  lemma {:induction false} FollowBoth(c: Config, s: Sys, a: seq<Action>, m: Sys, b: seq<Action>, end: Sys)
    requires CanFollow(c, s, a, m) && CanFollow(c, m, b, end)
    ensures CanFollow(c, s, a + b, end)
    decreases |a|
  {
    if a == [] {
      assert a + b == b;
    } else {
      FollowBoth(c, Act(c, s, a[0]), a[1..], m, b, end);
      assert (a + b)[1..] == a[1..] + b;
    }
  }

  lemma {:induction false} FollowWorld(c: Config, s: Sys, acts: seq<Action>)
    requires OnlyEnvironment(c, acts)
    ensures CanFollow(c, s, acts, s.(world := HappenAll(s.world, acts)))
    decreases |acts|
  {
    if acts != [] {
      FollowWorld(c, s.(world := Happen(s.world, acts[0])), acts[1..]);
    }
  }

  lemma FollowOne(c: Config, s: Sys, a: Action)
    requires Enabled(c, s, a)
    ensures CanFollow(c, s, [a], Act(c, s, a))
  {
    assert [a][1..] == [];
    assert CanFollow(c, Act(c, s, a), [], Act(c, s, a));
  }

  /** The environment acts and then the loop takes one step. */
  lemma FollowStep(c: Config, s: Sys, acts: seq<Action>, a: Action)
    requires OnlyEnvironment(c, acts)
    requires var m := s.(world := HappenAll(s.world, acts)); Enabled(c, m, a)
    ensures var m := s.(world := HappenAll(s.world, acts)); CanFollow(c, s, acts + [a], Act(c, m, a))
  {
    var m := s.(world := HappenAll(s.world, acts));
    FollowWorld(c, s, acts);
    FollowOne(c, m, a);
    FollowBoth(c, s, acts, m, [a], Act(c, m, a));
  }

  lemma FollowTurn(c: Config, s: Sys, t: Turn)
    requires s.phase == Selecting && Scripted(c, t)
    ensures CanFollow(c, s, TurnActs(c, s, t), TurnEnd(c, s, t))
    ensures TurnEnd(c, s, t).phase in {Selecting, Draining} || TurnEnd(c, s, t).phase.Barrier?
  {
    if !Ready(c, s, t) {
      FollowWorld(c, s, t.before);
    } else {
      var d := Act(c, Selected(c, s, t), Decide);
      var decided := t.before + [t.branch] + t.between + [Decide];
      FollowDecision(c, s, t);
      if d.phase == Rendering {
        FollowStep(c, d, t.during, RenderDone);
        FollowBoth(c, s, decided, d, t.during + [RenderDone], TurnEnd(c, s, t));
      } else {
        assert TurnActs(c, s, t) == decided;
      }
    }
  }

  lemma FollowDecision(c: Config, s: Sys, t: Turn)
    requires Scripted(c, t) && Ready(c, s, t)
    ensures CanFollow(c, s, t.before + [t.branch] + t.between + [Decide], Act(c, Selected(c, s, t), Decide))
  {
    var e := Act(c, s.(world := HappenAll(s.world, t.before)), t.branch);
    FollowStep(c, s, t.before, t.branch);
    FollowStep(c, e, t.between, Decide);
    FollowBoth(c, s, t.before + [t.branch], e, t.between + [Decide], Act(c, Selected(c, s, t), Decide));
    assert t.before + [t.branch] + t.between + [Decide] == (t.before + [t.branch]) + (t.between + [Decide]);
  }

  lemma FollowSettle(c: Config, s: Sys, atExit: Turn) returns (end: Sys)
    requires s.phase.Barrier? && Scripted(c, atExit)
    ensures CanFollow(c, s, SettleActs(s.phase.decision, atExit), end) && end.phase == Done
  {
    FollowStep(c, s, atExit.between, Settle);
    end := Act(c, s.(world := HappenAll(s.world, atExit.between)), Settle);
    if s.phase.decision == Required {
      FollowStep(c, end, atExit.during, FlushDone);
      var flushed := Act(c, end.(world := HappenAll(end.world, atExit.during)), FlushDone);
      FollowBoth(c, s, atExit.between + [Settle], end, atExit.during + [FlushDone], flushed);
      end := flushed;
    } else {
      assert SettleActs(s.phase.decision, atExit) == atExit.between + [Settle];
    }
  }

  lemma FollowExit(c: Config, s: Sys, atExit: Turn) returns (end: Sys)
    requires (s.phase == Draining || s.phase.Barrier?) && Scripted(c, atExit)
    ensures CanFollow(c, s, ExitActs(s, atExit), end) && end.phase == Done
  {
    if s.phase == Draining {
      FollowStep(c, s, atExit.before, Drain);
      var m := Act(c, s.(world := HappenAll(s.world, atExit.before)), Drain);
      end := FollowSettle(c, m, atExit);
      FollowBoth(c, s, atExit.before + [Drain], m, SettleActs(m.phase.decision, atExit), end);
    } else {
      end := FollowSettle(c, s, atExit);
    }
  }

  lemma {:induction false} FollowLoop(c: Config, s: Sys, turns: seq<Turn>, atExit: Turn) returns (end: Sys)
    requires s.phase == Selecting && Scripted(c, atExit) && forall t | t in turns :: Scripted(c, t)
    ensures CanFollow(c, s, LoopActs(c, s, turns, atExit), end)
    ensures end.phase == Selecting || end.phase == Done
    decreases |turns|
  {
    if turns == [] {
      end := s;
    } else {
      var m := TurnEnd(c, s, turns[0]);
      FollowTurn(c, s, turns[0]);
      if m.phase == Selecting {
        end := FollowLoop(c, m, turns[1..], atExit);
        FollowBoth(c, s, TurnActs(c, s, turns[0]), m, LoopActs(c, m, turns[1..], atExit), end);
      } else {
        end := FollowExit(c, m, atExit);
        FollowBoth(c, s, TurnActs(c, s, turns[0]), m, ExitActs(m, atExit), end);
      }
    }
  }

  lemma {:induction false} FollowedIsLegal(c: Config, r: Run, acts: seq<Action>, end: Sys) returns (q: Run)
    requires Legal(c, r) && CanFollow(c, r.sts[|r.acts|], acts, end)
    ensures Legal(c, q) && q.acts == r.acts + acts && q.sts[|q.acts|] == end
    decreases |acts|
  {
    if acts == [] {
      q := r;
    } else {
      q := FollowedIsLegal(c, Extend(c, r, acts[0]), acts[1..], end);
    }
  }

  function Finished(acts: seq<Action>): nat { multiset(acts)[RenderDone] + multiset(acts)[FlushDone] }

  lemma EnvironmentFinishesNothing(c: Config, acts: seq<Action>)
    requires OnlyEnvironment(c, acts)
    ensures Finished(acts) == 0
  {
    forall a | a in multiset(acts) ensures IsEnvironment(a) { assert a in acts; }
  }

  lemma TurnFinishes(c: Config, s: Sys, t: Turn)
    requires Scripted(c, t)
    ensures Finished(TurnActs(c, s, t)) == TurnRenders(c, s, t)
  {
    EnvironmentFinishesNothing(c, t.before);
    EnvironmentFinishesNothing(c, t.between);
    EnvironmentFinishesNothing(c, t.during);
  }

  lemma ExitFinishes(s: Sys, c: Config, atExit: Turn)
    requires Scripted(c, atExit)
    ensures Finished(ExitActs(s, atExit)) == if ExitDecision(s, atExit) == Required then 1 else 0
  {
    EnvironmentFinishesNothing(c, atExit.before);
    EnvironmentFinishesNothing(c, atExit.between);
    EnvironmentFinishesNothing(c, atExit.during);
  }

  lemma {:induction false} LoopFinishes(c: Config, s: Sys, turns: seq<Turn>, atExit: Turn)
    requires Scripted(c, atExit) && forall t | t in turns :: Scripted(c, t)
    ensures Finished(LoopActs(c, s, turns, atExit)) == LoopRenders(c, s, turns, atExit)
    decreases |turns|
  {
    if turns != [] {
      TurnFinishes(c, s, turns[0]);
      var end := TurnEnd(c, s, turns[0]);
      LoopFinishes(c, end, turns[1..], atExit);
      ExitFinishes(end, c, atExit);
    }
  }

  /**
   Whatever the script, what the loop does is a legal run that ends waiting or done, and the renders
   it completes are those the loop counts. Every theorem about runs holds of the loop.
   */
  lemma TheLoopMakesLegalRuns(c: Config, turns: seq<Turn>, atExit: Turn) returns (r: Run)
    requires Scripted(c, atExit) && forall t | t in turns :: Scripted(c, t)
    ensures Legal(c, r) && r.acts == LoopActs(c, START, turns, atExit)
    ensures r.sts[|r.acts|].phase == Selecting || r.sts[|r.acts|].phase == Done
    ensures Finished(r.acts) == LoopRenders(c, START, turns, atExit)
  {
    var end := FollowLoop(c, START, turns, atExit);
    r := FollowedIsLegal(c, EMPTY_RUN, LoopActs(c, START, turns, atExit), end);
    LoopFinishes(c, START, turns, atExit);
  }

  /** What the script does around the barrier, in the loop's order. */
  ghost function BarrierActs(decision: FinalRender, atExit: Turn): seq<Action> {
    atExit.between + [Settle] + (if decision == Required then atExit.during + [FlushDone] else [])
  }

  /** What follows the decision that led to `e`: a render, the drain, the barrier, or the next turn. */
  ghost function ActsAfter(c: Config, e: Sys, t: Turn, rest: seq<Turn>, atExit: Turn): seq<Action> {
    if e.phase == Rendering then
      var next := Act(c, e.(world := HappenAll(e.world, t.during)), RenderDone);
      t.during + [RenderDone] + LoopActs(c, next, rest, atExit)
    else if e.phase == Draining then
      var b := Act(c, e.(world := HappenAll(e.world, atExit.before)), Drain);
      atExit.before + [Drain] + BarrierActs(b.phase.decision, atExit)
    else if e.phase.Barrier? then BarrierActs(e.phase.decision, atExit)
    else LoopActs(c, e, rest, atExit)
  }

  /**
   Every turn of a script is lived: the environment acts, a branch of the select that is then enabled is
   taken and decided on, and the loop goes on from where that leads, through a render if it starts one,
   or leaves for the barrier. A branch that is not enabled leaves the loop waiting.
   */
  lemma TurnsAreLived(c: Config, s: Sys, turns: seq<Turn>, atExit: Turn)
    requires s.phase == Selecting && turns != []
    ensures var t, rest := turns[0], turns[1..];
            var m := s.(world := HappenAll(s.world, t.before));
            if t.branch !in {TakePermit, TakeTick, TakeExpiry, TakeShutdown} || !Enabled(c, m, t.branch)
            then LoopActs(c, s, turns, atExit) == t.before + LoopActs(c, m, rest, atExit)
            else
              var d := Act(c, m, t.branch);
              var e := Act(c, d.(world := HappenAll(d.world, t.between)), Decide);
              LoopActs(c, s, turns, atExit)
              == t.before + [t.branch] + t.between + [Decide] + ActsAfter(c, e, t, rest, atExit)
  {
    hide HappenAll;
    var t, rest := turns[0], turns[1..];
    if Ready(c, s, t) {
      var decided := t.before + [t.branch] + t.between + [Decide];
      var e := Act(c, Selected(c, s, t), Decide);
      assert decided + [] == decided;
      if e.phase == Rendering {
        var after := LoopActs(c, TurnEnd(c, s, t), rest, atExit);
        assert decided + (t.during + [RenderDone]) + after == decided + (t.during + [RenderDone] + after);
      }
    }
  }

  /** Let the environment act. */
  method Elapse(w: World, acts: seq<Action>) returns (w': World)
    ensures w' == HappenAll(w, acts)
  {
    w' := w;
    assert acts[0..] == acts;
    for i := 0 to |acts|
      invariant HappenAll(w', acts[i..]) == HappenAll(w, acts)
    {
      assert acts[i..][1..] == acts[i + 1..];
      w' := Happen(w', acts[i]);
    }
  }

  /** The select: wait for the turn's branch, if it is ready. `acts` records what happens meanwhile. */
  method AwaitEvent(c: Config, w: World, state: PublisherState, deadline: nat, t: Turn)
    returns (event: Option<LoopEvent>, w': World, acts: seq<Action>)
    ensures var s := Sys(w, Selecting, state, deadline);
            if event.Some? then
              && Ready(c, s, t) && Selected(c, s, t) == Sys(w', Deciding(event.value), state, deadline)
              && acts == t.before + [t.branch] + t.between
            else
              !Ready(c, s, t) && w' == HappenAll(w, t.before) && acts == t.before
  {
    w' := Elapse(w, t.before);
    acts := t.before;
    event := None;
    if t.branch == TakePermit && w'.permit {
      w', event := w'.(permit := false), Some(Signal);
    } else if t.branch == TakeTick && w'.tick {
      w', event := w'.(tick := false), Some(Signal);
    } else if t.branch == TakeExpiry && state.HoldingDown? && w'.now >= deadline {
      event := Some(HoldDownExpired);
    } else if t.branch == TakeShutdown && w'.changed {
      w', event := w'.(changed := false), Some(ShutdownObserved);
    }
    if event.Some? {
      w' := Elapse(w', t.between);
      acts := acts + [t.branch] + t.between;
    }
  }

  /** Flush the terminal render if the barrier decision requires one. */
  method FinaliseAtBarrier(decision: FinalRender, atExit: Turn) returns (renders: nat, acts: seq<Action>)
    ensures renders == if decision == Required then 1 else 0
    ensures acts == SettleActs(decision, atExit)
  {
    renders, acts := 0, atExit.between + [Settle];
    if decision == Required {
      renders, acts := 1, acts + atExit.during + [FlushDone];
      assert acts == SettleActs(decision, atExit);
    }
  }

  /** The exit: drain the notifier unless the exit carries a signal, then the barrier. */
  method LeaveLoop(w: World, state: PublisherState, deadline: nat, carried: BufferedSignal, atExit: Turn)
    returns (renders: nat, acts: seq<Action>)
    ensures var phase := if carried == Absent then Draining else Barrier(AtBarrier(state, Present));
            var s := Sys(w, phase, state, deadline);
            acts == ExitActs(s, atExit) && renders == if ExitDecision(s, atExit) == Required then 1 else 0
  {
    var buffered := carried;
    acts := [];
    if carried == Absent {
      var w1 := Elapse(w, atExit.before);
      buffered := if w1.permit then Present else Absent;
      acts := atExit.before + [Drain];
    }
    var flush;
    renders, flush := FinaliseAtBarrier(AtBarrier(state, buffered), atExit);
    acts := acts + flush;
  }

  /** One turn of the loop: its transition, its render, and the flush when the turn leaves the loop. */
  method LiveTurn(c: Config, w: World, state: PublisherState, deadline: nat, t: Turn, atExit: Turn)
    returns (exited: bool, renders: nat, acts: seq<Action>, w': World, state': PublisherState, deadline': nat)
    ensures var s := Sys(w, Selecting, state, deadline);
            var end := TurnEnd(c, s, t);
            && exited == (end.phase != Selecting)
            && (!exited ==> end == Sys(w', Selecting, state', deadline'))
            && renders == TurnRenders(c, s, t) + (if exited && ExitDecision(end, atExit) == Required then 1 else 0)
            && acts == TurnActs(c, s, t) + (if exited then ExitActs(end, atExit) else [])
  {
    var event;
    event, w', acts := AwaitEvent(c, w, state, deadline, t);
    exited, state', deadline', renders := false, state, deadline, 0;
    if event.None? {
      assert acts == acts + [];
      return;
    }
    acts := acts + [Decide];
    var stopping := w'.stop;
    match Transit(stopping, state, event.value) {
      case Exit(carried) =>
        var left;
        renders, left := LeaveLoop(w', state, deadline, carried, atExit);
        exited, acts := true, acts + left;
      case RenderLeadingEdge | RenderCoalesced =>
        renders := 1;
        w' := Elapse(w', t.during);
        acts := acts + t.during + [RenderDone];
        state', deadline' := HoldingDown(false), w'.now + c.holdDown;
        assert acts == TurnActs(c, Sys(w, Selecting, state, deadline), t);
      case MarkDirty =>
        state' := HoldingDown(true);
      case ParkIdle =>
        state' := Idle;
    }
  }

  /**
   The publisher loop. Each turn supplies what the environment does and the select branch that wins;
   a branch that is not ready leaves the loop waiting. `atExit` is what happens around the barrier.
   `acts` records all that happens, in order.
   */
  method RunPartialPublisher(c: Config, turns: seq<Turn>, atExit: Turn) returns (renders: nat, acts: seq<Action>)
    ensures acts == LoopActs(c, START, turns, atExit)
    ensures renders == LoopRenders(c, START, turns, atExit)
  {
    var w, state := START.world, START.state;
    var deadline: nat := 0;
    renders, acts := 0, [];
    assert turns[0..] == turns;
    for i := 0 to |turns|
      invariant var s := Sys(w, Selecting, state, deadline);
                && acts + LoopActs(c, s, turns[i..], atExit) == LoopActs(c, START, turns, atExit)
                && renders + LoopRenders(c, s, turns[i..], atExit) == LoopRenders(c, START, turns, atExit)
    {
      LoopTakesTurn(c, Sys(w, Selecting, state, deadline), turns, i, atExit, acts);
      var exited, now, did;
      exited, now, did, w, state, deadline := LiveTurn(c, w, state, deadline, turns[i], atExit);
      renders, acts := renders + now, acts + did;
      if exited {
        return;
      }
    }
    assert acts + [] == acts;
  }

  lemma LoopTakesTurn(c: Config, s: Sys, turns: seq<Turn>, i: nat, atExit: Turn, before: seq<Action>)
    requires i < |turns|
    ensures var end := TurnEnd(c, s, turns[i]);
            LoopRenders(c, s, turns[i..], atExit)
            == TurnRenders(c, s, turns[i])
               + (if end.phase == Selecting then LoopRenders(c, end, turns[i + 1..], atExit)
                  else if ExitDecision(end, atExit) == Required then 1 else 0)
    ensures var end := TurnEnd(c, s, turns[i]);
            before + LoopActs(c, s, turns[i..], atExit)
            == if end.phase == Selecting
               then before + (TurnActs(c, s, turns[i]) + []) + LoopActs(c, end, turns[i + 1..], atExit)
               else before + (TurnActs(c, s, turns[i]) + ExitActs(end, atExit))
  {
    assert turns[i..][1..] == turns[i + 1..];
    assert TurnActs(c, s, turns[i]) + [] == TurnActs(c, s, turns[i]);
  }
}
