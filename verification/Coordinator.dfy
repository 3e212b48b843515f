/**
 The fallback coordination protocol as a system of interleaved atomic steps.

 Every handler runs the body of `done` one atomic operation at a time, and a single
 trigger runs `trigger_fallback_and_wait`.  Steps are sequentially consistent; any
 component may cancel the shared token, register a handler or drop one at any time.
 */
module Coordinator {

  /** Where a handler stands inside `done`, and in the `drop` that ends it. */
  datatype Phase =
    | Registered              // `register` returned, `done` not called
    | DoneStored              // the done flag is set, the count not yet decremented
    | Decremented(prev: int)  // fetch_sub returned `prev`, the signal not yet read
    | Notifying               // both tests passed, notify_one not yet called
    | Finishing               // about to be dropped at the end of `done`
    | Finished
    | Panicked                // dropped with the done flag still clear

  datatype Handler = Handler(done: bool, phase: Phase)

  /** Where the single caller of `trigger_fallback_and_wait` stands. */
  datatype Trigger =
    | Idle
    | Loading   // token cancelled, the count not yet loaded
    | Waiting   // the load saw a nonzero count, `notified()` not yet polled
    | Parked    // polled, no permit stored, queued as the waiter
    | Woken     // picked by notify_one, not yet resumed
    | Returned

  datatype State = State(
    cancelled: bool, pending: int, permit: bool, handlers: seq<Handler>, trigger: Trigger)

  datatype Action =
    | Register
    | StoreDone(i: nat)
    | Decrement(i: nat)
    | CheckSignal(i: nat)
    | NotifyOne(i: nat)
    | DropHandler(i: nat)
    | CancelToken
    | TriggerCancel
    | TriggerLoad
    | TriggerPoll
    | TriggerResume

  function Init(): State {
    State(false, 0, false, [], Idle)
  }

  predicate InPhase(s: State, i: nat, p: Phase) {
    i < |s.handlers| && s.handlers[i].phase == p
  }

  predicate Enabled(s: State, a: Action) {
    match a
    case Register => true
    case StoreDone(i) => InPhase(s, i, Registered)
    case Decrement(i) => InPhase(s, i, DoneStored)
    case CheckSignal(i) => i < |s.handlers| && s.handlers[i].phase.Decremented?
    case NotifyOne(i) => InPhase(s, i, Notifying)
    case DropHandler(i) => InPhase(s, i, Registered) || InPhase(s, i, Finishing)
    case CancelToken => true
    case TriggerCancel => s.trigger.Idle?
    case TriggerLoad => s.trigger.Loading?
    case TriggerPoll => s.trigger.Waiting?
    case TriggerResume => s.trigger.Woken?
  }

  function SetPhase(s: State, i: nat, p: Phase): State
    requires i < |s.handlers|
  {
    s.(handlers := s.handlers[i := s.handlers[i].(phase := p)])
  }

  /** `Notify::notify_one`: hand over to the parked waiter, otherwise store the one permit. */
  function Wake(s: State): State {
    if s.trigger.Parked? then s.(trigger := Woken) else s.(permit := true)
  }

  function Apply(s: State, a: Action): State
    requires Enabled(s, a)
  {
    match a
    case Register =>
      s.(pending := s.pending + 1, handlers := s.handlers + [Handler(false, Registered)])
    case StoreDone(i) => s.(handlers := s.handlers[i := Handler(true, DoneStored)])
    case Decrement(i) => SetPhase(s, i, Decremented(s.pending)).(pending := s.pending - 1)
    case CheckSignal(i) =>
      SetPhase(s, i, if s.cancelled && s.handlers[i].phase.prev == 1 then Notifying else Finishing)
    case NotifyOne(i) => SetPhase(Wake(s), i, Finishing)
    case DropHandler(i) => SetPhase(s, i, if s.handlers[i].done then Finished else Panicked)
    case CancelToken => s.(cancelled := true)
    case TriggerCancel => s.(cancelled := true, trigger := Loading)
    case TriggerLoad => s.(trigger := if s.pending == 0 then Returned else Waiting)
    case TriggerPoll => if s.permit then s.(permit := false, trigger := Returned) else s.(trigger := Parked)
    case TriggerResume => s.(trigger := Returned)
  }

  ghost predicate Runs(s: State, run: seq<Action>)
    decreases |run|
  {
    run == [] || (Enabled(s, run[0]) && Runs(Apply(s, run[0]), run[1..]))
  }

  ghost function After(s: State, run: seq<Action>): State
    requires Runs(s, run)
    decreases |run|
  {
    if run == [] then s else After(Apply(s, run[0]), run[1..])
  }

  // ---- Counting handlers -------------------------------------------------------------

  predicate Live(h: Handler) {
    h.phase.Registered? || h.phase.DoneStored? || h.phase.Panicked?
  }

  function LiveWeight(h: Handler): nat {
    if Live(h) then 1 else 0
  }

  /** The number of steps a handler still has before it rests. */
  function StepsLeft(h: Handler): nat {
    match h.phase
    case Registered => 5
    case DoneStored => 4
    case Decremented(_) => 3
    case Notifying => 2
    case Finishing => 1
    case Finished => 0
    case Panicked => 0
  }

  function Total(hs: seq<Handler>, weight: Handler -> nat): nat {
    if hs == [] then 0 else weight(hs[0]) + Total(hs[1..], weight)
  }

  lemma {:induction false} TotalUpdate(hs: seq<Handler>, weight: Handler -> nat, i: nat, h: Handler)
    requires i < |hs|
    ensures Total(hs[i := h], weight) == Total(hs, weight) - weight(hs[i]) + weight(h)
  {
    if i == 0 {
      assert hs[i := h][1..] == hs[1..];
    } else {
      assert hs[i := h][1..] == hs[1..][i - 1 := h];
      TotalUpdate(hs[1..], weight, i - 1, h);
    }
  }

  lemma {:induction false} TotalAppend(hs: seq<Handler>, weight: Handler -> nat, h: Handler)
    ensures Total(hs + [h], weight) == Total(hs, weight) + weight(h)
  {
    if hs == [] {
      assert [h][1..] == [];
    } else {
      assert (hs + [h])[1..] == hs[1..] + [h];
      TotalAppend(hs[1..], weight, h);
    }
  }

  lemma {:induction false} TotalZero(hs: seq<Handler>, weight: Handler -> nat)
    ensures Total(hs, weight) == 0 <==> forall i :: 0 <= i < |hs| ==> weight(hs[i]) == 0
  {
    if hs != [] {
      TotalZero(hs[1..], weight);
      assert forall i :: 0 < i < |hs| ==> hs[i] == hs[1..][i - 1];
    }
  }

  lemma TwoLive(hs: seq<Handler>, i: nat, j: nat)
    requires i < |hs| && j < |hs| && i != j && Live(hs[i]) && Live(hs[j])
    ensures Total(hs, LiveWeight) >= 2
  {
    var rest := Handler(true, Finished);
    TotalUpdate(hs, LiveWeight, i, rest);
    TotalUpdate(hs[i := rest], LiveWeight, j, rest);
  }

  // ---- The protocol invariant --------------------------------------------------------

  predicate WillNotify(h: Handler) {
    h.phase == Decremented(1) || h.phase.Notifying?
  }

  /** Something that wakes, or can still come to wake, the trigger. */
  ghost predicate WakeSource(s: State) {
    s.permit || s.trigger.Woken? || exists i :: 0 <= i < |s.handlers| && WillNotify(s.handlers[i])
  }

  /** The done flag is set from the first step of `done` on. */
  predicate FlagTrue(h: Handler) {
    h.done <==> !h.phase.Registered? && !h.phase.Panicked?
  }

  ghost predicate FlagsTrue(s: State) {
    forall i :: 0 <= i < |s.handlers| ==> FlagTrue(s.handlers[i])
  }

  ghost predicate Inv(s: State) {
    // the count is exactly the handlers registered and not yet decremented
    && s.pending == Total(s.handlers, LiveWeight)
    && FlagsTrue(s)
    && (!s.trigger.Idle? ==> s.cancelled)
    && (s.trigger.Parked? ==> !s.permit)
    // no lost wakeup
    && ((s.trigger.Waiting? || s.trigger.Parked?) && s.pending == 0 ==> WakeSource(s))
  }

  predicate OfHandler(a: Action) {
    a.StoreDone? || a.Decrement? || a.CheckSignal? || a.NotifyOne? || a.DropHandler?
  }

  /** A step changes at most one handler, or adds one. */
  lemma TotalStep(s: State, a: Action, weight: Handler -> nat)
    requires Enabled(s, a)
    ensures var now := Total(Apply(s, a).handlers, weight);
            if a.Register? then now == Total(s.handlers, weight) + weight(Handler(false, Registered))
            else if OfHandler(a) then
              && a.i < |s.handlers| == |Apply(s, a).handlers|
              && now == Total(s.handlers, weight) - weight(s.handlers[a.i]) + weight(Apply(s, a).handlers[a.i])
            else now == Total(s.handlers, weight)
  {
    hide Total;
    var t := Apply(s, a);
    if a.Register? {
      TotalAppend(s.handlers, weight, Handler(false, Registered));
    } else if OfHandler(a) {
      assert t.handlers == s.handlers[a.i := t.handlers[a.i]];
      TotalUpdate(s.handlers, weight, a.i, t.handlers[a.i]);
    }
  }

  lemma CountStep(s: State, a: Action)
    requires Inv(s) && Enabled(s, a)
    ensures Apply(s, a).pending == Total(Apply(s, a).handlers, LiveWeight)
  {
    hide Total, WakeSource;
    TotalStep(s, a, LiveWeight);
  }

  lemma FlagsStep(s: State, a: Action)
    requires FlagsTrue(s) && Enabled(s, a)
    ensures FlagsTrue(Apply(s, a))
  {
  }

  /** A step keeps every other handler, so it keeps what that handler is about to do. */
  lemma WakeSourceStep(s: State, a: Action)
    requires Inv(s) && Enabled(s, a)
    requires s.trigger.Waiting? || s.trigger.Parked?
    requires Apply(s, a).trigger.Waiting? || Apply(s, a).trigger.Parked?
    requires Apply(s, a).pending == 0
    ensures WakeSource(Apply(s, a))
  {
    hide Total, FlagsTrue;
    var t := Apply(s, a);
    if a.Decrement? {
      assert WillNotify(t.handlers[a.i]);
    } else if !s.permit && s.pending == 0 {
      var j :| 0 <= j < |s.handlers| && WillNotify(s.handlers[j]);
      assert a.CheckSignal? && a.i == j ==> WillNotify(t.handlers[j]);
      assert a.NotifyOne? ==> t.permit;
      assert t.permit || WillNotify(t.handlers[j]);
    }
  }

  lemma InvStep(s: State, a: Action)
    requires Inv(s) && Enabled(s, a)
    ensures Inv(Apply(s, a))
  {
    hide Total, WakeSource, FlagsTrue;
    CountStep(s, a);
    FlagsStep(s, a);
    var t := Apply(s, a);
    if (t.trigger.Waiting? || t.trigger.Parked?) && t.pending == 0 {
      if s.trigger.Waiting? || s.trigger.Parked? {
        WakeSourceStep(s, a);
      }
    }
  }

  lemma {:induction false} InvRun(s: State, run: seq<Action>)
    requires Inv(s) && Runs(s, run)
    ensures Inv(After(s, run))
    decreases |run|
  {
    if run != [] {
      InvStep(s, run[0]);
      InvRun(Apply(s, run[0]), run[1..]);
    }
  }

  predicate HasDecremented(h: Handler) {
    h.phase.Decremented? || h.phase.Notifying? || h.phase.Finishing? || h.phase.Finished?
  }

  ghost predicate AllDecremented(s: State) {
    forall i :: 0 <= i < |s.handlers| ==> HasDecremented(s.handlers[i])
  }

  /** The count is exact in every reachable state: zero if and only if everybody decremented,
      and never taken below zero by a `done`. */
  lemma PendingIsExact(run: seq<Action>)
    requires Runs(Init(), run)
    ensures var s := After(Init(), run);
            && s.pending == Total(s.handlers, LiveWeight)
            && (s.pending == 0 <==> AllDecremented(s))
            && (forall i :: Enabled(s, Decrement(i)) ==> s.pending >= 1)
  {
    InvRun(Init(), run);
    var s := After(Init(), run);
    TotalZero(s.handlers, LiveWeight);
    assert forall i :: 0 <= i < |s.handlers| ==> (HasDecremented(s.handlers[i]) <==> LiveWeight(s.handlers[i]) == 0);
    forall i | Enabled(s, Decrement(i)) ensures s.pending >= 1 {
      TotalUpdate(s.handlers, LiveWeight, i, Handler(true, Finished));
    }
  }

  /** No lost wakeup, over every interleaving. */
  lemma NoLostWakeup(run: seq<Action>)
    requires Runs(Init(), run)
    ensures var s := After(Init(), run);
            && (s.trigger.Parked? && s.pending == 0 ==>
                  s.cancelled && exists i :: 0 <= i < |s.handlers| && WillNotify(s.handlers[i]))
            && (s.trigger.Waiting? && s.pending == 0 ==>
                  s.permit || exists i :: 0 <= i < |s.handlers| && WillNotify(s.handlers[i]))
  {
    InvRun(Init(), run);
  }

  /** `done` sets its flag first, so the drop that ends it never panics. */
  lemma DoneNeverPanics(run: seq<Action>, i: nat)
    requires Runs(Init(), run) && InPhase(After(Init(), run), i, Finishing)
    ensures Apply(After(Init(), run), DropHandler(i)).handlers[i].phase == Finished
  {
    InvRun(Init(), run);
  }

  // ---- The trigger always returns ----------------------------------------------------

  predicate ProtocolStep(a: Action) {
    !a.Register? && !a.CancelToken?
  }

  function TriggerStepsLeft(t: Trigger): nat {
    match t
    case Idle => 5
    case Loading => 4
    case Waiting => 3
    case Parked => 2
    case Woken => 1
    case Returned => 0
  }

  function Rank(s: State): nat {
    Total(s.handlers, StepsLeft) + TriggerStepsLeft(s.trigger)
  }

  lemma RankStep(s: State, a: Action)
    requires Enabled(s, a)
    ensures ProtocolStep(a) ==> Rank(Apply(s, a)) < Rank(s)
    ensures a.Register? ==> Rank(Apply(s, a)) == Rank(s) + 5
    ensures a.CancelToken? ==> Rank(Apply(s, a)) == Rank(s)
  {
    hide Total;
    TotalStep(s, a, StepsLeft);
  }

  function CountIf(run: seq<Action>, p: Action -> bool): nat {
    if run == [] then 0 else (if p(run[0]) then 1 else 0) + CountIf(run[1..], p)
  }

  predicate IsRegister(a: Action) {
    a.Register?
  }

  /** There is no endless run of protocol steps: each registration pays for five. */
  lemma {:induction false} RunsAreBounded(s: State, run: seq<Action>)
    requires Runs(s, run)
    ensures CountIf(run, ProtocolStep) + Rank(After(s, run)) <= Rank(s) + 5 * CountIf(run, IsRegister)
    decreases |run|
  {
    if run != [] {
      RankStep(s, run[0]);
      RunsAreBounded(Apply(s, run[0]), run[1..]);
    }
  }

  ghost predicate Quiescent(s: State) {
    forall a :: ProtocolStep(a) ==> !Enabled(s, a)
  }

  lemma InitInv()
    ensures Inv(Init())
  {
  }

  lemma RestingHandler(s: State, i: nat)
    requires Quiescent(s) && i < |s.handlers| && !s.handlers[i].phase.Panicked?
    ensures s.handlers[i].phase == Finished
  {
    assert !Enabled(s, StoreDone(i)) && !Enabled(s, Decrement(i)) && !Enabled(s, CheckSignal(i));
    assert !Enabled(s, NotifyOne(i)) && !Enabled(s, DropHandler(i));
  }

  lemma RestingTrigger(s: State)
    requires Inv(s) && Quiescent(s) && forall i :: 0 <= i < |s.handlers| ==> s.handlers[i].phase == Finished
    ensures s.trigger == Returned
  {
    hide FlagsTrue, Total;
    TotalZero(s.handlers, LiveWeight);
    assert !Enabled(s, TriggerCancel) && !Enabled(s, TriggerLoad);
    assert !Enabled(s, TriggerPoll) && !Enabled(s, TriggerResume);
  }

  /** Where no protocol step is left, a started trigger has returned, unless a handler was
      dropped without `done`.  With RunsAreBounded: the trigger always returns. */
  lemma NeverStuck(run: seq<Action>)
    requires Runs(Init(), run)
    requires Quiescent(After(Init(), run))
    requires forall i :: 0 <= i < |After(Init(), run).handlers| ==> !After(Init(), run).handlers[i].phase.Panicked?
    ensures After(Init(), run).trigger == Returned
    ensures forall i :: 0 <= i < |After(Init(), run).handlers| ==> After(Init(), run).handlers[i].phase == Finished
  {
    hide Quiescent, Inv;
    var s := After(Init(), run);
    InvRun(Init(), run) by {
      InitInv();
    }
    forall i | 0 <= i < |s.handlers| ensures s.handlers[i].phase == Finished {
      RestingHandler(s, i);
    }
    RestingTrigger(s);
  }

  /** A handler dropped without `done` blocks the trigger for good: with no wake source left,
      no continuation, whatever registers or cancels, ever lets it return. */
  lemma {:induction false} PanickedHandlerBlocks(s: State, run: seq<Action>, p: nat)
    requires Inv(s) && Runs(s, run) && InPhase(s, p, Panicked)
    requires !WakeSource(s) && !s.trigger.Returned?
    ensures !After(s, run).trigger.Returned?
    decreases |run|
  {
    if run != [] {
      hide Inv, WakeSource;
      PanickedStep(s, run[0], p);
      PanickedHandlerBlocks(Apply(s, run[0]), run[1..], p);
    }
  }

  lemma PanickedStep(s: State, a: Action, p: nat)
    requires Inv(s) && Enabled(s, a) && InPhase(s, p, Panicked)
    requires !WakeSource(s) && !s.trigger.Returned?
    ensures var t := Apply(s, a); Inv(t) && InPhase(t, p, Panicked) && !WakeSource(t) && !t.trigger.Returned?
  {
    hide Inv, WakeSource;
    LiveHandlerBlocks(s, a, p);
  }

  /** While one handler has not decremented the count stays positive, so no step makes a new wake source. */
  lemma LiveHandlerBlocks(s: State, a: Action, p: nat)
    requires Inv(s) && Enabled(s, a) && p < |s.handlers| && Live(s.handlers[p]) && a != Decrement(p)
    requires !WakeSource(s) && !s.trigger.Returned?
    ensures var t := Apply(s, a);
            Inv(t) && p < |t.handlers| && Live(t.handlers[p]) && !WakeSource(t) && !t.trigger.Returned?
  {
    hide Total, FlagsTrue;
    InvStep(s, a);
    TotalUpdate(s.handlers, LiveWeight, p, Handler(true, Finished));
    if a.Decrement? {
      TwoLive(s.handlers, a.i, p);
    }
    assert forall i :: 0 <= i < |s.handlers| ==> !WillNotify(s.handlers[i]);
    assert !WakeSource(Apply(s, a));
  }

  // ---- When the trigger may return -----------------------------------------------------

  predicate HitsZero(s: State, a: Action) {
    a.Decrement? && s.pending == 1
  }

  /** No registration after the count has gone from one to zero; `zeroed` says it already has. */
  ghost predicate NoLateRegister(s: State, run: seq<Action>, zeroed: bool)
    requires Runs(s, run)
    decreases |run|
  {
    run == [] ||
    (&& !(zeroed && run[0].Register?)
     && NoLateRegister(Apply(s, run[0]), run[1..], zeroed || HitsZero(s, run[0])))
  }

  /** Every step of the run that makes the trigger return lands where all have decremented. */
  ghost predicate ReturnsOnlyWhenDone(s: State, run: seq<Action>)
    requires Runs(s, run)
    decreases |run|
  {
    run == [] ||
    (&& (!s.trigger.Returned? && Apply(s, run[0]).trigger.Returned? ==> AllDecremented(Apply(s, run[0])))
     && ReturnsOnlyWhenDone(Apply(s, run[0]), run[1..]))
  }

  /** With no late registration, zero is final and everything that wakes the trigger saw it. */
  ghost predicate Settled(s: State, zeroed: bool) {
    (zeroed ==> s.pending == 0) && (WakeSource(s) ==> zeroed)
  }

  lemma SettledStep(s: State, a: Action, zeroed: bool)
    requires Inv(s) && Settled(s, zeroed) && Enabled(s, a) && !(zeroed && a.Register?)
    ensures Settled(Apply(s, a), zeroed || HitsZero(s, a))
    ensures !s.trigger.Returned? && Apply(s, a).trigger.Returned? ==> AllDecremented(Apply(s, a))
  {
    hide Total, FlagsTrue, AllDecremented, WakeSource;
    InvStep(s, a);
    ZeroIsFinal(s, a, zeroed);
    if WakeSource(Apply(s, a)) {
      WakersSawZero(s, a);
    }
    if !s.trigger.Returned? && Apply(s, a).trigger.Returned? {
      ReturnHasReason(s, a);
      ZeroMeansAll(Apply(s, a));
    }
  }

  lemma ZeroIsFinal(s: State, a: Action, zeroed: bool)
    requires Inv(s) && (zeroed ==> s.pending == 0) && Enabled(s, a) && !(zeroed && a.Register?)
    ensures zeroed || HitsZero(s, a) ==> Apply(s, a).pending == 0
  {
    hide Total, FlagsTrue, WakeSource;
    if a.Decrement? {
      TotalUpdate(s.handlers, LiveWeight, a.i, Handler(true, Finished));
    }
  }

  /** A step makes a new wake source only by taking the count from one to zero. */
  lemma WakersSawZero(s: State, a: Action)
    requires Inv(s) && Enabled(s, a) && WakeSource(Apply(s, a))
    ensures WakeSource(s) || HitsZero(s, a)
  {
    hide Total, FlagsTrue;
    var t := Apply(s, a);
    if !t.permit && !t.trigger.Woken? {
      var i :| 0 <= i < |t.handlers| && WillNotify(t.handlers[i]);
      assert i < |s.handlers| && (WillNotify(s.handlers[i]) || (a == Decrement(i) && s.pending == 1));
    }
  }

  /** A return follows a load of zero or a wake-up. */
  lemma ReturnHasReason(s: State, a: Action)
    requires Enabled(s, a) && !s.trigger.Returned? && Apply(s, a).trigger.Returned?
    ensures Apply(s, a).pending == s.pending && (s.pending == 0 || WakeSource(s))
  {
  }

  lemma ZeroMeansAll(s: State)
    requires Inv(s) && s.pending == 0
    ensures AllDecremented(s)
  {
    hide FlagsTrue, WakeSource;
    TotalZero(s.handlers, LiveWeight);
    forall i | 0 <= i < |s.handlers| ensures HasDecremented(s.handlers[i]) {
      assert LiveWeight(s.handlers[i]) == 0;
    }
  }

  lemma {:induction false} SafeReturnFrom(s: State, run: seq<Action>, zeroed: bool)
    requires Inv(s) && Settled(s, zeroed) && Runs(s, run) && NoLateRegister(s, run, zeroed)
    ensures ReturnsOnlyWhenDone(s, run)
    decreases |run|
  {
    if run != [] {
      InvStep(s, run[0]);
      SettledStep(s, run[0], zeroed);
      SafeReturnFrom(Apply(s, run[0]), run[1..], zeroed || HitsZero(s, run[0]));
    }
  }

  /** Safe return: in every run without a registration after the count went from one to zero,
      the trigger returns only when every registered handler has decremented. */
  lemma SafeReturn(run: seq<Action>)
    requires Runs(Init(), run) && NoLateRegister(Init(), run, false)
    ensures ReturnsOnlyWhenDone(Init(), run)
  {
    SafeReturnFrom(Init(), run, false);
  }

  /** The hypothesis is needed: one handler decrements to zero and pauses, a second one
      registers, the trigger cancels and waits, and the late test of the first wakes it. */
  lemma LateRegisterReturnsEarly() returns (run: seq<Action>)
    ensures Runs(Init(), run) && !ReturnsOnlyWhenDone(Init(), run)
    ensures After(Init(), run).trigger.Returned? && After(Init(), run).pending == 1
  {
    var s0 := Init();
    var s1 := Apply(s0, Register);
    var s2 := Apply(s1, StoreDone(0));
    var s3 := Apply(s2, Decrement(0));
    var s4 := Apply(s3, Register);
    var s5 := Apply(s4, TriggerCancel);
    run := LateTestWakes(s5);
    hide Runs, After, ReturnsOnlyWhenDone;
    run := Prepend(s4, TriggerCancel, run);
    run := Prepend(s3, Register, run);
    run := Prepend(s2, Decrement(0), run);
    run := Prepend(s1, StoreDone(0), run);
    run := Prepend(s0, Register, run);
  }

  /** The second half of that run: the trigger parks, and the stale decrement wakes it. */
  lemma LateTestWakes(s: State) returns (run: seq<Action>)
    requires s == State(true, 1, false, [Handler(true, Decremented(1)), Handler(false, Registered)], Loading)
    ensures Runs(s, run) && !ReturnsOnlyWhenDone(s, run)
    ensures After(s, run).trigger.Returned? && After(s, run).pending == 1
  {
    var s6 := Apply(s, TriggerLoad);
    var s7 := Apply(s6, TriggerPoll);
    var s8 := Apply(s7, CheckSignal(0));
    var s9 := Apply(s8, NotifyOne(0));
    var s10 := Apply(s9, TriggerResume);
    assert s10.handlers[1].phase == Registered && !HasDecremented(s10.handlers[1]);
    run := [TriggerResume];
    assert After(s9, run) == s10 && !ReturnsOnlyWhenDone(s9, run);
    hide Runs, After, ReturnsOnlyWhenDone;
    run := Prepend(s8, NotifyOne(0), run);
    run := Prepend(s7, CheckSignal(0), run);
    run := Prepend(s6, TriggerPoll, run);
    run := Prepend(s, TriggerLoad, run);
  }

  lemma Prepend(s: State, a: Action, rest: seq<Action>) returns (run: seq<Action>)
    requires Enabled(s, a) && Runs(Apply(s, a), rest)
    ensures run == [a] + rest && Runs(s, run) && After(s, run) == After(Apply(s, a), rest)
    ensures ReturnsOnlyWhenDone(s, run) ==> ReturnsOnlyWhenDone(Apply(s, a), rest)
  {
    run := [a] + rest;
    assert run[1..] == rest;
  }

  ghost predicate NoRegister(run: seq<Action>) {
    forall i :: 0 <= i < |run| ==> !run[i].Register?
  }

  /** From `s`, without further registrations, the trigger can return with handlers pending. */
  ghost predicate EarlyReturn(s: State, run: seq<Action>) {
    Runs(s, run) && NoRegister(run) && After(s, run).trigger.Returned? && After(s, run).pending > 0
  }

  /** Nothing but the trigger's own steps and the end of a `done` that has decremented. */
  predicate Wakes(a: Action) {
    a.TriggerCancel? || a.TriggerLoad? || a.TriggerPoll? || a.TriggerResume? || a.CheckSignal? || a.NotifyOne?
  }

  predicate WakesOnly(run: seq<Action>) {
    forall i :: 0 <= i < |run| ==> Wakes(run[i])
  }

  lemma EarlyPrepend(s: State, a: Action, rest: seq<Action>) returns (run: seq<Action>)
    requires Enabled(s, a) && !a.Register? && EarlyReturn(Apply(s, a), rest)
    ensures EarlyReturn(s, run) && run == [a] + rest
  {
    run := Prepend(s, a, rest);
  }

  /** Drives a pending wake source to an early return. */
  lemma StaleWakeReturnsEarly(s: State) returns (run: seq<Action>)
    requires Inv(s) && s.pending > 0 && WakeSource(s)
    ensures EarlyReturn(s, run) && WakesOnly(run)
    decreases Rank(s)
  {
    if s.trigger.Returned? {
      run := [];
    } else {
      var a: Action;
      if s.trigger.Idle? { a := TriggerCancel; }
      else if s.trigger.Loading? { a := TriggerLoad; }
      else if s.trigger.Woken? { a := TriggerResume; }
      else if s.permit { a := TriggerPoll; }
      else {
        var i: nat :| i < |s.handlers| && WillNotify(s.handlers[i]);
        a := if s.handlers[i].phase.Notifying? then NotifyOne(i) else CheckSignal(i);
        assert a.CheckSignal? ==> WillNotify(Apply(s, a).handlers[i]);
      }
      InvStep(s, a);
      RankStep(s, a);
      if a.TriggerCancel? || a.TriggerLoad? {
        if !s.permit {
          var i: nat :| i < |s.handlers| && WillNotify(s.handlers[i]);
          assert WillNotify(Apply(s, a).handlers[i]);
        }
      }
      if a.TriggerResume? || a.TriggerPoll? {
        run := [];
        assert After(Apply(s, a), run).trigger.Returned?;
      } else {
        run := StaleWakeReturnsEarly(Apply(s, a));
      }
      run := EarlyPrepend(s, a, run);
    }
  }

  lemma {:induction false} NoStaleWakeIsSafe(s: State, run: seq<Action>)
    requires Inv(s) && Runs(s, run) && NoRegister(run)
    requires s.pending == 0 || (!WakeSource(s) && !s.trigger.Returned?)
    ensures !EarlyReturn(s, run)
    decreases |run|
  {
    if run != [] {
      var a, t := run[0], Apply(s, run[0]);
      InvStep(s, a);
      if a.Decrement? {
        TotalUpdate(s.handlers, LiveWeight, a.i, Handler(true, Finished));
      }
      if t.pending != 0 {
        assert forall i :: 0 <= i < |s.handlers| ==> !WillNotify(s.handlers[i]);
      }
      NoStaleWakeIsSafe(t, run[1..]);
    }
  }

  /** Exactly when an early return is possible: from a reachable state with the trigger not yet
      back, some continuation without registrations returns early if and only if handlers are
      pending while a permit, a wake-up or an unfinished decrement-to-zero is outstanding. */
  lemma EarlyReturnExactly(run: seq<Action>)
    requires Runs(Init(), run) && !After(Init(), run).trigger.Returned?
    ensures var s := After(Init(), run);
            (exists rest :: EarlyReturn(s, rest)) <==> s.pending > 0 && WakeSource(s)
  {
    var s := After(Init(), run);
    InvRun(Init(), run);
    if s.pending > 0 && WakeSource(s) {
      var rest := StaleWakeReturnsEarly(s);
    } else {
      TotalZero(s.handlers, LiveWeight);
      forall rest ensures !EarlyReturn(s, rest) {
        if Runs(s, rest) && NoRegister(rest) {
          NoStaleWakeIsSafe(s, rest);
        }
      }
    }
  }

  /** A handler dropped without `done`, exactly: the trigger can still come back, and then too early, if
      and only if a wake source is outstanding. */
  lemma PanickedReturnsExactly(run: seq<Action>, p: nat)
    requires Runs(Init(), run) && InPhase(After(Init(), run), p, Panicked) && !After(Init(), run).trigger.Returned?
    ensures var s := After(Init(), run);
            (exists rest :: Runs(s, rest) && After(s, rest).trigger.Returned?) <==> WakeSource(s)
  {
    var s := After(Init(), run);
    InitInv();
    InvRun(Init(), run);
    LivePending(s, p);
    hide Inv, WakeSource, InPhase;
    if WakeSource(s) {
      var rest := StaleWakeReturnsEarly(s);
      assert Runs(s, rest) && After(s, rest).trigger.Returned?;
    } else {
      forall rest | Runs(s, rest) ensures !After(s, rest).trigger.Returned? {
        PanickedHandlerBlocks(s, rest, p);
      }
    }
  }

  lemma LivePending(s: State, p: nat)
    requires Inv(s) && p < |s.handlers| && Live(s.handlers[p])
    ensures s.pending > 0
  {
    hide FlagsTrue, WakeSource;
    TotalUpdate(s.handlers, LiveWeight, p, Handler(true, Finished));
  }
}
