/**
 What a run of the fallback protocol leaves, told from its actions alone: who cancelled, who registered,
 who decremented, which notification went where.
 */
module CoordinatorHistory {
  import opened Coordinator

  predicate Cancels(a: Action) {
    a.CancelToken? || a.TriggerCancel?
  }

  ghost predicate Cancelled(run: seq<Action>) {
    exists k :: 0 <= k < |run| && Cancels(run[k])
  }

  predicate IsDecrement(a: Action) {
    a.Decrement?
  }

  /** Registrations minus decrements. */
  function Outstanding(run: seq<Action>): int {
    CountIf(run, IsRegister) - CountIf(run, IsDecrement)
  }

  lemma {:induction false} RunSnoc(s: State, run: seq<Action>, a: Action)
    ensures Runs(s, run + [a]) <==> Runs(s, run) && Enabled(After(s, run), a)
    ensures Runs(s, run + [a]) ==> After(s, run + [a]) == Apply(After(s, run), a)
    decreases |run|
  {
    hide Enabled, Apply;
    var more := run + [a];
    if run == [] {
      assert more[1..] == [];
    } else if Enabled(s, run[0]) {
      assert more[1..] == run[1..] + [a];
      RunSnoc(Apply(s, run[0]), run[1..], a);
    }
  }

  /** A run that is not empty is a shorter one and its last action. */
  lemma LastStep(run: seq<Action>) returns (before: seq<Action>, a: Action)
    requires Runs(Init(), run) && run != []
    ensures run == before + [a] && before == run[..|run| - 1]
    ensures Runs(Init(), before) && Enabled(After(Init(), before), a)
    ensures After(Init(), run) == Apply(After(Init(), before), a)
  {
    before, a := run[..|run| - 1], run[|run| - 1];
    assert run == before + [a];
    RunSnoc(Init(), before, a);
  }

  lemma {:induction false} PrefixRuns(run: seq<Action>, k: nat)
    requires Runs(Init(), run) && k <= |run|
    ensures Runs(Init(), run[..k])
  {
    if k < |run| {
      var before, a := LastStep(run);
      PrefixRuns(before, k);
      assert before[..k] == run[..k];
    } else {
      assert run[..k] == run;
    }
  }

  lemma {:induction false} CountSnoc(run: seq<Action>, a: Action, p: Action -> bool)
    ensures CountIf(run + [a], p) == CountIf(run, p) + if p(a) then 1 else 0
  {
    var more := run + [a];
    if run == [] {
      assert more[1..] == [];
    } else {
      assert more[1..] == run[1..] + [a];
      CountSnoc(run[1..], a, p);
    }
  }

  // ---- The token and the count ---------------------------------------------------------------

  /** The token is cancelled exactly if somebody cancelled it. */
  lemma {:induction false} CancelledExactly(run: seq<Action>)
    requires Runs(Init(), run)
    ensures After(Init(), run).cancelled <==> Cancelled(run)
  {
    if run != [] {
      var before, a := LastStep(run);
      CancelledExactly(before);
      assert run[|before|] == a && forall k :: 0 <= k < |before| ==> run[k] == before[k];
    }
  }

  /** The handlers are the registrations, and the count is registrations minus decrements. */
  lemma {:induction false} CountExactly(run: seq<Action>)
    requires Runs(Init(), run)
    ensures var s := After(Init(), run);
            |s.handlers| == CountIf(run, IsRegister) && s.pending == Outstanding(run)
  {
    if run != [] {
      var before, a := LastStep(run);
      CountExactly(before);
      CountSnoc(before, a, IsRegister);
      CountSnoc(before, a, IsDecrement);
    }
  }

  /** As long as nobody cancelled, nothing can wake a trigger: no permit, nobody woken, nobody about to
      notify, however many handlers came and went. */
  lemma {:induction false} QuietUntilCancelled(run: seq<Action>)
    requires Runs(Init(), run) && !Cancelled(run)
    ensures var s := After(Init(), run);
            && !s.permit && s.trigger.Idle?
            && forall i :: 0 <= i < |s.handlers| ==> !s.handlers[i].phase.Notifying?
  {
    if run != [] {
      var before, a := LastStep(run);
      assert forall k :: 0 <= k < |before| ==> run[k] == before[k];
      assert run[|before|] == a;
      QuietUntilCancelled(before);
      CancelledExactly(before);
    }
  }

  // ---- The steps of one handler --------------------------------------------------------------

  /** What handler `i` did, in order. */
  function StepsOf(run: seq<Action>, i: nat): seq<Action> {
    if run == [] then []
    else var a := run[|run| - 1];
         StepsOf(run[..|run| - 1], i) + if OfHandler(a) && a.i == i then [a] else []
  }

  /** `done` up to its last test, then the notification if there is one, then the drop. */
  function Program(i: nat, notifies: bool): seq<Action> {
    [StoreDone(i), Decrement(i), CheckSignal(i)] + (if notifies then [NotifyOne(i)] else []) + [DropHandler(i)]
  }

  /** The steps behind a handler in this phase. */
  function Walked(i: nat, phase: Phase, notifies: bool): seq<Action> {
    match phase
    case Registered => []
    case DoneStored => [StoreDone(i)]
    case Decremented(_) => [StoreDone(i), Decrement(i)]
    case Notifying => [StoreDone(i), Decrement(i), CheckSignal(i)]
    case Finishing => [StoreDone(i), Decrement(i), CheckSignal(i)] + if notifies then [NotifyOne(i)] else []
    case Finished => Program(i, notifies)
    case Panicked => [DropHandler(i)]
  }

  predicate ComeTo(steps: seq<Action>, i: nat, h: Handler) {
    && (steps == Walked(i, h.phase, false) || steps == Walked(i, h.phase, true))
    && FlagTrue(h)
  }

  lemma StepsNext(run: seq<Action>, a: Action, i: nat)
    ensures StepsOf(run + [a], i) == StepsOf(run, i) + if OfHandler(a) && a.i == i then [a] else []
  {
    assert (run + [a])[..|run|] == run;
  }

  lemma ComesTo(s: State, a: Action, i: nat, steps: seq<Action>)
    requires Enabled(s, a) && i < |s.handlers| && ComeTo(steps, i, s.handlers[i])
    requires OfHandler(a) && a.i == i
    ensures ComeTo(steps + [a], i, Apply(s, a).handlers[i])
  {
    var h, more := Apply(s, a).handlers[i], steps + [a];
    assert FlagTrue(h);
    match a
    case StoreDone(_) => assert more == Walked(i, DoneStored, false);
    case Decrement(_) => assert more == Walked(i, h.phase, false);
    case CheckSignal(_) => assert more == Walked(i, h.phase, false);
    case NotifyOne(_) => assert more == Walked(i, Finishing, true);
    case DropHandler(_) =>
      assert steps == [] ==> more == Walked(i, Panicked, false);
      assert steps == Walked(i, Finishing, false) ==> more == Program(i, false);
      assert steps == Walked(i, Finishing, true) ==> more == Program(i, true);
  }

  lemma {:induction false} EachComesTo(run: seq<Action>, i: nat)
    requires Runs(Init(), run)
    ensures var s := After(Init(), run);
            if i < |s.handlers| then ComeTo(StepsOf(run, i), i, s.handlers[i]) else StepsOf(run, i) == []
  {
    if run != [] {
      var before, a := LastStep(run);
      EachComesTo(before, i);
      StepsNext(before, a, i);
      var s := After(Init(), before);
      hide Runs, After, StepsOf, ComeTo;
      if OfHandler(a) && a.i == i {
        ComesTo(s, a, i, StepsOf(before, i));
      } else if i < |s.handlers| {
        assert Apply(s, a).handlers[i] == s.handlers[i];
      } else if a.Register? && i == |s.handlers| {
        Newcomer(i);
      }
    }
  }

  lemma Newcomer(i: nat)
    ensures ComeTo([], i, Handler(false, Registered))
  {
  }

  /** Every handler runs `done` in program order and is dropped at its end, or is dropped at once. */
  lemma ProgramOrder(run: seq<Action>, i: nat)
    requires Runs(Init(), run)
    ensures var steps := StepsOf(run, i);
            steps <= Program(i, false) || steps <= Program(i, true) || steps == [DropHandler(i)]
  {
    hide Runs, After, StepsOf;
    EachComesTo(run, i);
  }

  /** A handler is finished exactly if it was dropped after the whole of `done`, and it panicked exactly if
      it was dropped without. */
  lemma DroppedExactly(run: seq<Action>, i: nat)
    requires Runs(Init(), run) && i < CountIf(run, IsRegister)
    ensures var s, steps := After(Init(), run), StepsOf(run, i);
            && i < |s.handlers|
            && (s.handlers[i].phase.Panicked? <==> steps == [DropHandler(i)])
            && (s.handlers[i].phase.Finished? <==> steps == Program(i, false) || steps == Program(i, true))
            && (s.handlers[i].done <==> steps != [] && steps[0] == StoreDone(i))
  {
    hide Runs, After, StepsOf, CountIf;
    CountExactly(run);
    EachComesTo(run, i);
    var steps := StepsOf(run, i);
    if steps == Program(i, false) || steps == Program(i, true) {
      assert steps[|steps| - 1] == DropHandler(i) && steps[0] == StoreDone(i);
    }
  }

  /** What is possible after every run: registering, cancelling, and for a handler that has done nothing
      yet both starting `done` and being dropped, which panics. */
  lemma AlwaysPossible(run: seq<Action>)
    requires Runs(Init(), run)
    ensures Runs(Init(), run + [Register]) && Runs(Init(), run + [CancelToken])
    ensures forall i: nat :: i < CountIf(run, IsRegister) && StepsOf(run, i) == [] ==>
              && Runs(Init(), run + [StoreDone(i)]) && Runs(Init(), run + [DropHandler(i)])
              && InPhase(After(Init(), run + [DropHandler(i)]), i, Panicked)
  {
    RunSnoc(Init(), run, Register);
    RunSnoc(Init(), run, CancelToken);
    forall i: nat | i < CountIf(run, IsRegister) && StepsOf(run, i) == []
      ensures Runs(Init(), run + [StoreDone(i)]) && Runs(Init(), run + [DropHandler(i)])
      ensures InPhase(After(Init(), run + [DropHandler(i)]), i, Panicked)
    {
      UntouchedHandler(run, i);
      RunSnoc(Init(), run, StoreDone(i));
      RunSnoc(Init(), run, DropHandler(i));
    }
  }

  lemma UntouchedHandler(run: seq<Action>, i: nat)
    requires Runs(Init(), run) && i < CountIf(run, IsRegister) && StepsOf(run, i) == []
    ensures i < |After(Init(), run).handlers| && After(Init(), run).handlers[i] == Handler(false, Registered)
  {
    hide Runs, After, StepsOf, CountIf;
    CountExactly(run);
    EachComesTo(run, i);
  }

  // ---- Who notifies, and where the notification goes -------------------------------------------

  ghost predicate Decrements(run: seq<Action>, p: nat, i: nat) {
    p < |run| && run[p] == Decrement(i)
  }

  lemma DecrementsNext(run: seq<Action>, a: Action, i: nat)
    ensures forall p: nat :: Decrements(run + [a], p, i) <==> Decrements(run, p, i) || (p == |run| && a == Decrement(i))
    ensures forall p: nat :: p <= |run| ==> (run + [a])[..p] == run[..p]
  {
  }

  /** A handler decrements at most once, and remembers the count it found. */
  ghost predicate Remembers(run: seq<Action>, i: nat, h: Handler) {
    && (forall p: nat :: Decrements(run, p, i) ==>
          HasDecremented(h) && (h.phase.Decremented? ==> h.phase.prev == Outstanding(run[..p])))
    && (h.phase.Decremented? ==> exists p: nat :: Decrements(run, p, i))
  }

  lemma RemembersOn(run: seq<Action>, a: Action, i: nat, h: Handler, h': Handler)
    requires Remembers(run, i, h) && a != Decrement(i)
    requires HasDecremented(h) ==> HasDecremented(h')
    requires h'.phase.Decremented? ==> h' == h
    ensures Remembers(run + [a], i, h')
  {
    DecrementsNext(run, a, i);
    hide Outstanding;
    if h'.phase.Decremented? {
      var p: nat :| Decrements(run, p, i);
      assert Decrements(run + [a], p, i);
    }
  }

  lemma RemembersNow(run: seq<Action>, i: nat, h: Handler)
    requires forall p: nat :: !Decrements(run, p, i)
    requires h.phase == Decremented(Outstanding(run))
    ensures Remembers(run + [Decrement(i)], i, h)
  {
    DecrementsNext(run, Decrement(i), i);
    hide Outstanding;
    var more := run + [Decrement(i)];
    assert more[..|run|] == run && Decrements(more, |run|, i);
  }

  lemma {:induction false} RemembersCount(run: seq<Action>, i: nat)
    requires Runs(Init(), run)
    ensures var hs := After(Init(), run).handlers;
            if i < |hs| then Remembers(run, i, hs[i]) else forall p: nat :: !Decrements(run, p, i)
  {
    if run != [] {
      var before, a := LastStep(run);
      RemembersCount(before, i);
      DecrementsNext(before, a, i);
      CountExactly(before);
      InvRun(Init(), before);
      var s := After(Init(), before);
      hide Runs, After, Decrements, Outstanding, CountIf, Remembers, Inv;
      if a == Decrement(i) {
        NotYetDecremented(before, i, s.handlers[i]);
        RemembersNow(before, i, Apply(s, a).handlers[i]);
      } else if i < |s.handlers| {
        OneHandlerOn(s, a, i);
        RemembersOn(before, a, i, s.handlers[i], Apply(s, a).handlers[i]);
      } else if a.Register? && i == |s.handlers| {
        NothingToRemember(before, a, i);
      }
    }
  }

  lemma OneHandlerOn(s: State, a: Action, i: nat)
    requires Inv(s) && Enabled(s, a) && i < |s.handlers| && a != Decrement(i)
    ensures var h, h' := s.handlers[i], Apply(s, a).handlers[i];
            (HasDecremented(h) ==> HasDecremented(h')) && (h'.phase.Decremented? ==> h' == h)
  {
    hide Total, WakeSource;
  }

  lemma NotYetDecremented(run: seq<Action>, i: nat, h: Handler)
    requires Remembers(run, i, h) && !HasDecremented(h)
    ensures forall p: nat :: !Decrements(run, p, i)
  {
  }

  lemma NothingToRemember(run: seq<Action>, a: Action, i: nat)
    requires a != Decrement(i) && forall p: nat :: !Decrements(run, p, i)
    ensures Remembers(run + [a], i, Handler(false, Registered))
  {
    DecrementsNext(run, a, i);
  }

  /** A handler notifies exactly if somebody had cancelled before its last test and its own decrement took
      the count, registrations minus decrements, from one to zero. */
  lemma NotifiesExactly(run: seq<Action>, q: nat, i: nat)
    requires Runs(Init(), run) && q < |run| && run[q] == CheckSignal(i)
    ensures Runs(Init(), run[..q + 1])
    ensures InPhase(After(Init(), run[..q + 1]), i, Notifying) <==>
              Cancelled(run[..q]) && exists p: nat :: p < q && Decrements(run, p, i) && Outstanding(run[..p]) == 1
    ensures InPhase(After(Init(), run[..q + 1]), i, Notifying) || InPhase(After(Init(), run[..q + 1]), i, Finishing)
  {
    hide *;
    PrefixRuns(run, q + 1);
    var before, a := LastStep(run[..q + 1]);
    assert before == run[..q] && a == CheckSignal(i);
    RemembersCount(before, i);
    CancelledExactly(before);
    SamePrefixes(run, q, i);
    TestsExactly(before, After(Init(), before), i);
  }

  lemma SamePrefixes(run: seq<Action>, q: nat, i: nat)
    requires q <= |run|
    ensures forall p: nat :: p < q ==>
              (Decrements(run[..q], p, i) <==> Decrements(run, p, i)) && run[..q][..p] == run[..p]
    ensures forall p: nat :: Decrements(run[..q], p, i) ==> p < q
  {
  }

  lemma TestsExactly(run: seq<Action>, s: State, i: nat)
    requires Enabled(s, CheckSignal(i)) && Remembers(run, i, s.handlers[i]) && s.cancelled == Cancelled(run)
    ensures InPhase(Apply(s, CheckSignal(i)), i, Notifying) <==>
              Cancelled(run) && exists p: nat :: Decrements(run, p, i) && Outstanding(run[..p]) == 1
    ensures InPhase(Apply(s, CheckSignal(i)), i, Notifying) || InPhase(Apply(s, CheckSignal(i)), i, Finishing)
  {
    hide Outstanding, Decrements, Cancelled;
  }

  /** At `p` a notification found nobody parked, so it was stored. */
  ghost predicate Stores(run: seq<Action>, p: nat)
    requires Runs(Init(), run)
  {
    p < |run| && run[p].NotifyOne? && (PrefixRuns(run, p); !After(Init(), run[..p]).trigger.Parked?)
  }

  /** A stored notification that no poll has taken since. */
  ghost predicate PermitLeft(run: seq<Action>)
    requires Runs(Init(), run)
  {
    exists p: nat :: Stores(run, p) && forall q :: p < q < |run| ==> !run[q].TriggerPoll?
  }

  lemma StoresNext(run: seq<Action>, a: Action)
    requires Runs(Init(), run + [a])
    ensures Runs(Init(), run) && Enabled(After(Init(), run), a)
    ensures forall p: nat :: Stores(run + [a], p) <==>
              Stores(run, p) || (p == |run| && a.NotifyOne? && !After(Init(), run).trigger.Parked?)
  {
    RunSnoc(Init(), run, a);
    assert forall p: nat :: p <= |run| ==> (run + [a])[..p] == run[..p];
    assert run[..|run|] == run;
  }

  /** There is a permit exactly if a notification that found nobody parked has not been taken by a poll. */
  lemma {:induction false} PermitExactly(run: seq<Action>)
    requires Runs(Init(), run)
    ensures After(Init(), run).permit <==> PermitLeft(run)
  {
    if run != [] {
      var before, a := LastStep(run);
      PermitExactly(before);
      StoresNext(before, a);
      PermitNext(before, a);
    }
  }

  lemma PermitNext(run: seq<Action>, a: Action)
    requires Runs(Init(), run + [a]) && Runs(Init(), run)
    ensures PermitLeft(run + [a]) <==>
            (a.NotifyOne? && !After(Init(), run).trigger.Parked?) || (PermitLeft(run) && !a.TriggerPoll?)
  {
    var more := run + [a];
    StoresNext(run, a);
    hide Runs, After, Stores;
    assert forall k :: 0 <= k < |run| ==> more[k] == run[k];
    if a.NotifyOne? && !After(Init(), run).trigger.Parked? {
      assert Stores(more, |run|);
    }
    if PermitLeft(run) && !a.TriggerPoll? {
      var p: nat :| Stores(run, p) && forall q :: p < q < |run| ==> !run[q].TriggerPoll?;
      assert Stores(more, p) && forall q :: p < q < |more| ==> !more[q].TriggerPoll?;
    }
    if PermitLeft(more) {
      var p: nat :| Stores(more, p) && forall q :: p < q < |more| ==> !more[q].TriggerPoll?;
      if p != |run| {
        assert more[|run|] == a;
        assert forall q :: p < q < |run| ==> !run[q].TriggerPoll?;
      }
    }
  }

  // ---- The trigger -----------------------------------------------------------------------------

  /** The load found registrations and decrements in balance. */
  ghost predicate SawZero(run: seq<Action>) {
    exists k: nat :: k < |run| && run[k] == TriggerLoad && Outstanding(run[..k]) == 0
  }

  /** At `k` the trigger polls, and there is a permit or not. */
  ghost predicate PollsAt(run: seq<Action>, k: nat, permit: bool)
    requires Runs(Init(), run)
  {
    k < |run| && run[k] == TriggerPoll && (PrefixRuns(run, k); PermitLeft(run[..k]) == permit)
  }

  ghost predicate TookPermit(run: seq<Action>)
    requires Runs(Init(), run)
  {
    exists k: nat :: PollsAt(run, k, true)
  }

  ghost predicate NotifiedAfter(run: seq<Action>, k: nat) {
    exists n :: k < n < |run| && run[n].NotifyOne?
  }

  /** It queued up, and was notified since or not. */
  ghost predicate Queued(run: seq<Action>, notified: bool)
    requires Runs(Init(), run)
  {
    exists k: nat :: PollsAt(run, k, false) && NotifiedAfter(run, k) == notified
  }

  ghost predicate Back(run: seq<Action>)
    requires Runs(Init(), run)
  {
    SawZero(run) || TookPermit(run) || TriggerResume in run
  }

  /** What the actions say about where the trigger stands. */
  ghost predicate Told(run: seq<Action>, t: Trigger)
    requires Runs(Init(), run)
  {
    && (t.Returned? <==> Back(run))
    && (t.Idle? <==> TriggerCancel !in run)
    && match t
       case Idle => TriggerLoad !in run && TriggerPoll !in run
       case Loading => TriggerLoad !in run && TriggerPoll !in run
       case Waiting => TriggerLoad in run && TriggerPoll !in run
       case Parked => Queued(run, false)
       case Woken => Queued(run, true)
       case Returned => true
  }

  lemma SawZeroNext(run: seq<Action>, a: Action)
    ensures SawZero(run + [a]) <==> SawZero(run) || (a == TriggerLoad && Outstanding(run) == 0)
  {
    hide Outstanding;
    var more := run + [a];
    assert forall k: nat :: k <= |run| ==> more[..k] == run[..k];
    assert run[..|run|] == run && more[|run|] == a;
    assert forall k: nat :: k < |run| ==> more[k] == run[k];
  }

  lemma PollsNext(run: seq<Action>, a: Action)
    requires Runs(Init(), run + [a]) && Runs(Init(), run)
    ensures forall k: nat, permit :: PollsAt(run + [a], k, permit) <==>
              PollsAt(run, k, permit) || (k == |run| && a == TriggerPoll && PermitLeft(run) == permit)
  {
    hide Runs, PermitLeft;
    var more := run + [a];
    assert forall k: nat :: k <= |run| ==> more[..k] == run[..k];
    assert run[..|run|] == run;
  }

  lemma NotifiedNext(run: seq<Action>, a: Action)
    ensures forall k: nat :: k < |run| ==> (NotifiedAfter(run + [a], k) <==> NotifiedAfter(run, k) || a.NotifyOne?)
    ensures !NotifiedAfter(run + [a], |run|)
  {
    var more := run + [a];
    assert more[|run|] == a && forall k: nat :: k < |run| ==> more[k] == run[k];
    forall k: nat | k < |run| ensures NotifiedAfter(more, k) <==> NotifiedAfter(run, k) || a.NotifyOne? {
      if NotifiedAfter(run, k) {
        var n :| k < n < |run| && run[n].NotifyOne?;
        assert more[n].NotifyOne?;
      }
    }
  }

  lemma BackNext(run: seq<Action>, a: Action)
    requires Runs(Init(), run + [a]) && Runs(Init(), run)
    ensures Back(run + [a]) <==>
            || Back(run) || a == TriggerResume
            || (a == TriggerLoad && Outstanding(run) == 0) || (a == TriggerPoll && PermitLeft(run))
  {
    hide Runs, PollsAt, SawZero, Outstanding, PermitLeft;
    SawZeroNext(run, a);
    PollsNext(run, a);
    if TookPermit(run) {
      var k: nat :| PollsAt(run, k, true);
      assert PollsAt(run + [a], k, true);
    }
    if a == TriggerPoll && PermitLeft(run) {
      assert PollsAt(run + [a], |run|, true);
    }
  }

  lemma QueuedNext(run: seq<Action>, a: Action, notified: bool)
    requires Runs(Init(), run + [a]) && Runs(Init(), run) && Queued(run, notified)
    ensures Queued(run + [a], notified || a.NotifyOne?)
  {
    PollsNext(run, a);
    NotifiedNext(run, a);
    var k: nat :| PollsAt(run, k, false) && NotifiedAfter(run, k) == notified;
    assert PollsAt(run + [a], k, false);
  }

  lemma QueuesNow(run: seq<Action>)
    requires Runs(Init(), run + [TriggerPoll]) && Runs(Init(), run) && !PermitLeft(run)
    ensures Queued(run + [TriggerPoll], false)
  {
    PollsNext(run, TriggerPoll);
    NotifiedNext(run, TriggerPoll);
    assert PollsAt(run + [TriggerPoll], |run|, false);
  }

  /** One step of the trigger, or a notification that finds it parked. */
  predicate Moves(t: Trigger, a: Action, t': Trigger, balanced: bool, permit: bool) {
    match a
    case TriggerCancel => t.Idle? && t'.Loading?
    case TriggerLoad => t.Loading? && t' == if balanced then Returned else Waiting
    case TriggerPoll => t.Waiting? && t' == if permit then Returned else Parked
    case TriggerResume => t.Woken? && t'.Returned?
    case NotifyOne(_) => t' == if t.Parked? then Woken else t
    case _ => t' == t
  }

  lemma TriggerMoves(s: State, a: Action)
    requires Enabled(s, a)
    ensures Moves(s.trigger, a, Apply(s, a).trigger, s.pending == 0, s.permit)
  {
  }

  lemma ToldNext(run: seq<Action>, a: Action, t: Trigger, t': Trigger)
    requires Runs(Init(), run + [a]) && Runs(Init(), run) && Told(run, t)
    requires Moves(t, a, t', Outstanding(run) == 0, PermitLeft(run))
    ensures Told(run + [a], t')
  {
    hide Runs, Queued, Back, PermitLeft, Outstanding;
    BackNext(run, a);
    if t.Parked? || t.Woken? {
      QueuedNext(run, a, t.Woken?);
    } else if a == TriggerPoll && !PermitLeft(run) {
      QueuesNow(run);
    }
  }

  /** Where the trigger stands after any run: back exactly if it loaded a balanced count, polled with a permit
      left, or resumed; queued exactly with no permit at its poll, and woken by the first notification since. */
  lemma {:induction false} TriggerExactly(run: seq<Action>)
    requires Runs(Init(), run)
    ensures Told(run, After(Init(), run).trigger)
  {
    if run != [] {
      var before, a := LastStep(run);
      TriggerExactly(before);
      CountExactly(before);
      PermitExactly(before);
      var s := After(Init(), before);
      TriggerMoves(s, a);
      hide Runs, After, Told, PermitLeft, Outstanding, CountIf, Enabled, Apply;
      ToldNext(before, a, s.trigger, Apply(s, a).trigger);
    }
  }
}
