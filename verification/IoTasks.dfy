/**
 The reader and writer tasks of every connection, composed with the fallback coordinator.

 A task that leaves its select loop runs straight-line cleanup code; that code is kept as the
 list of operations it still has to perform, one atomic operation per step.  Draining takes one
 step per queued frame.  A writer that has taken a frame is in the middle of a socket write until
 the socket lets it go on; it looks at no token meanwhile, while a reader that waits for a frame can
 be cancelled there.  Everybody else may send, receive and close at any point in between.
 */
module IoTasks {
  import Co = Coordinator
  import opened Prelude

  type Frame = nat

  datatype Op = CloseInbound | CloseOutbound | DrainOutbound | Acknowledge

  /** `handler` is absent for a connection spawned without a coordinator. */
  datatype Task =
    | Unspawned
    | Looping(handler: Option<nat>)
    | Writing(handler: Option<nat>)      // the writer, inside `write_frame`
    | Leaving(handler: Option<nat>, todo: seq<Op>)

  datatype Role = Reader | Writer

  datatype Connection = Connection(
    inClosed: bool, inbound: seq<Frame>, outClosed: bool, outbound: seq<Frame>, reader: Task, writer: Task)

  datatype System = System(co: Co.State, conns: seq<Connection>)

  /** Why a task leaves its loop. */
  datatype Cause =
    | Shutdown          // the application token
    | Fallback          // the coordinator's token
    | HandshakeFrame    // reader: an unexpected handshake frame
    | ForwardFailed     // reader: the inbound channel is closed
    | ReadFailed        // reader: socket or codec error
    | WriteFailed       // writer: socket error in the middle of a write
    | OutboundClosed    // writer: the outbound channel is closed and empty

  predicate CauseFits(role: Role, cause: Cause) {
    match cause
    case Shutdown => true
    case Fallback => true
    case HandshakeFrame => role.Reader?
    case ForwardFailed => role.Reader?
    case ReadFailed => role.Reader?
    case WriteFailed => role.Writer?
    case OutboundClosed => role.Writer?
  }

  /** What the select branch itself does before its `break`. */
  function BranchOps(cause: Cause): seq<Op> {
    match cause
    case Shutdown => [CloseInbound]
    case Fallback => [CloseInbound]
    case HandshakeFrame => []
    case ForwardFailed => [CloseInbound]
    case ReadFailed => [CloseInbound]
    case WriteFailed => [CloseOutbound, DrainOutbound]
    case OutboundClosed => [CloseOutbound, DrainOutbound]
  }

  /** The code after the loop. */
  function CleanupOps(role: Role): seq<Op> {
    match role
    case Reader => [CloseInbound, CloseOutbound, DrainOutbound, Acknowledge]
    case Writer => [CloseOutbound, DrainOutbound, CloseInbound, Acknowledge]
  }

  function ExitPath(role: Role, cause: Cause): seq<Op> {
    BranchOps(cause) + CleanupOps(role)
  }

  function TaskOf(c: Connection, role: Role): Task {
    match role
    case Reader => c.reader
    case Writer => c.writer
  }

  function WithTask(c: Connection, role: Role, t: Task): Connection {
    match role
    case Reader => c.(reader := t)
    case Writer => c.(writer := t)
  }

  datatype Action =
    | Coordinate(a: Co.Action)                      // any component, or a task inside its `done`
    | Connect
    | Spawn(c: nat, role: Role, enabled: bool)
    | Forward(c: nat, frame: Frame)                 // reader: frame into the inbound channel
    | TakeFrame(c: nat)                             // writer: a frame from the queue, and the write begins
    | WriteDone(c: nat)                             // the socket took all of it
    | Leave(c: nat, role: Role, cause: Cause)
    | Perform(c: nat, role: Role)                   // next operation of the exit path
    | PeerSend(c: nat, frame: Frame)
    | PeerReceive(c: nat)
    | PeerClose(c: nat, inbound: bool)

  /** A write that fails ends a write; every other way out is taken from the select loop. */
  predicate LeavesFrom(t: Task, cause: Cause) {
    if cause.WriteFailed? then t.Writing? else t.Looping?
  }

  /** A handler held by a task is only touched by that task, once its exit path reached `done`. */
  ghost predicate Released(s: System, i: nat) {
    forall c, role :: 0 <= c < |s.conns| && Holds(s.conns[c], role, i) ==>
      TaskOf(s.conns[c], role) == Leaving(Some(i), [])
  }

  predicate Holds(c: Connection, role: Role, i: nat) {
    var t := TaskOf(c, role);
    !t.Unspawned? && t.handler == Some(i)
  }

  ghost predicate Enabled(s: System, x: Action) {
    match x
    case Coordinate(a) =>
      && Co.Enabled(s.co, a)
      && (a.StoreDone? || a.DropHandler? ==> Released(s, a.i))
    case Connect => true
    case Spawn(c, role, _) => c < |s.conns| && TaskOf(s.conns[c], role).Unspawned?
    case Forward(c, _) => c < |s.conns| && s.conns[c].reader.Looping? && !s.conns[c].inClosed
    case TakeFrame(c) => c < |s.conns| && s.conns[c].writer.Looping? && s.conns[c].outbound != []
    case WriteDone(c) => c < |s.conns| && s.conns[c].writer.Writing?
    case Leave(c, role, cause) =>
      && c < |s.conns| && CauseFits(role, cause) && LeavesFrom(TaskOf(s.conns[c], role), cause)
      && (cause.Fallback? ==> s.co.cancelled && TaskOf(s.conns[c], role).handler.Some?)
      && (cause.ForwardFailed? ==> s.conns[c].inClosed)
      && (cause.OutboundClosed? ==> s.conns[c].outClosed && s.conns[c].outbound == [])
    case Perform(c, role) =>
      c < |s.conns| && TaskOf(s.conns[c], role).Leaving? && TaskOf(s.conns[c], role).todo != []
    case PeerSend(c, _) => c < |s.conns| && !s.conns[c].outClosed
    case PeerReceive(c) => c < |s.conns| && s.conns[c].inbound != []
    case PeerClose(c, _) => c < |s.conns|
  }

  /** One operation of an exit path; a drain stays at the head until the queue is empty. */
  function PerformOp(c: Connection, role: Role): Connection
    requires TaskOf(c, role).Leaving? && TaskOf(c, role).todo != []
  {
    var t := TaskOf(c, role);
    var next := WithTask(c, role, t.(todo := t.todo[1..]));
    match t.todo[0]
    case CloseInbound => next.(inClosed := true)
    case CloseOutbound => next.(outClosed := true)
    case DrainOutbound => if c.outbound != [] then c.(outbound := c.outbound[1..]) else next
    case Acknowledge => next
  }

  function Step(c: Connection, x: Action): Connection {
    match x
    case Forward(_, frame) => c.(inbound := c.inbound + [frame])
    case TakeFrame(_) =>
      if c.writer.Looping? && c.outbound != []
      then c.(writer := Writing(c.writer.handler), outbound := c.outbound[1..]) else c
    case WriteDone(_) => if c.writer.Writing? then c.(writer := Looping(c.writer.handler)) else c
    case Leave(_, role, cause) =>
      var t := TaskOf(c, role);
      if LeavesFrom(t, cause) then WithTask(c, role, Leaving(t.handler, ExitPath(role, cause))) else c
    case Perform(_, role) =>
      if TaskOf(c, role).Leaving? && TaskOf(c, role).todo != [] then PerformOp(c, role) else c
    case PeerSend(_, frame) => c.(outbound := c.outbound + [frame])
    case PeerReceive(_) => if c.inbound != [] then c.(inbound := c.inbound[1..]) else c
    case PeerClose(_, inbound) => if inbound then c.(inClosed := true) else c.(outClosed := true)
    case _ => c
  }

  /** What the coordinator sees of a system action. */
  function Observed(x: Action): Option<Co.Action> {
    match x
    case Coordinate(a) => Some(a)
    case Spawn(_, _, true) => Some(Co.Register)
    case _ => None
  }

  ghost function Apply(s: System, x: Action): System
    requires Enabled(s, x)
  {
    match x
    case Coordinate(a) => s.(co := Co.Apply(s.co, a))
    case Connect => s.(conns := s.conns + [Connection(false, [], false, [], Unspawned, Unspawned)])
    case Spawn(c, role, enabled) =>
      var handler := if enabled then Some(|s.co.handlers|) else None;
      System(if enabled then Co.Apply(s.co, Co.Register) else s.co,
             s.conns[c := WithTask(s.conns[c], role, Looping(handler))])
    case _ => s.(conns := s.conns[x.c := Step(s.conns[x.c], x)])
  }

  // ---- Every exit path acknowledges once, last, and after the cleanup -------------------

  predicate Clean(c: Connection) {
    c.inClosed && c.outClosed && c.outbound == []
  }

  predicate ClosesBefore(todo: seq<Op>, k: nat) {
    exists j :: 0 <= j < k && j < |todo| && todo[j] == CloseOutbound
  }

  /** What the remaining operations still guarantee, whatever the other tasks and peers do. */
  ghost predicate Guarantees(c: Connection, todo: seq<Op>) {
    && (c.inClosed || CloseInbound in todo)
    && (c.outClosed || CloseOutbound in todo)
    && ((c.outClosed && c.outbound == []) || DrainOutbound in todo)
    // nobody drains a channel that can still be sent to
    && (forall k :: 0 <= k < |todo| && todo[k] == DrainOutbound ==> c.outClosed || ClosesBefore(todo, k))
    // the acknowledgement is the last operation, and the only one of its kind
    && (forall k :: 0 <= k < |todo| ==> (todo[k] == Acknowledge <==> k == |todo| - 1))
  }

  lemma CleanupGuarantees(c: Connection, role: Role)
    ensures Guarantees(c, CleanupOps(role))
  {
    var todo := CleanupOps(role);
    assert todo[0] in todo && todo[1] in todo && todo[2] in todo;
    assert role.Reader? ==> todo[1] == CloseOutbound;
    assert role.Writer? ==> todo[0] == CloseOutbound;
  }

  /** An operation put in front weakens nothing, unless it drains an open channel. */
  lemma GuaranteesCons(c: Connection, op: Op, todo: seq<Op>)
    requires Guarantees(c, todo) && todo != [] && !op.Acknowledge?
    requires op.DrainOutbound? ==> c.outClosed
    ensures Guarantees(c, [op] + todo)
  {
    var more := [op] + todo;
    assert forall o :: o in todo ==> o in more;
    forall k | 0 <= k < |more| && more[k] == DrainOutbound ensures c.outClosed || ClosesBefore(more, k) {
      if k > 0 && !c.outClosed {
        assert todo[k - 1] == DrainOutbound;
        var j :| 0 <= j < k - 1 && j < |todo| && todo[j] == CloseOutbound;
        assert more[j + 1] == CloseOutbound;
      }
    }
  }

  lemma ExitPathGuarantees(c: Connection, role: Role, cause: Cause)
    requires CauseFits(role, cause)
    ensures Guarantees(c, ExitPath(role, cause))
  {
    var rest := CleanupOps(role);
    CleanupGuarantees(c, role);
    if cause.HandshakeFrame? {
      assert ExitPath(role, cause) == rest;
    } else if role.Reader? || cause.Shutdown? || cause.Fallback? {
      GuaranteesCons(c, CloseInbound, rest);
    } else {
      // once the branch has closed the channel its own drain is covered
      var closed := c.(outClosed := true);
      CleanupGuarantees(closed, role);
      GuaranteesCons(closed, DrainOutbound, rest);
      GuaranteesAfterClose(c, closed, [DrainOutbound] + rest);
      assert ExitPath(role, cause) == [CloseOutbound] + ([DrainOutbound] + rest);
    }
  }

  lemma GuaranteesAfterClose(c: Connection, closed: Connection, todo: seq<Op>)
    requires closed == c.(outClosed := true) && DrainOutbound in todo && Guarantees(closed, todo)
    ensures Guarantees(c, [CloseOutbound] + todo)
  {
    var more := [CloseOutbound] + todo;
    assert more[0] == CloseOutbound && more[0] in more;
    assert forall o :: o in todo ==> o in more;
    assert forall k :: 1 <= k < |more| ==> ClosesBefore(more, k);
  }

  lemma GuaranteesTail(c: Connection, d: Connection, todo: seq<Op>)
    requires todo != [] && Guarantees(c, todo)
    requires c.inClosed || todo[0].CloseInbound? ==> d.inClosed
    requires c.outClosed || todo[0].CloseOutbound? ==> d.outClosed
    requires c.outClosed && c.outbound == [] ==> d.outbound == []
    requires todo[0].DrainOutbound? ==> c.outbound == []
    ensures Guarantees(d, todo[1..])
  {
    var rest := todo[1..];
    assert forall o :: o in todo && o != todo[0] ==> o in rest;
    forall k | 0 <= k < |rest| && rest[k] == DrainOutbound ensures d.outClosed || ClosesBefore(rest, k) {
      assert todo[k + 1] == DrainOutbound;
      if !d.outClosed {
        var j :| 0 <= j < k + 1 && j < |todo| && todo[j] == CloseOutbound;
        assert rest[j - 1] == CloseOutbound;
      }
    }
  }

  /** Sends stop once a channel is closed, so other steps never undo what a path relies on. */
  lemma GuaranteesFrame(c: Connection, d: Connection, todo: seq<Op>)
    requires Guarantees(c, todo)
    requires c.inClosed ==> d.inClosed
    requires c.outClosed ==> d.outClosed
    requires c.outClosed && c.outbound == [] ==> d.outbound == []
    ensures Guarantees(d, todo)
  {
  }

  // ---- The system invariant ------------------------------------------------------------

  ghost predicate ConnectionInv(co: Co.State, c: Connection) {
    !c.reader.Writing? && forall role :: TaskInv(co, c, TaskOf(c, role))
  }

  ghost predicate TaskInv(co: Co.State, c: Connection, t: Task) {
    && (t.Leaving? ==> Guarantees(c, t.todo))
    && (!t.Unspawned? && t.handler.Some? ==>
          && t.handler.value < |co.handlers|
          && (!t.Leaving? || t.todo != [] ==> co.handlers[t.handler.value].phase.Registered?))
  }

  /** No two tasks share a handler. */
  ghost predicate OwnedOnce(s: System) {
    forall c, role, d, role', i ::
      0 <= c < |s.conns| && 0 <= d < |s.conns| && Holds(s.conns[c], role, i) && Holds(s.conns[d], role', i) ==>
      c == d && role == role'
  }

  ghost predicate Inv(s: System) {
    && Co.Inv(s.co)
    && (forall c :: 0 <= c < |s.conns| ==> ConnectionInv(s.co, s.conns[c]))
    && OwnedOnce(s)
  }

  /** Each system step is a coordinator step or leaves the coordinator alone. */
  lemma Refines(s: System, x: Action)
    requires Enabled(s, x)
    ensures Observed(x).Some? ==>
              Co.Enabled(s.co, Observed(x).value) && Apply(s, x).co == Co.Apply(s.co, Observed(x).value)
    ensures Observed(x).None? ==> Apply(s, x).co == s.co
  {
  }

  /** The same task, or the same writer at another place of its loop. */
  predicate KeptOrWriting(t: Task, u: Task) {
    u == t || ((t.Looping? || t.Writing?) && (u.Looping? || u.Writing?) && u.handler == t.handler)
  }

  /** Closed stays closed, and closed and empty stays empty. */
  lemma StepOnlyCloses(c: Connection, x: Action)
    requires x.PeerSend? ==> !c.outClosed
    ensures c.inClosed ==> Step(c, x).inClosed
    ensures c.outClosed ==> Step(c, x).outClosed
    ensures c.outClosed && c.outbound == [] ==> Step(c, x).outbound == []
    ensures forall role :: !((x.Leave? || x.Perform?) && x.role == role) ==>
              KeptOrWriting(TaskOf(c, role), TaskOf(Step(c, x), role))
    ensures !c.reader.Writing? ==> !Step(c, x).reader.Writing?
  {
  }

  /** What a step makes of the task that takes it. */
  lemma StepOfTask(c: Connection, x: Action)
    requires x.Leave? ==> LeavesFrom(TaskOf(c, x.role), x.cause)
    requires x.Perform? ==> TaskOf(c, x.role).Leaving? && TaskOf(c, x.role).todo != []
    ensures x.Leave? ==> TaskOf(Step(c, x), x.role) == Leaving(TaskOf(c, x.role).handler, ExitPath(x.role, x.cause))
    ensures x.Perform? ==> Step(c, x) == PerformOp(c, x.role)
  {
  }

  lemma PerformKeepsTask(co: Co.State, c: Connection, role: Role)
    requires TaskInv(co, c, TaskOf(c, role)) && TaskOf(c, role).Leaving? && TaskOf(c, role).todo != []
    ensures TaskInv(co, PerformOp(c, role), TaskOf(PerformOp(c, role), role))
  {
    var d, t := PerformOp(c, role), TaskOf(c, role);
    if t.todo[0].DrainOutbound? && c.outbound != [] {
      assert TaskOf(d, role) == t;
      GuaranteesFrame(c, d, t.todo);
    } else {
      GuaranteesTail(c, d, t.todo);
    }
  }

  lemma StepKeepsConnection(s: System, x: Action, c: nat)
    requires Inv(s) && Enabled(s, x) && c < |s.conns|
    requires !x.Coordinate? && !x.Connect? && !x.Spawn? && x.c == c
    ensures ConnectionInv(s.co, Step(s.conns[c], x))
  {
    var before, after := s.conns[c], Step(s.conns[c], x);
    StepOnlyCloses(before, x);
    hide Co.Inv, OwnedOnce, Guarantees, Step, PerformOp, ExitPath;
    StepOfTask(before, x);
    forall role ensures TaskInv(s.co, after, TaskOf(after, role)) {
      var t := TaskOf(before, role);
      assert TaskInv(s.co, before, t);
      if x.Leave? && x.role == role {
        ExitPathGuarantees(after, role, x.cause);
      } else if x.Perform? && x.role == role {
        PerformKeepsTask(s.co, before, role);
      } else if t.Leaving? {
        GuaranteesFrame(before, after, t.todo);
      }
    }
  }

  lemma CoordinateKeepsConnection(s: System, a: Co.Action, c: nat)
    requires Inv(s) && Enabled(s, Coordinate(a)) && c < |s.conns|
    ensures ConnectionInv(Co.Apply(s.co, a), s.conns[c])
  {
    forall role ensures TaskInv(Co.Apply(s.co, a), s.conns[c], TaskOf(s.conns[c], role)) {
      var t := TaskOf(s.conns[c], role);
      assert TaskInv(s.co, s.conns[c], t);
      if !t.Unspawned? && t.handler.Some? {
        assert Holds(s.conns[c], role, t.handler.value);
      }
    }
  }

  /** Spawning registers at the end of the list and touches one unspawned task. */
  lemma SpawnKeepsConnection(s: System, x: Action, c: nat)
    requires Inv(s) && Enabled(s, x) && x.Spawn? && c < |s.conns|
    ensures ConnectionInv(Apply(s, x).co, Apply(s, x).conns[c])
  {
    hide Co.Inv, OwnedOnce, Guarantees, Released;
    var s' := Apply(s, x);
    forall role ensures TaskInv(s'.co, s'.conns[c], TaskOf(s'.conns[c], role)) {
      assert TaskInv(s.co, s.conns[c], TaskOf(s.conns[c], role));
      if TaskOf(s.conns[c], role).Leaving? {
        GuaranteesFrame(s.conns[c], s'.conns[c], TaskOf(s.conns[c], role).todo);
      }
    }
  }

  lemma InvStep(s: System, x: Action)
    requires Inv(s) && Enabled(s, x)
    ensures Inv(Apply(s, x))
  {
    hide Co.Inv, Co.Apply, Co.Enabled, OwnedOnce, Guarantees, Released, Step;
    var s' := Apply(s, x);
    Refines(s, x);
    if Observed(x).Some? { Co.InvStep(s.co, Observed(x).value); }
    forall c | 0 <= c < |s'.conns| ensures ConnectionInv(s'.co, s'.conns[c]) {
      if x.Coordinate? {
        CoordinateKeepsConnection(s, x.a, c);
      } else if x.Spawn? {
        SpawnKeepsConnection(s, x, c);
      } else if !x.Connect? && x.c == c {
        StepKeepsConnection(s, x, c);
      }
    }
    OwnedOnceStep(s, x);
  }

  lemma OwnedOnceStep(s: System, x: Action)
    requires Inv(s) && Enabled(s, x)
    ensures OwnedOnce(Apply(s, x))
  {
    hide Co.Inv, Guarantees, Released, Apply, Enabled;
    var s' := Apply(s, x);
    forall c, role, i: nat | 0 <= c < |s'.conns| && Holds(s'.conns[c], role, i)
      ensures (c < |s.conns| && Holds(s.conns[c], role, i))
              || (x.Spawn? && x.c == c && x.role == role && i == |s.co.handlers|)
    {
      HeldBefore(s, x, c, role, i);
    }
    forall c, role, i: nat | 0 <= c < |s.conns| && Holds(s.conns[c], role, i) ensures i < |s.co.handlers| {
      assert TaskInv(s.co, s.conns[c], TaskOf(s.conns[c], role));
    }
  }

  /** A handler that is held was held before, or has just been registered by this task. */
  lemma HeldBefore(s: System, x: Action, c: nat, role: Role, i: nat)
    requires Enabled(s, x) && c < |Apply(s, x).conns| && Holds(Apply(s, x).conns[c], role, i)
    ensures (c < |s.conns| && Holds(s.conns[c], role, i))
            || (x.Spawn? && x.c == c && x.role == role && i == |s.co.handlers|)
  {
    hide Co.Apply, Co.Enabled, Released, ExitPath;
  }

  // ---- Whole runs ----------------------------------------------------------------------

  ghost predicate Runs(s: System, run: seq<Action>)
    decreases |run|
  {
    run == [] || (Enabled(s, run[0]) && Runs(Apply(s, run[0]), run[1..]))
  }

  function Init(): System {
    System(Co.Init(), [])
  }

  ghost predicate NoLateRegister(s: System, run: seq<Action>, zeroed: bool)
    requires Runs(s, run)
    decreases |run|
  {
    run == [] ||
    (var seen := Observed(run[0]);
     && !(zeroed && seen == Some(Co.Register))
     && NoLateRegister(Apply(s, run[0]), run[1..], zeroed || (seen.Some? && Co.HitsZero(s.co, seen.value))))
  }

  /** Every connection one of whose tasks registered is closed both ways and drained. */
  ghost predicate RegisteredAreClean(s: System) {
    forall c, role, i :: 0 <= c < |s.conns| && Holds(s.conns[c], role, i) ==> Clean(s.conns[c])
  }

  ghost predicate ReturnsOnlyWhenClean(s: System, run: seq<Action>)
    requires Runs(s, run)
    decreases |run|
  {
    run == [] ||
    (&& (!s.co.trigger.Returned? && Apply(s, run[0]).co.trigger.Returned? ==> RegisteredAreClean(Apply(s, run[0])))
     && ReturnsOnlyWhenClean(Apply(s, run[0]), run[1..]))
  }

  /** An acknowledged task has cleaned its connection, and it stays clean. */
  lemma AcknowledgedMeansClean(s: System, c: nat, role: Role, i: nat)
    requires Inv(s) && c < |s.conns| && Holds(s.conns[c], role, i)
    ensures i < |s.co.handlers|
    ensures s.co.handlers[i].done ==> TaskOf(s.conns[c], role) == Leaving(Some(i), []) && Clean(s.conns[c])
  {
    assert TaskInv(s.co, s.conns[c], TaskOf(s.conns[c], role));
  }

  lemma {:induction false} CleanBeforeReturnFrom(s: System, run: seq<Action>, zeroed: bool)
    requires Inv(s) && Co.Settled(s.co, zeroed) && Runs(s, run) && NoLateRegister(s, run, zeroed)
    ensures ReturnsOnlyWhenClean(s, run)
    decreases |run|
  {
    if run != [] {
      var s', seen := Apply(s, run[0]), Observed(run[0]);
      InvStep(s, run[0]);
      Refines(s, run[0]);
      if seen.Some? { Co.SettledStep(s.co, seen.value, zeroed); }
      if !s.co.trigger.Returned? && s'.co.trigger.Returned? {
        forall c, role, i: nat | 0 <= c < |s'.conns| && Holds(s'.conns[c], role, i) ensures Clean(s'.conns[c]) {
          AcknowledgedMeansClean(s', c, role, i);
          assert Co.HasDecremented(s'.co.handlers[i]);
        }
      }
      CleanBeforeReturnFrom(s', run[1..], zeroed || (seen.Some? && Co.HitsZero(s.co, seen.value)));
    }
  }

  /** Cleanup before acknowledgement: in every run without a late registration, at the moment
      the trigger returns every connection with a registered task has its inbound channel
      closed and its outbound channel closed and empty. */
  lemma CleanBeforeReturn(run: seq<Action>)
    requires Runs(Init(), run) && NoLateRegister(Init(), run, false)
    ensures ReturnsOnlyWhenClean(Init(), run)
  {
    CleanBeforeReturnFrom(Init(), run, false);
  }

  // ---- The composition makes progress ---------------------------------------------------

  ghost function After(s: System, run: seq<Action>): System
    requires Runs(s, run)
    decreases |run|
  {
    if run == [] then s else After(Apply(s, run[0]), run[1..])
  }

  /** Operations a task may still perform; a looping one has a whole exit path ahead. */
  function OpsLeft(t: Task): nat {
    match t
    case Unspawned => 0
    case Looping(_) => 7
    case Writing(_) => 7
    case Leaving(_, todo) => |todo|
  }

  /** Remaining operations, and a step for every frame that may have to be drained. */
  function ConnectionRank(c: Connection): nat {
    OpsLeft(c.reader) + OpsLeft(c.writer) + |c.outbound|
  }

  function ConnectionsRank(cs: seq<Connection>): nat {
    if cs == [] then 0 else ConnectionRank(cs[0]) + ConnectionsRank(cs[1..])
  }

  lemma {:induction false} ConnectionsRankUpdate(cs: seq<Connection>, i: nat, c: Connection)
    requires i < |cs|
    ensures ConnectionsRank(cs[i := c]) == ConnectionsRank(cs) - ConnectionRank(cs[i]) + ConnectionRank(c)
  {
    if i == 0 {
      assert cs[i := c][1..] == cs[1..];
    } else {
      assert cs[i := c][1..] == cs[1..][i - 1 := c];
      ConnectionsRankUpdate(cs[1..], i - 1, c);
    }
  }

  lemma {:induction false} ConnectionsRankAppend(cs: seq<Connection>, c: Connection)
    ensures ConnectionsRank(cs + [c]) == ConnectionsRank(cs) + ConnectionRank(c)
  {
    if cs == [] {
      assert [c][1..] == [];
    } else {
      assert (cs + [c])[1..] == cs[1..] + [c];
      ConnectionsRankAppend(cs[1..], c);
    }
  }

  function Rank(s: System): nat {
    Co.Rank(s.co) + ConnectionsRank(s.conns)
  }

  /** The two steps that end a write, which the peer at the other end of the socket decides on. */
  predicate EndsWrite(x: Action, c: nat) {
    x == WriteDone(c) || x == Leave(c, Writer, WriteFailed)
  }

  /** Steps of a task on its way out, of a drain, of a writer, and of the protocol. */
  predicate Progress(x: Action) {
    || (x.Leave? && !x.cause.WriteFailed?)
    || x.Perform? || x.TakeFrame? || (x.Coordinate? && Co.ProtocolStep(x.a))
  }

  /** What a step from outside can add to the work. */
  function Adds(x: Action): nat {
    match x
    case Spawn(_, _, _) => 12
    case PeerSend(_, _) => 1
    case Coordinate(a) => if a.Register? then 5 else 0
    case _ => 0
  }

  lemma StepRank(c: Connection, x: Action)
    requires !x.Coordinate? && !x.Connect? && !x.Spawn?
    requires x.Leave? ==> LeavesFrom(TaskOf(c, x.role), x.cause) && CauseFits(x.role, x.cause)
    requires x.Perform? ==> TaskOf(c, x.role).Leaving? && TaskOf(c, x.role).todo != []
    requires x.TakeFrame? ==> c.writer.Looping? && c.outbound != []
    ensures ConnectionRank(Step(c, x)) + (if Progress(x) then 1 else 0) <= ConnectionRank(c) + Adds(x)
  {
    if x.Leave? {
      assert |ExitPath(x.role, x.cause)| <= 6;
    }
  }

  lemma RankStep(s: System, x: Action)
    requires Enabled(s, x)
    ensures Rank(Apply(s, x)) + (if Progress(x) then 1 else 0) <= Rank(s) + Adds(x)
  {
    hide ConnectionsRank, Co.Rank, ConnectionRank, Step, Co.Enabled, Co.Apply;
    match x
    case Coordinate(a) =>
      Co.RankStep(s.co, a);
    case Connect =>
      ConnectIsFree(s);
    case Spawn(c, role, enabled) =>
      SpawnCosts(s.conns[c], role, if enabled then Some(|s.co.handlers|) else None);
      ConnectionsRankUpdate(s.conns, c, Apply(s, x).conns[c]);
      RegisterCosts(s.co);
    case _ =>
      StepRank(s.conns[x.c], x);
      ConnectionsRankUpdate(s.conns, x.c, Step(s.conns[x.c], x));
  }

  lemma ConnectIsFree(s: System)
    ensures ConnectionsRank(s.conns + [Connection(false, [], false, [], Unspawned, Unspawned)])
            == ConnectionsRank(s.conns)
  {
    ConnectionsRankAppend(s.conns, Connection(false, [], false, [], Unspawned, Unspawned));
  }

  lemma SpawnCosts(c: Connection, role: Role, handler: Option<nat>)
    requires TaskOf(c, role).Unspawned?
    ensures ConnectionRank(WithTask(c, role, Looping(handler))) == ConnectionRank(c) + 7
  {
  }

  lemma RegisterCosts(co: Co.State)
    ensures Co.Enabled(co, Co.Register) && Co.Rank(Co.Apply(co, Co.Register)) == Co.Rank(co) + 5
  {
    Co.RankStep(co, Co.Register);
  }

  function ProgressSteps(run: seq<Action>): nat {
    if run == [] then 0 else (if Progress(run[0]) then 1 else 0) + ProgressSteps(run[1..])
  }

  function AddedWork(run: seq<Action>): nat {
    if run == [] then 0 else Adds(run[0]) + AddedWork(run[1..])
  }

  /** No task, drain or protocol step goes on for ever: spawns, sends and registrations pay for them. */
  lemma {:induction false} RunsAreBounded(s: System, run: seq<Action>)
    requires Runs(s, run)
    ensures ProgressSteps(run) + Rank(After(s, run)) <= Rank(s) + AddedWork(run)
    decreases |run|
  {
    hide Rank, Adds, Progress, Enabled, Apply;
    if run != [] {
      RankStep(s, run[0]);
      RunsAreBounded(Apply(s, run[0]), run[1..]);
    }
  }

  /** At rest, apart from writes: no protocol step, no operation of an exit path, and no looping task
      with a handler that could leave on the fallback signal. */
  ghost predicate AtRest(s: System) {
    && (forall a :: Co.ProtocolStep(a) ==> !Enabled(s, Coordinate(a)))
    && (forall c, role :: !Enabled(s, Perform(c, role)))
    && (forall c, role :: !Enabled(s, Leave(c, role, Fallback)))
  }

  ghost predicate NonePanicked(s: System) {
    forall i :: 0 <= i < |s.co.handlers| ==> !s.co.handlers[i].phase.Panicked?
  }

  /** The writer of this connection holds handler `i` and is in the middle of a write. */
  predicate StalledWith(s: System, c: nat, i: nat) {
    c < |s.conns| && s.conns[c].writer == Writing(Some(i))
  }

  ghost predicate Stalled(s: System, i: nat) {
    exists c :: StalledWith(s, c, i)
  }

  ghost predicate NoneStalled(s: System) {
    forall c, i :: !StalledWith(s, c, i)
  }

  /** A task with a handler has nothing left to do but to acknowledge, unless it waits for the socket. */
  lemma HolderIsThrough(s: System, c: nat, role: Role, i: nat)
    requires Inv(s) && AtRest(s) && s.co.cancelled && c < |s.conns| && Holds(s.conns[c], role, i)
    ensures TaskOf(s.conns[c], role) == Leaving(Some(i), []) || (role.Writer? && StalledWith(s, c, i))
  {
    assert ConnectionInv(s.co, s.conns[c]);
    hide Inv;
    assert !Enabled(s, Perform(c, role)) && !Enabled(s, Leave(c, role, Fallback));
  }

  lemma CancelledBefore(s: System)
    requires Inv(s) && AtRest(s)
    ensures s.co.cancelled
  {
    assert !Enabled(s, Coordinate(Co.TriggerCancel));
  }

  /** A handler that nobody writes with has come to its end. */
  lemma RestingHandler(s: System, i: nat)
    requires Inv(s) && AtRest(s) && NonePanicked(s) && s.co.cancelled && i < |s.co.handlers| && !Stalled(s, i)
    ensures s.co.handlers[i].phase == Co.Finished
  {
    forall c, role | 0 <= c < |s.conns| && Holds(s.conns[c], role, i)
      ensures TaskOf(s.conns[c], role) == Leaving(Some(i), [])
    {
      HolderIsThrough(s, c, role, i);
      assert !StalledWith(s, c, i);
    }
    hide Inv;
    assert Released(s, i);
    assert !Enabled(s, Coordinate(Co.StoreDone(i))) && !Enabled(s, Coordinate(Co.Decrement(i)));
    assert !Enabled(s, Coordinate(Co.CheckSignal(i))) && !Enabled(s, Coordinate(Co.NotifyOne(i)));
    assert !Enabled(s, Coordinate(Co.DropHandler(i)));
  }

  /** A handler somebody writes with is registered, and stays so until the write ends. */
  lemma StalledIsRegistered(s: System, c: nat, i: nat)
    requires Inv(s) && StalledWith(s, c, i)
    ensures i < |s.co.handlers| && s.co.handlers[i].phase.Registered? && !Released(s, i)
  {
    assert TaskInv(s.co, s.conns[c], TaskOf(s.conns[c], Writer));
    assert Holds(s.conns[c], Writer, i);
  }

  /** The liveness of the composition, exactly: at rest with no handler panicked, a handler is finished
      if and only if no writer is in the middle of a write with it; and the trigger is back with every
      handler finished and every registered connection clean if and only if there is no such writer at
      all.  By RunsAreBounded the composition comes to rest when nothing is added from outside. */
  lemma RestsExactly(run: seq<Action>)
    requires Runs(Init(), run) && AtRest(After(Init(), run)) && NonePanicked(After(Init(), run))
    ensures var s := After(Init(), run);
            && (forall i: nat :: i < |s.co.handlers| ==> (s.co.handlers[i].phase == Co.Finished <==> !Stalled(s, i)))
            && (AllBack(s) <==> NoneStalled(s))
  {
    var s := After(Init(), run);
    InitInv();
    InvRun(Init(), run);
    hide AtRest, Inv, Runs, After, Init;
    CancelledBefore(s);
    forall i: nat | i < |s.co.handlers| ensures s.co.handlers[i].phase == Co.Finished <==> !Stalled(s, i) {
      HandlerAtRest(s, i);
    }
    if NoneStalled(s) {
      NoneStalledAllBack(s);
    } else {
      var c, i :| StalledWith(s, c, i);
      StalledIsRegistered(s, c, i);
    }
  }

  lemma HandlerAtRest(s: System, i: nat)
    requires Inv(s) && AtRest(s) && NonePanicked(s) && s.co.cancelled && i < |s.co.handlers|
    ensures s.co.handlers[i].phase == Co.Finished <==> !Stalled(s, i)
  {
    hide AtRest, Inv;
    if Stalled(s, i) {
      var c :| StalledWith(s, c, i);
      StalledIsRegistered(s, c, i);
    } else {
      RestingHandler(s, i);
    }
  }

  /** The trigger is back, every handler is finished, and every registered connection is clean. */
  ghost predicate AllBack(s: System) {
    && s.co.trigger == Co.Returned
    && (forall i :: 0 <= i < |s.co.handlers| ==> s.co.handlers[i].phase == Co.Finished)
    && RegisteredAreClean(s)
  }

  lemma NoneStalledAllBack(s: System)
    requires Inv(s) && AtRest(s) && NonePanicked(s) && s.co.cancelled && NoneStalled(s)
    ensures AllBack(s)
  {
    hide Inv, AtRest;
    CoInv(s);
    forall i | 0 <= i < |s.co.handlers| ensures s.co.handlers[i].phase == Co.Finished {
      HandlerAtRest(s, i);
    }
    TriggerAtRest(s);
    forall c, role, i: nat | 0 <= c < |s.conns| && Holds(s.conns[c], role, i) ensures Clean(s.conns[c]) {
      HolderIsThrough(s, c, role, i);
      ThroughMeansClean(s, c, role);
    }
  }

  lemma TriggerAtRest(s: System)
    requires Co.Inv(s.co) && AtRest(s) && forall i :: 0 <= i < |s.co.handlers| ==> s.co.handlers[i].phase == Co.Finished
    ensures s.co.trigger == Co.Returned
  {
    hide Co.Inv;
    forall a | Co.ProtocolStep(a) ensures !Co.Enabled(s.co, a) {
      assert !Enabled(s, Coordinate(a));
    }
    hide AtRest;
    Co.RestingTrigger(s.co);
  }

  lemma CoInv(s: System)
    requires Inv(s)
    ensures Co.Inv(s.co)
  {
  }

  lemma ThroughMeansClean(s: System, c: nat, role: Role)
    requires Inv(s) && c < |s.conns| && TaskOf(s.conns[c], role).Leaving? && TaskOf(s.conns[c], role).todo == []
    ensures Clean(s.conns[c])
  {
    assert TaskInv(s.co, s.conns[c], TaskOf(s.conns[c], role));
  }

  lemma InitInv()
    ensures Inv(Init())
  {
  }

  lemma {:induction false} InvRun(s: System, run: seq<Action>)
    requires Inv(s) && Runs(s, run)
    ensures Inv(After(s, run))
    decreases |run|
  {
    hide Inv, Enabled, Apply;
    if run != [] {
      InvStep(s, run[0]);
      InvRun(Apply(s, run[0]), run[1..]);
    }
  }

  // ---- A write that does not end --------------------------------------------------------

  predicate NeverEnds(run: seq<Action>, c: nat) {
    forall i :: 0 <= i < |run| ==> !EndsWrite(run[i], c)
  }

  /** The handler of the stalled writer stays registered, so the count stays positive. */
  lemma StalledStep(s: System, x: Action, c: nat, p: nat)
    requires Inv(s) && Enabled(s, x) && StalledWith(s, c, p) && !EndsWrite(x, c)
    requires !Co.WakeSource(s.co) && !s.co.trigger.Returned?
    ensures var t := Apply(s, x);
            Inv(t) && StalledWith(t, c, p) && !Co.WakeSource(t.co) && !t.co.trigger.Returned?
  {
    InvStep(s, x);
    StalledIsRegistered(s, c, p);
    CoInv(s);
    Refines(s, x);
    hide Inv, Co.WakeSource, Co.Inv, Co.Apply, Released;
    StillStalled(s, x, c, p);
    if Observed(x).Some? {
      RegisteredNotDecremented(s, x, p);
      Co.LiveHandlerBlocks(s.co, Observed(x).value, p);
    }
  }

  lemma RegisteredNotDecremented(s: System, x: Action, p: nat)
    requires Enabled(s, x) && p < |s.co.handlers| && s.co.handlers[p].phase.Registered?
    ensures Observed(x) != Some(Co.Decrement(p))
  {
  }

  lemma StillStalled(s: System, x: Action, c: nat, p: nat)
    requires Enabled(s, x) && StalledWith(s, c, p) && !EndsWrite(x, c)
    ensures StalledWith(Apply(s, x), c, p)
  {
    hide Co.Enabled, Co.Apply, Released;
  }

  /** A write that does not end keeps the trigger waiting in every continuation, whatever registers,
      cancels, closes or sends, once no wake source is outstanding. */
  lemma {:induction false} StalledWriteBlocks(s: System, run: seq<Action>, c: nat, p: nat)
    requires Inv(s) && Runs(s, run) && NeverEnds(run, c) && StalledWith(s, c, p)
    requires !Co.WakeSource(s.co) && !s.co.trigger.Returned?
    ensures !After(s, run).co.trigger.Returned? && StalledWith(After(s, run), c, p)
    decreases |run|
  {
    hide Inv, Enabled, Apply, Co.WakeSource, EndsWrite, StalledWith;
    if run != [] {
      StalledStep(s, run[0], c, p);
      StalledWriteBlocks(Apply(s, run[0]), run[1..], c, p);
    }
  }

  /** Steps of the coordinator that no task has to make. */
  lemma {:induction false} Lift(s: System, run: seq<Co.Action>) returns (lifted: seq<Action>)
    requires Co.Runs(s.co, run) && Co.WakesOnly(run)
    ensures Runs(s, lifted) && After(s, lifted).co == Co.After(s.co, run)
    ensures forall i :: 0 <= i < |lifted| ==> lifted[i].Coordinate?
    decreases |run|
  {
    if run == [] {
      lifted := [];
    } else {
      hide Co.Apply, Co.Enabled;
      var x := Coordinate(run[0]);
      assert Co.Wakes(run[0]) && Enabled(s, x);
      assert forall i :: 0 <= i < |run| - 1 ==> run[1..][i] == run[i + 1];
      var rest := Lift(Apply(s, x), run[1..]);
      lifted := [x] + rest;
      assert lifted[1..] == rest;
    }
  }

  /** Exactly: while the write lasts, the trigger can come back if and only if a wake source is
      outstanding, and then too early. */
  lemma StalledReturnsExactly(run: seq<Action>, c: nat, p: nat)
    requires Runs(Init(), run) && StalledWith(After(Init(), run), c, p) && !After(Init(), run).co.trigger.Returned?
    ensures var s := After(Init(), run);
            (exists rest :: Runs(s, rest) && NeverEnds(rest, c) && After(s, rest).co.trigger.Returned?)
            <==> Co.WakeSource(s.co)
  {
    var s := After(Init(), run);
    InitInv();
    InvRun(Init(), run);
    StalledIsRegistered(s, c, p);
    CoInv(s);
    hide Inv, Co.Inv, Co.WakeSource, Co.Runs, Co.After, StalledWith, Init;
    Co.LivePending(s.co, p);
    if Co.WakeSource(s.co) {
      var steps := Co.StaleWakeReturnsEarly(s.co);
      var rest := Lift(s, steps);
      assert Runs(s, rest) && NeverEnds(rest, c) && After(s, rest).co.trigger.Returned?;
    } else {
      forall rest | Runs(s, rest) && NeverEnds(rest, c) ensures !After(s, rest).co.trigger.Returned? {
        StalledWriteBlocks(s, rest, c, p);
      }
    }
  }

  /** Such a run exists: one writer takes a frame, its peer stops reading, and the trigger cancels and
      parks.  Nothing is left to do, nobody has panicked, and the trigger is not back. */
  lemma StalledWrite() returns (run: seq<Action>)
    ensures Runs(Init(), run)
    ensures var s := After(Init(), run);
            && AtRest(s) && NonePanicked(s) && StalledWith(s, 0, 0)
            && s.co.trigger.Parked? && !Co.WakeSource(s.co)
  {
    run := StalledTrigger();
    StalledRests(StalledAt(true, Co.Parked));
    run := StalledWriter(run);
  }

  /** One connection, whose registered writer is in the middle of a write. */
  function StalledAt(cancelled: bool, trigger: Co.Trigger): System {
    System(Co.State(cancelled, 1, false, [Co.Handler(false, Co.Registered)], trigger),
           [Connection(false, [], false, [], Unspawned, Writing(Some(0)))])
  }

  lemma StalledWriter(rest: seq<Action>) returns (run: seq<Action>)
    requires Runs(StalledAt(false, Co.Idle), rest)
    ensures Runs(Init(), run) && After(Init(), run) == After(StalledAt(false, Co.Idle), rest)
  {
    var s1 := System(Co.Init(), [Connection(false, [], false, [], Unspawned, Unspawned)]);
    var s2 := System(Co.State(false, 1, false, [Co.Handler(false, Co.Registered)], Co.Idle),
                     [Connection(false, [], false, [], Unspawned, Looping(Some(0)))]);
    var s3 := s2.(conns := [Connection(false, [], false, [7], Unspawned, Looping(Some(0)))]);
    assert Apply(Init(), Connect) == s1;
    assert Apply(s1, Spawn(0, Writer, true)) == s2;
    var none: seq<Frame> := [];
    assert none + [7] == [7] && [7][1..] == none;
    assert Apply(s2, PeerSend(0, 7)).conns == s3.conns;
    assert Apply(s2, PeerSend(0, 7)) == s3;
    assert Apply(s3, TakeFrame(0)).conns == StalledAt(false, Co.Idle).conns;
    assert Apply(s3, TakeFrame(0)) == StalledAt(false, Co.Idle);
    hide Runs, After, Apply, Enabled;
    run := Prepend(s3, TakeFrame(0), rest);
    run := Prepend(s2, PeerSend(0, 7), run);
    run := Prepend(s1, Spawn(0, Writer, true), run);
    run := Prepend(Init(), Connect, run);
  }

  lemma StalledTrigger() returns (run: seq<Action>)
    ensures Runs(StalledAt(false, Co.Idle), run) && After(StalledAt(false, Co.Idle), run) == StalledAt(true, Co.Parked)
  {
    assert Apply(StalledAt(false, Co.Idle), Coordinate(Co.TriggerCancel)) == StalledAt(true, Co.Loading);
    assert Apply(StalledAt(true, Co.Loading), Coordinate(Co.TriggerLoad)) == StalledAt(true, Co.Waiting);
    assert Apply(StalledAt(true, Co.Waiting), Coordinate(Co.TriggerPoll)) == StalledAt(true, Co.Parked);
    assert After(StalledAt(true, Co.Parked), []) == StalledAt(true, Co.Parked);
    hide Runs, After, Apply, Enabled;
    run := Prepend(StalledAt(true, Co.Waiting), Coordinate(Co.TriggerPoll), []);
    run := Prepend(StalledAt(true, Co.Loading), Coordinate(Co.TriggerLoad), run);
    run := Prepend(StalledAt(false, Co.Idle), Coordinate(Co.TriggerCancel), run);
  }

  lemma Prepend(s: System, x: Action, rest: seq<Action>) returns (run: seq<Action>)
    requires Enabled(s, x) && Runs(Apply(s, x), rest)
    ensures run == [x] + rest && Runs(s, run) && After(s, run) == After(Apply(s, x), rest)
  {
    hide Enabled, Apply;
    run := [x] + rest;
    assert run[1..] == rest;
  }

  lemma StalledRests(s: System)
    requires s == StalledAt(true, Co.Parked)
    ensures AtRest(s) && NonePanicked(s) && StalledWith(s, 0, 0) && !Co.WakeSource(s.co)
  {
    assert Holds(s.conns[0], Writer, 0);
    assert !Released(s, 0);
  }

  // ---- How long one exit path takes -------------------------------------------------------

  function PathRank(c: Connection, role: Role): nat
    requires TaskOf(c, role).Leaving?
  {
    |TaskOf(c, role).todo| + |c.outbound|
  }

  function Performed(run: seq<Action>, c: nat, role: Role): nat {
    if run == [] then 0
    else (if run[0].Perform? && run[0].c == c && run[0].role == role then 1 else 0) + Performed(run[1..], c, role)
  }

  function Sends(run: seq<Action>, c: nat): nat {
    if run == [] then 0 else (if run[0].PeerSend? && run[0].c == c then 1 else 0) + Sends(run[1..], c)
  }

  lemma PathStepAt(c: Connection, x: Action, role: Role)
    requires TaskOf(c, role).Leaving? && (x.PeerSend? ==> !c.outClosed)
    requires x.Perform? ==> TaskOf(c, x.role).Leaving? && TaskOf(c, x.role).todo != []
    requires x.Leave? ==> LeavesFrom(TaskOf(c, x.role), x.cause)
    ensures TaskOf(Step(c, x), role).Leaving?
    ensures PathRank(Step(c, x), role) + (if x.Perform? && x.role == role then 1 else 0)
            <= PathRank(c, role) + if x.PeerSend? then 1 else 0
    ensures c.outClosed ==> Step(c, x).outClosed
  {
  }

  lemma PathStep(s: System, x: Action, c: nat, role: Role)
    requires Enabled(s, x) && c < |s.conns| && TaskOf(s.conns[c], role).Leaving?
    ensures c < |Apply(s, x).conns| && TaskOf(Apply(s, x).conns[c], role).Leaving?
    ensures PathRank(Apply(s, x).conns[c], role) + (if x.Perform? && x.c == c && x.role == role then 1 else 0)
            <= PathRank(s.conns[c], role) + if x.PeerSend? && x.c == c then 1 else 0
    ensures s.conns[c].outClosed ==> Apply(s, x).conns[c].outClosed && !(x.PeerSend? && x.c == c)
  {
    hide Co.Enabled, Co.Apply, Step, Released;
    if !x.Coordinate? && !x.Connect? && !x.Spawn? && x.c == c {
      PathStepAt(s.conns[c], x, role);
    }
  }

  /** Whatever everybody else does, an exit path takes at most as many steps as it has operations and
      frames are queued, and a frame sent meanwhile adds one; once the outbound channel is closed,
      none is sent any more. */
  lemma {:induction false} ExitPathIsBounded(s: System, run: seq<Action>, c: nat, role: Role)
    requires Runs(s, run) && c < |s.conns| && TaskOf(s.conns[c], role).Leaving?
    ensures Performed(run, c, role) <= PathRank(s.conns[c], role) + Sends(run, c)
    ensures s.conns[c].outClosed ==> Sends(run, c) == 0
    decreases |run|
  {
    hide Enabled, Apply, PathRank;
    if run != [] {
      PathStep(s, run[0], c, role);
      ExitPathIsBounded(Apply(s, run[0]), run[1..], c, role);
    }
  }
}
