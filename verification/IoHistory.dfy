/**
 What a run of the composed system does to frames: the channels keep their order, nothing is lost or
 made up between a send and the receive, the write or the drain, and every way out of a task is taken.
 */
module IoHistory {
  import Co = Coordinator
  import opened IoTasks
  import opened Prelude

  /** The channel of a connection, in or out; a connection that is not there yet has empty ones. */
  function Queue(s: System, c: nat, inbound: bool): seq<Frame> {
    if c >= |s.conns| then [] else if inbound then s.conns[c].inbound else s.conns[c].outbound
  }

  /** What an action sends into the channel. */
  function Put(x: Action, c: nat, inbound: bool): seq<Frame> {
    match x
    case Forward(d, frame) => if inbound && d == c then [frame] else []
    case PeerSend(d, frame) => if !inbound && d == c then [frame] else []
    case _ => []
  }

  predicate Drains(s: System, x: Action, c: nat) {
    x.Perform? && x.c == c && c < |s.conns| && AtDrain(s.conns[c], x.role)
  }

  /** The next operation of this task is to drain the outbound channel. */
  predicate AtDrain(d: Connection, role: Role) {
    TaskOf(d, role).Leaving? && TaskOf(d, role).todo != [] && TaskOf(d, role).todo[0] == DrainOutbound
  }

  /** Does the action take a frame out of the channel?  A peer receives, a writer takes, a drain discards. */
  predicate Takes(s: System, x: Action, c: nat, inbound: bool) {
    && Queue(s, c, inbound) != []
    && if inbound then x == PeerReceive(c) else x == TakeFrame(c) || Drains(s, x, c)
  }

  function Took(s: System, x: Action, c: nat, inbound: bool): seq<Frame> {
    if Takes(s, x, c, inbound) then [Queue(s, c, inbound)[0]] else []
  }

  /** The frames sent by the actions of a run, in order. */
  function Sent(run: seq<Action>, c: nat, inbound: bool): seq<Frame> {
    if run == [] then [] else Put(run[0], c, inbound) + Sent(run[1..], c, inbound)
  }

  /** The frames taken out in the course of a run, in order. */
  ghost function Taken(s: System, run: seq<Action>, c: nat, inbound: bool): seq<Frame>
    requires Runs(s, run)
    decreases |run|
  {
    if run == [] then []
    else Took(s, run[0], c, inbound) + Taken(Apply(s, run[0]), run[1..], c, inbound)
  }

  lemma QueueOfStep(d: Connection, x: Action)
    ensures Step(d, x).inbound ==
            if x.Forward? then d.inbound + [x.frame]
            else if x.PeerReceive? && d.inbound != [] then d.inbound[1..] else d.inbound
    ensures Step(d, x).outbound ==
            if x.PeerSend? then d.outbound + [x.frame]
            else if d.outbound != [] && ((x.TakeFrame? && d.writer.Looping?) || (x.Perform? && AtDrain(d, x.role)))
            then d.outbound[1..] else d.outbound
  {
    hide ExitPath;
  }

  /** What an action makes of the queues of one connection. */
  lemma QueueAfter(s: System, x: Action, c: nat, inbound: bool)
    requires Enabled(s, x)
    ensures if x.Coordinate? || x.Connect? || x.Spawn? || x.c != c
            then Queue(Apply(s, x), c, inbound) == Queue(s, c, inbound)
            else c < |s.conns| && c < |Apply(s, x).conns| && Apply(s, x).conns[c] == Step(s.conns[c], x)
  {
    hide Co.Enabled, Co.Apply, Released, ExitPath, Step;
  }

  lemma QueueStep(s: System, x: Action, c: nat, inbound: bool)
    requires Enabled(s, x)
    ensures Queue(s, c, inbound) + Put(x, c, inbound) == Took(s, x, c, inbound) + Queue(Apply(s, x), c, inbound)
  {
    QueueAfter(s, x, c, inbound);
    if c < |s.conns| {
      QueueOfStep(s.conns[c], x);
    }
    TakesMeansTaken(s, x, c, inbound);
    hide Enabled, Apply, Step, Takes;
  }

  /** Only actions on the connection itself take frames, and none that sends. */
  lemma TakesMeansTaken(s: System, x: Action, c: nat, inbound: bool)
    requires Enabled(s, x)
    ensures Takes(s, x, c, inbound) <==>
              && !x.Coordinate? && !x.Connect? && !x.Spawn? && x.c == c && c < |s.conns|
              && Queue(s, c, inbound) != []
              && if inbound then x.PeerReceive?
                 else (x.TakeFrame? && s.conns[c].writer.Looping?) || (x.Perform? && AtDrain(s.conns[c], x.role))
  {
    hide Co.Enabled, Released;
  }

  lemma {:induction false} FifoFrom(s: System, run: seq<Action>, c: nat, inbound: bool)
    requires Runs(s, run)
    ensures Queue(s, c, inbound) + Sent(run, c, inbound) == Taken(s, run, c, inbound) + Queue(After(s, run), c, inbound)
    decreases |run|
  {
    hide Enabled, Apply, Put, Took;
    if run != [] {
      var x, t := run[0], Apply(s, run[0]);
      QueueStep(s, x, c, inbound);
      FifoFrom(t, run[1..], c, inbound);
      Exchange(Queue(s, c, inbound), Put(x, c, inbound), Sent(run[1..], c, inbound),
               Took(s, x, c, inbound), Queue(t, c, inbound),
               Taken(t, run[1..], c, inbound), Queue(After(t, run[1..]), c, inbound));
    }
  }

  lemma Exchange(queue: seq<Frame>, put: seq<Frame>, sent: seq<Frame>, took: seq<Frame>, next: seq<Frame>,
                 taken: seq<Frame>, end: seq<Frame>)
    requires queue + put == took + next && next + sent == taken + end
    ensures queue + (put + sent) == (took + taken) + end
  {
    assert queue + (put + sent) == (queue + put) + sent;
    assert (took + next) + sent == took + (next + sent);
    assert took + (taken + end) == (took + taken) + end;
  }

  /** In every run and for both channels of every connection: what was taken out, and then what is still
      queued, is exactly what was sent, in order. */
  lemma ChannelsAreFifo(run: seq<Action>, c: nat, inbound: bool)
    requires Runs(Init(), run)
    ensures Sent(run, c, inbound) == Taken(Init(), run, c, inbound) + Queue(After(Init(), run), c, inbound)
  {
    FifoFrom(Init(), run, c, inbound);
    assert [] + Sent(run, c, inbound) == Sent(run, c, inbound);
  }

  predicate Closed(s: System, c: nat, inbound: bool) {
    c < |s.conns| && if inbound then s.conns[c].inClosed else s.conns[c].outClosed
  }

  lemma ClosedStep(s: System, x: Action, c: nat, inbound: bool)
    requires Enabled(s, x) && Closed(s, c, inbound)
    ensures Put(x, c, inbound) == [] && Closed(Apply(s, x), c, inbound)
  {
    hide Co.Enabled, Co.Apply, Released, ExitPath;
  }

  /** Once a channel is closed, no continuation sends into it. */
  lemma {:induction false} NothingAfterClose(s: System, run: seq<Action>, c: nat, inbound: bool)
    requires Runs(s, run) && Closed(s, c, inbound)
    ensures Sent(run, c, inbound) == [] && Closed(After(s, run), c, inbound)
    decreases |run|
  {
    hide Enabled, Apply, Put, Closed;
    if run != [] {
      ClosedStep(s, run[0], c, inbound);
      NothingAfterClose(Apply(s, run[0]), run[1..], c, inbound);
    }
  }

  /** A peer closes the channel, or a task that is on its way out comes to that operation. */
  predicate Closes(s: System, x: Action, c: nat, inbound: bool) {
    && c < |s.conns|
    && (x == PeerClose(c, inbound)
        || (&& x.Perform? && x.c == c && TaskOf(s.conns[c], x.role).Leaving? && TaskOf(s.conns[c], x.role).todo != []
            && TaskOf(s.conns[c], x.role).todo[0] == if inbound then CloseInbound else CloseOutbound))
  }

  ghost predicate CloseHappens(s: System, run: seq<Action>, c: nat, inbound: bool)
    requires Runs(s, run)
    decreases |run|
  {
    run != [] && (Closes(s, run[0], c, inbound) || CloseHappens(Apply(s, run[0]), run[1..], c, inbound))
  }

  lemma CloseStep(s: System, x: Action, c: nat, inbound: bool)
    requires Enabled(s, x)
    ensures Closed(Apply(s, x), c, inbound) <==> Closed(s, c, inbound) || Closes(s, x, c, inbound)
  {
    hide Co.Enabled, Co.Apply, Released, ExitPath;
  }

  /** A channel is closed exactly if somebody closed that very channel. */
  lemma {:induction false} ClosedExactly(s: System, run: seq<Action>, c: nat, inbound: bool)
    requires Runs(s, run)
    ensures Closed(After(s, run), c, inbound) <==> Closed(s, c, inbound) || CloseHappens(s, run, c, inbound)
    decreases |run|
  {
    hide Enabled, Apply, Closed, Closes;
    if run != [] {
      CloseStep(s, run[0], c, inbound);
      ClosedExactly(Apply(s, run[0]), run[1..], c, inbound);
    }
  }

  ghost predicate TokenCancelled(run: seq<Action>) {
    exists k :: 0 <= k < |run| && (run[k] == Coordinate(Co.CancelToken) || run[k] == Coordinate(Co.TriggerCancel))
  }

  lemma {:induction false} CancelledBySomebody(run: seq<Action>)
    requires Runs(Init(), run)
    ensures After(Init(), run).co.cancelled <==> TokenCancelled(run)
  {
    if run != [] {
      var before, x := run[..|run| - 1], run[|run| - 1];
      assert run == before + [x];
      RunSnoc(Init(), before, x);
      CancelledBySomebody(before);
      assert forall k :: 0 <= k < |before| ==> run[k] == before[k];
      Refines(After(Init(), before), x);
      hide Runs, After, Apply, Enabled;
    }
  }

  /** Why a task may leave: for a fallback only if it registered and somebody cancelled the token, for a closed
      outbound channel only once all that was ever sent has been taken out, for a failed forward only once the
      inbound channel is closed, and for a failed write only in the middle of one. */
  lemma LeavesForAReason(run: seq<Action>, c: nat, role: Role, cause: Cause)
    requires Runs(Init(), run + [Leave(c, role, cause)])
    ensures Runs(Init(), run) && c < |After(Init(), run).conns|
    ensures var s := After(Init(), run);
            && !TaskOf(s.conns[c], role).Unspawned?
            && (cause.Fallback? ==> TokenCancelled(run) && TaskOf(s.conns[c], role).handler.Some?)
            && (cause.OutboundClosed? ==>
                  Closed(s, c, false) && Sent(run, c, false) == Taken(Init(), run, c, false))
            && (cause.ForwardFailed? ==> Closed(s, c, true))
            && (cause.WriteFailed? <==> TaskOf(s.conns[c], role).Writing?)
  {
    RunSnoc(Init(), run, Leave(c, role, cause));
    CancelledBySomebody(run);
    ChannelsAreFifo(run, c, false);
    hide Sent, Taken, Co.Enabled, Released;
    assert Taken(Init(), run, c, false) + [] == Taken(Init(), run, c, false);
  }

  // ---- The ways out --------------------------------------------------------------------------

  /** Every drain comes directly after the close of its channel, and every such close before a drain. */
  predicate DrainsDirectly(path: seq<Op>) {
    forall k :: 0 <= k < |path| ==>
      && (path[k] == DrainOutbound ==> k > 0 && path[k - 1] == CloseOutbound)
      && (path[k] == CloseOutbound ==> k + 1 < |path| && path[k + 1] == DrainOutbound)
  }

  /** From its first operation to the last two, drains in their place. */
  predicate Ordered(path: seq<Op>, first: Op, beforeLast: Op) {
    && |path| >= 4 && path[0] == first && path[|path| - 2] == beforeLast && path[|path| - 1] == Acknowledge
    && DrainsDirectly(path)
  }

  lemma ShortPath()
    ensures Ordered([CloseInbound, CloseOutbound, DrainOutbound, Acknowledge], CloseInbound, DrainOutbound)
  {
  }

  lemma ReaderPath()
    ensures Ordered([CloseInbound, CloseInbound, CloseOutbound, DrainOutbound, Acknowledge],
                    CloseInbound, DrainOutbound)
  {
  }

  lemma WriterPath()
    ensures Ordered([CloseInbound, CloseOutbound, DrainOutbound, CloseInbound, Acknowledge],
                    CloseInbound, CloseInbound)
  {
  }

  lemma FailedWriterPath()
    ensures Ordered([CloseOutbound, DrainOutbound, CloseOutbound, DrainOutbound, CloseInbound, Acknowledge],
                    CloseOutbound, CloseInbound)
  {
  }

  /** The order of an exit path.  Every drain comes directly after the close of its channel, and every close of
      the outbound channel is followed by a drain; a reader and a cancelled writer refuse inbound frames
      before anything else, and a writer whose socket or queue failed drains first and refuses last. */
  lemma ExitOrder(role: Role, cause: Cause)
    requires CauseFits(role, cause)
    ensures Ordered(ExitPath(role, cause),
                    if cause.WriteFailed? || cause.OutboundClosed? then CloseOutbound else CloseInbound,
                    if role.Reader? then DrainOutbound else CloseInbound)
  {
    hide Ordered, ExitPath;
    PathIs(role, cause);
    ShortPath();
    ReaderPath();
    WriterPath();
    FailedWriterPath();
  }

  lemma PathIs(role: Role, cause: Cause)
    requires CauseFits(role, cause)
    ensures ExitPath(role, cause) ==
            match role
            case Reader =>
              if cause.HandshakeFrame? then [CloseInbound, CloseOutbound, DrainOutbound, Acknowledge]
              else [CloseInbound, CloseInbound, CloseOutbound, DrainOutbound, Acknowledge]
            case Writer =>
              if cause.WriteFailed? || cause.OutboundClosed?
              then [CloseOutbound, DrainOutbound, CloseOutbound, DrainOutbound, CloseInbound, Acknowledge]
              else [CloseInbound, CloseOutbound, DrainOutbound, CloseInbound, Acknowledge]
  {
  }

  /** The causes that the select loops of the two tasks have. */
  predicate HasBranch(role: Role, cause: Cause) {
    match cause
    case Shutdown => true
    case Fallback => true
    case HandshakeFrame => role == Reader
    case ForwardFailed => role == Reader
    case ReadFailed => role == Reader
    case WriteFailed => role == Writer
    case OutboundClosed => role == Writer
  }

  lemma RunSnoc(s: System, run: seq<Action>, x: Action)
    ensures Runs(s, run + [x]) <==> Runs(s, run) && Enabled(After(s, run), x)
    ensures Runs(s, run + [x]) ==> After(s, run + [x]) == Apply(After(s, run), x)
    decreases |run|
  {
    hide Enabled, Apply;
    var more := run + [x];
    if run == [] {
      assert more[1..] == [];
    } else if Enabled(s, run[0]) {
      assert more[1..] == run[1..] + [x];
      RunSnoc(Apply(s, run[0]), run[1..], x);
    }
  }

  /** A task of the only connection, in its loop and with a handler. */
  ghost predicate InLoop(s: System, role: Role) {
    |s.conns| == 1 && TaskOf(s.conns[0], role) == Looping(Some(0))
  }

  lemma Started(role: Role) returns (run: seq<Action>)
    ensures Runs(Init(), run) && InLoop(After(Init(), run), role)
    ensures !After(Init(), run).conns[0].inClosed && !After(Init(), run).conns[0].outClosed
    ensures After(Init(), run).conns[0].outbound == []
  {
    assert After(Init(), []) == Init();
    assert [] + [Connect] == [Connect] && [Connect] + [Spawn(0, role, true)] == [Connect, Spawn(0, role, true)];
    RunSnoc(Init(), [], Connect);
    RunSnoc(Init(), [Connect], Spawn(0, role, true));
    run := [Connect, Spawn(0, role, true)];
  }

  /** What has to happen before a task can leave for this cause. */
  lemma Prepared(role: Role, cause: Cause) returns (run: seq<Action>)
    requires HasBranch(role, cause)
    ensures Runs(Init(), run) && Enabled(After(Init(), run), Leave(0, role, cause))
    ensures |After(Init(), run).conns| == 1 && TaskOf(After(Init(), run).conns[0], role).handler == Some(0)
  {
    run := Started(role);
    var s := After(Init(), run);
    var x :=
      match cause
      case Fallback => Coordinate(Co.CancelToken)
      case ForwardFailed => PeerClose(0, true)
      case OutboundClosed => PeerClose(0, false)
      case WriteFailed => PeerSend(0, 7)
      case _ => PeerReceive(0);
    if !cause.Shutdown? && !cause.HandshakeFrame? && !cause.ReadFailed? {
      RunSnoc(Init(), run, x);
      run := run + [x];
      if cause.WriteFailed? {
        RunSnoc(Init(), run, TakeFrame(0));
        run := run + [TakeFrame(0)];
      }
    }
  }

  /** Each of them happens: for every branch there is a run in which a registered task takes it and has the
      whole exit path of that branch before it. */
  lemma EveryBranchHappens(role: Role, cause: Cause) returns (run: seq<Action>)
    requires HasBranch(role, cause)
    ensures Runs(Init(), run) && |After(Init(), run).conns| == 1
    ensures TaskOf(After(Init(), run).conns[0], role) == Leaving(Some(0), ExitPath(role, cause))
  {
    run := Prepared(role, cause);
    RunSnoc(Init(), run, Leave(0, role, cause));
    hide ExitPath, CauseFits;
    run := run + [Leave(0, role, cause)];
  }

  /** A frame that is written: from the loop, a writer with a frame queued takes it and, once the socket is done
      with it, is back in the loop with the same handler and the rest of the queue. */
  lemma WriterLoops(s: System, c: nat)
    requires c < |s.conns| && s.conns[c].writer.Looping? && s.conns[c].outbound != []
    ensures Runs(s, [TakeFrame(c), WriteDone(c)])
    ensures After(s, [TakeFrame(c), WriteDone(c)])
            == s.(conns := s.conns[c := s.conns[c].(outbound := s.conns[c].outbound[1..])])
  {
    hide Co.Enabled, Co.Apply, ExitPath;
    RunSnoc(s, [], TakeFrame(c));
    RunSnoc(s, [TakeFrame(c)], WriteDone(c));
    assert [] + [TakeFrame(c)] == [TakeFrame(c)];
    assert [TakeFrame(c)] + [WriteDone(c)] == [TakeFrame(c), WriteDone(c)];
    var t := Apply(s, TakeFrame(c));
    assert Apply(t, WriteDone(c)).conns == s.conns[c := s.conns[c].(outbound := s.conns[c].outbound[1..])];
  }

  /** A frame that is read: a reader in its loop forwards it into an open channel, whose receiver gets it. */
  lemma ReaderForwards(s: System, c: nat, frame: Frame)
    requires c < |s.conns| && s.conns[c].reader.Looping? && !s.conns[c].inClosed && s.conns[c].inbound == []
    ensures Runs(s, [Forward(c, frame), PeerReceive(c)])
    ensures Taken(s, [Forward(c, frame), PeerReceive(c)], c, true) == [frame]
    ensures After(s, [Forward(c, frame), PeerReceive(c)]) == s
  {
    hide Co.Enabled, Co.Apply, ExitPath, Taken, Sent;
    RunSnoc(s, [], Forward(c, frame));
    RunSnoc(s, [Forward(c, frame)], PeerReceive(c));
    assert [] + [Forward(c, frame)] == [Forward(c, frame)];
    assert [Forward(c, frame)] + [PeerReceive(c)] == [Forward(c, frame), PeerReceive(c)];
    ForwardedAndBack(s, c, frame);
    FifoFrom(s, [Forward(c, frame), PeerReceive(c)], c, true);
    BothSent(c, frame);
  }

  lemma ForwardedAndBack(s: System, c: nat, frame: Frame)
    requires c < |s.conns| && s.conns[c].reader.Looping? && !s.conns[c].inClosed && s.conns[c].inbound == []
    ensures Enabled(s, Forward(c, frame)) && Enabled(Apply(s, Forward(c, frame)), PeerReceive(c))
    ensures Apply(Apply(s, Forward(c, frame)), PeerReceive(c)) == s
  {
    hide Co.Enabled, Co.Apply, ExitPath;
    var t := Apply(s, Forward(c, frame));
    assert t.conns[c].inbound == [frame] && Apply(t, PeerReceive(c)).conns[c] == s.conns[c];
    assert Apply(t, PeerReceive(c)).conns == s.conns;
  }

  lemma BothSent(c: nat, frame: Frame)
    ensures Sent([Forward(c, frame), PeerReceive(c)], c, true) == [frame]
  {
    var run := [Forward(c, frame), PeerReceive(c)];
    assert run[1..] == [PeerReceive(c)] && run[1..][1..] == [];
    assert Sent(run[1..], c, true) == Put(PeerReceive(c), c, true) + Sent(run[1..][1..], c, true);
    assert Sent(run, c, true) == Put(run[0], c, true) + Sent(run[1..], c, true);
  }
}
