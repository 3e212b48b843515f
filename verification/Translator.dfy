/** The translator's upstream initializer and the fallback loop around it. */
module Translator {
  import opened Failover

  /** What the world answers to one connection attempt; after a connection the payout mode and the
      SV1 server may still fail to start. */
  datatype Answer = Refused | Accepted(starts: bool)

  /** What the main select loop sees next. */
  datatype MainEvent = Shutdown | CtrlC | FallbackSignal(monitoringStarts: bool)

  /** Between the two tables the world answered as the outcome says: every attempt but the last
      was refused. */
  ghost predicate AnsweredBy(world: nat -> Answer, t: Table, t': Table, r: Outcome) {
    && t.clock <= t'.clock
    && (forall c :: t.clock <= c < t'.clock - 1 ==> world(c).Refused?)
    && (t.clock < t'.clock ==>
          match r
          case Connected(_) => world(t'.clock - 1) == Accepted(true)
          case StartFailed(_) => world(t'.clock - 1) == Accepted(false)
          case Cancelled => false
          case Exhausted => world(t'.clock - 1).Refused?)
    && (t.clock == t'.clock ==> r.Exhausted?)
  }

  class TranslatorSv2 {
    const triedOrFlagged: array<bool>
    const world: nat -> Answer
    var clock: nat
    ghost var tries: seq<nat>

    ghost function Abstract(): Table
      reads this, triedOrFlagged
    {
      Table(triedOrFlagged[..], tries, clock)
    }

    constructor (upstreams: nat, world: nat -> Answer)
      ensures Abstract() == Fresh(upstreams) && fresh(triedOrFlagged)
      ensures this.world == world
    {
      triedOrFlagged := new bool[upstreams](_ => false);
      this.world := world;
      clock := 0;
      tries := seq(upstreams, _ => 0);
      new;
      assert triedOrFlagged[..] == seq(upstreams, _ => false);
    }

    /** One connection attempt on entry `i`. */
    method TryInitialize(i: nat) returns (a: Answer)
      requires WellFormed(Abstract()) && i < triedOrFlagged.Length
      modifies this
      ensures Abstract() == Attempted(old(Abstract()), i) && a == world(old(clock))
    {
      a := world(clock);
      clock := clock + 1;
      tries := tries[i := tries[i] + 1];
    }

    /** Up to MAX_RETRIES attempts on an unflagged entry. */
    method TryEntry(i: nat) returns (last: Answer)
      requires WellFormed(Abstract()) && i < triedOrFlagged.Length && !triedOrFlagged[i]
      modifies this
      ensures 1 <= clock - old(clock) <= MAX_RETRIES && Tried(old(Abstract()), Abstract(), i, clock - old(clock))
      ensures last == world(clock - 1) && forall c :: old(clock) <= c < clock - 1 ==> world(c).Refused?
      ensures last.Refused? ==> clock == old(clock) + 3
    {
      last := Refused;
      for attempt := 1 to MAX_RETRIES + 1
        invariant clock == old(clock) + attempt - 1
        invariant Tried(old(Abstract()), Abstract(), i, attempt - 1)
        invariant forall c :: old(clock) <= c < clock ==> world(c).Refused?
        invariant last.Refused? && (attempt > 1 ==> last == world(clock - 1))
      {
        last := TryInitialize(i);
        if last.Accepted? {
          return;
        }
      }
    }

    /** Flagged entries are skipped, an entry is flagged on success or when its retries are used
        up, and the first success ends the call. */
    method InitializeUpstream() returns (r: Outcome)
      requires WellFormed(Abstract())
      modifies this, triedOrFlagged
      ensures Advances(old(Abstract()), Abstract(), r)
      ensures AnsweredBy(world, old(Abstract()), Abstract(), r)
    {
      hide Grows, UsedUpBefore, UntouchedFrom, Scanned, Advances;
      ghost var t := Abstract();
      ScanStarts(t);
      for i := 0 to triedOrFlagged.Length
        invariant Scanned(t, Abstract(), i) && WellFormed(Abstract()) && t.clock <= clock
        invariant forall c :: t.clock <= c < clock ==> world(c).Refused?
      {
        ghost var s := Abstract();
        if triedOrFlagged[i] {
          EntrySkipped(t, s, i);
          continue;
        }
        var last := TryEntry(i);
        ghost var s' := Abstract();
        EntryConnected(t, s, s', i, clock - s.clock);
        if last == Accepted(true) {
          triedOrFlagged[i] := true;
          assert Abstract() == Flag(s', i);
          return Connected(i);
        } else if last == Accepted(false) {
          return StartFailed(i);
        }
        EntryUsedUp(t, s, s', i);
        triedOrFlagged[i] := true;
        assert Abstract() == Flag(s', i);
      }
      ScanEnds(t, Abstract());
      r := Exhausted;
    }

    /** The main loop.  It ends after at most one fallback per upstream, whatever happens: each
        one uses up an unflagged entry or ends the process. */
    method Start(events: nat -> MainEvent) returns (fallbacks: nat, ghost ts: seq<Table>, ghost rs: seq<Outcome>)
      requires WellFormed(Abstract())
      modifies this, triedOrFlagged
      ensures Calls(ts, rs) && |ts| == |rs| + 1 && |rs| == fallbacks + 1
      ensures ts[0] == old(Abstract()) && ts[|rs|] == Abstract()
      ensures Unflagged(Abstract().flagged) <= Unflagged(ts[0].flagged)
      ensures fallbacks <= Unflagged(ts[0].flagged) <= triedOrFlagged.Length
      // every event before the last was a fallback that went through, and the loop ends for a reason
      ensures forall e :: 0 <= e < fallbacks ==> events(e).FallbackSignal? && rs[e].Connected?
      ensures forall e :: 0 <= e < fallbacks - 1 ==> events(e).monitoringStarts
      ensures rs[fallbacks].Connected? ==>
                !events(fallbacks).FallbackSignal? || (fallbacks > 0 && !events(fallbacks - 1).monitoringStarts)
    {
      hide Advances, AnsweredBy, Calls, Unflagged;
      fallbacks := 0;
      ts, rs := [Abstract()], [];
      CallsStart(Abstract());
      var r := InitializeUpstream();
      LaterCall(ts, rs, ts[0], Abstract(), r);
      ConnectedConsumes(ts[0], Abstract(), r);
      UnflaggedShrinks(ts[0].flagged, ts[0].flagged);
      ts, rs := ts + [Abstract()], rs + [r];
      if !r.Connected? {
        return;
      }
      while true
        invariant Calls(ts, rs) && |ts| == |rs| + 1 && |rs| == fallbacks + 1
        invariant ts[0] == old(Abstract()) && ts[|rs|] == Abstract() && WellFormed(Abstract())
        invariant rs[fallbacks].Connected?
        invariant forall e :: 0 <= e < fallbacks ==>
                    events(e).FallbackSignal? && rs[e].Connected? && events(e).monitoringStarts
        invariant fallbacks + 1 + Unflagged(Abstract().flagged) <= Unflagged(ts[0].flagged)
        decreases Unflagged(Abstract().flagged)
      {
        match events(fallbacks)
        case Shutdown =>
          return;
        case CtrlC =>
          return;
        case FallbackSignal(monitoringStarts) =>
          ghost var before := Abstract();
          fallbacks := fallbacks + 1;
          r := InitializeUpstream();
          LaterCall(ts, rs, before, Abstract(), r);
          ConnectedConsumes(before, Abstract(), r);
          ts, rs := ts + [Abstract()], rs + [r];
          if !r.Connected? || !monitoringStarts {
            return;
          }
      }
    }
  }
}
