/** The job declarator client's pool and JDS initializer and the fallback loop around it. */
module JdClient {
  import opened Failover

  /** What the main select loop sees next, with the two steps of a fallback that may fail. */
  datatype MainEvent =
    | CtrlC
    | FallbackSignal(channelManagerStarts: bool, monitoringStarts: bool)

  /** The attempts between the two counts: exactly the last one on the connected entry succeeded. */
  ghost predicate AnsweredBy(world: (nat, nat) -> bool, before: seq<nat>, after: seq<nat>, r: Outcome)
    requires |before| == |after|
  {
    forall k: nat, a: nat :: k < |before| && before[k] <= a < after[k] ==>
      (world(k, a) <==> r == Connected(k) && a == after[k] - 1)
  }

  /** What the attempts on one entry add to what is known about the others. */
  lemma AnsweredMore(world: (nat, nat) -> bool, before: seq<nat>, now: seq<nat>, after: seq<nat>, i: nat, r: Outcome)
    requires |before| == |now| == |after| && i < |now| && before[i] == now[i] && after == now[i := after[i]]
    requires r.Connected? ==> r == Connected(i)
    requires AnsweredBy(world, before, now, Exhausted)
    requires forall a: nat :: now[i] <= a < after[i] ==> (world(i, a) <==> r == Connected(i) && a == after[i] - 1)
    ensures AnsweredBy(world, before, after, r)
  {
  }

  lemma NothingAnswered(world: (nat, nat) -> bool, tries: seq<nat>, r: Outcome)
    ensures AnsweredBy(world, tries, tries, r)
  {
  }

  lemma NoneConnected(world: (nat, nat) -> bool, before: seq<nat>, after: seq<nat>)
    requires |before| == |after| && AnsweredBy(world, before, after, Exhausted)
    ensures AnsweredBy(world, before, after, Cancelled)
  {
  }

  function Later(a: nat, b: nat): nat {
    if a < b then b else a
  }

  class JobDeclaratorClient {
    const triedOrFlagged: array<bool>
    const world: (nat, nat) -> bool   // does this attempt, by entry and number, connect?
    const cancelTime: nat       // the application token is cancelled from this time on
    var clock: nat
    var tries: seq<nat>         // attempts so far, by entry: the number of the next one

    ghost function Abstract(): Table
      reads this, triedOrFlagged
    {
      Table(triedOrFlagged[..], tries, clock)
    }

    constructor (upstreams: nat, world: (nat, nat) -> bool, cancelTime: nat)
      ensures Abstract() == Fresh(upstreams) && fresh(triedOrFlagged)
      ensures this.world == world && this.cancelTime == cancelTime
    {
      triedOrFlagged := new bool[upstreams](_ => false);
      this.world, this.cancelTime := world, cancelTime;
      clock := 0;
      tries := seq(upstreams, _ => 0);
      new;
      assert triedOrFlagged[..] == seq(upstreams, _ => false);
    }

    /** A look at the token, or a sleep raced against it. */
    method TokenCancelled() returns (c: bool)
      modifies this`clock
      ensures clock == old(clock) + 1 && (c <==> old(clock) >= cancelTime)
    {
      c := clock >= cancelTime;
      clock := clock + 1;
    }

    method TryInitialize(i: nat) returns (ok: bool)
      requires WellFormed(Abstract()) && i < triedOrFlagged.Length
      modifies this
      ensures Abstract() == Attempted(old(Abstract()), i) && ok == world(i, old(tries)[i])
    {
      ok := world(i, tries[i]);
      clock := clock + 1;
      tries := tries[i := tries[i] + 1];
    }

    /** Up to MAX_RETRIES attempts on an unflagged entry; a cancelled token stops them. */
    method TryEntry(i: nat) returns (ok: bool, cancelled: bool, ghost n: nat)
      requires WellFormed(Abstract()) && i < triedOrFlagged.Length && !triedOrFlagged[i]
      modifies this
      ensures Tried(old(Abstract()), Abstract(), i, n)
      ensures ok ==> !cancelled && n >= 1
      ensures !ok && !cancelled ==> n == 3
      ensures forall a: nat :: old(tries)[i] <= a < tries[i] ==> (world(i, a) <==> ok && a == tries[i] - 1)
      ensures cancelled ==> cancelTime < clock <= Later(old(clock) + 1, cancelTime + 2)
      // the look after a failed attempt comes before anything else is done with the entry
      ensures !cancelled ==> clock <= if ok then cancelTime + 1 else cancelTime
    {
      n := 0;
      for attempt := 1 to MAX_RETRIES + 1
        invariant Tried(old(Abstract()), Abstract(), i, n) && n == attempt - 1
        invariant forall a: nat :: old(tries)[i] <= a < tries[i] ==> !world(i, a)
        invariant attempt > 1 ==> clock <= cancelTime
        invariant attempt == 1 ==> clock == old(clock)
      {
        cancelled := TokenCancelled();
        if cancelled {
          return false, true, n;
        }
        ok := TryInitialize(i);
        n := n + 1;
        if ok {
          return true, false, n;
        }
        cancelled := TokenCancelled();
        if cancelled {
          return false, true, n;
        }
      }
      ok, cancelled := false, false;
    }

    method InitializeJd() returns (r: Outcome)
      requires WellFormed(Abstract())
      modifies this, triedOrFlagged
      ensures Advances(old(Abstract()), Abstract(), r) && !r.StartFailed?
      // a cancelled token is noticed at the next look, one attempt later at most, and nothing goes on after that
      ensures r.Cancelled? ==> cancelTime < clock <= Later(old(clock) + 1, cancelTime + 2)
      ensures r.Connected? ==> clock <= cancelTime + 1
      ensures r.Exhausted? && triedOrFlagged.Length > 0 ==> clock <= cancelTime
      ensures |tries| == |old(tries)| && AnsweredBy(world, old(tries), tries, r)
      // once the token is cancelled nothing is attempted any more
      ensures old(clock) >= cancelTime ==> tries == old(tries) && triedOrFlagged[..] == old(triedOrFlagged[..])
    {
      hide Grows, UsedUpBefore, UntouchedFrom, Scanned, Advances, AnsweredBy;
      ghost var t := Abstract();
      ScanStarts(t);
      NothingAnswered(world, tries, Exhausted);
      for i := 0 to triedOrFlagged.Length
        invariant Scanned(t, Abstract(), i) && WellFormed(Abstract())
        invariant t.clock >= cancelTime ==> i == 0 && Abstract() == t
        invariant if i == 0 then clock == t.clock else clock <= cancelTime
        invariant AnsweredBy(world, t.tries, tries, Exhausted)
      {
        ghost var s0 := Abstract();
        var stop := TokenCancelled();
        ghost var s := Abstract();
        TimePasses(t, s0, i, clock);
        assert s == s0.(clock := clock);
        if stop {
          NoneConnected(world, t.tries, tries);
          return Cancelled;
        }
        if triedOrFlagged[i] {
          EntrySkipped(t, s, i);
          continue;
        }
        var ok, cancelled, n := TryEntry(i);
        ghost var s' := Abstract();
        NotYetTried(t, s, i);
        ghost var last := if ok then Connected(i) else if cancelled then Cancelled else Exhausted;
        AnsweredMore(world, t.tries, s.tries, tries, i, last);
        if cancelled {
          EntryCancelled(t, s, s', i, n);
          return Cancelled;
        }
        TriedShape(s, s', i, n);
        triedOrFlagged[i] := true;
        assert Abstract() == Flag(s', i);
        if ok {
          EntryConnected(t, s, s', i, n);
          return Connected(i);
        }
        EntryUsedUp(t, s, s', i);
      }
      ScanEnds(t, Abstract());
      r := Exhausted;
    }

    /** The tables and outcomes of the calls so far end where the object now stands. */
    ghost predicate Recorded(ts: seq<Table>, rs: seq<Outcome>)
      reads this, triedOrFlagged
    {
      && Calls(ts, rs) && |ts| == |rs| + 1 && WellFormed(Abstract())
      && ts[|rs|].flagged == triedOrFlagged[..] && ts[|rs|].tries == tries && ts[|rs|].clock <= clock
      && (rs != [] && rs[|rs| - 1].Cancelled? ==> clock > cancelTime)
      && (forall c :: 0 <= c < |rs| ==> !rs[c].StartFailed?)
    }

    /** A call of the initializer that adds itself to the record; a cancelled call is the last one. */
    method RecordedCall(ghost ts: seq<Table>, ghost rs: seq<Outcome>)
      returns (ghost ts': seq<Table>, ghost rs': seq<Outcome>)
      requires Recorded(ts, rs) && (rs != [] ==> !rs[|rs| - 1].Cancelled?)
      modifies this, triedOrFlagged
      ensures Recorded(ts', rs') && |rs'| == |rs| + 1 && ts'[0] == ts[0]
    {
      hide Advances, AnsweredBy, Calls;
      ghost var before := Abstract();
      var r := InitializeJd();
      LaterCall(ts, rs, before, Abstract(), r);
      ts', rs' := ts + [Abstract()], rs + [r];
    }

    /** The main loop, over the events it gets to see before it ends.  When no upstream is left it
        goes on in solo mode, so fallbacks are not bounded, but connections and attempts are. */
    method Start(events: seq<MainEvent>, solo: bool)
      returns (handled: nat, ghost ts: seq<Table>, ghost rs: seq<Outcome>)
      requires WellFormed(Abstract())
      modifies this, triedOrFlagged
      ensures Calls(ts, rs) && |ts| == |rs| + 1 && ts[0].flagged == old(triedOrFlagged[..]) && ts[0].tries == old(tries)
      ensures ts[|rs|].flagged == triedOrFlagged[..] && ts[|rs|].tries == tries
      ensures Successes(rs) <= triedOrFlagged.Length
      // one call at the start, one per fallback handled, and the loop ends early only for a reason
      ensures |rs| == handled + if solo || triedOrFlagged.Length == 0 then 0 else 1
      ensures handled <= |events|
      ensures forall e :: 0 <= e < handled ==> events[e].FallbackSignal? && events[e].channelManagerStarts
      ensures forall e :: 0 <= e < handled - 1 ==> events[e].monitoringStarts
      ensures handled < |events| ==>
                || clock > cancelTime || events[handled].CtrlC? || !events[handled].channelManagerStarts
                || (handled > 0 && !events[handled - 1].monitoringStarts) || (!solo && triedOrFlagged.Length == 0)
      ensures (forall k :: 0 <= k < |old(tries)| ==> old(tries)[k] == 0) ==>
                forall k :: 0 <= k < |tries| ==> tries[k] <= 3
    {
      hide Advances, AnsweredBy, Calls, Successes, Live;
      handled, ts, rs := 0, [Abstract()], [];
      CallsStart(Abstract());
      if !solo && triedOrFlagged.Length == 0 {
        // nothing to connect to: the application token is cancelled before the loop
        FailoverIsBounded(ts, rs);
        return;
      }
      if !solo {
        ts, rs := RecordedCall(ts, rs);
      }
      for e := 0 to |events|
        invariant handled == e && |rs| == e + if solo || triedOrFlagged.Length == 0 then 0 else 1
        invariant forall k :: 0 <= k < e ==>
                    events[k].FallbackSignal? && events[k].channelManagerStarts && events[k].monitoringStarts
        invariant Recorded(ts, rs) && ts[0].flagged == old(triedOrFlagged[..]) && ts[0].tries == old(tries)
      {
        var stop := TokenCancelled();
        if stop || events[e].CtrlC? || !events[e].channelManagerStarts {
          break;
        }
        ts, rs := RecordedCall(ts, rs);
        handled := e + 1;
        if !events[e].monitoringStarts {
          break;
        }
      }
      FailoverIsBounded(ts, rs);
      UntriedIsLive(ts[0]);
    }
  }
}
