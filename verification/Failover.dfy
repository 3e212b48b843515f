/**
 The table of upstream entries, the part shared by the translator and the job declarator client.

 `tries` counts connection attempts per entry over the whole process run, and `clock` counts the
 questions asked of the outside world, whose answers are an arbitrary stream.
 */
module Failover {
  const MAX_RETRIES: nat := 3

  datatype Table = Table(flagged: seq<bool>, tries: seq<nat>, clock: nat)

  predicate WellFormed(t: Table) {
    |t.flagged| == |t.tries|
  }

  function Fresh(n: nat): (t: Table)
    ensures WellFormed(t) && |t.flagged| == n && t.clock == 0
    ensures forall i :: 0 <= i < n ==> !t.flagged[i] && t.tries[i] == 0
  {
    Table(seq(n, _ => false), seq(n, _ => 0), 0)
  }

  function Flag(t: Table, i: nat): Table
    requires i < |t.flagged|
  {
    t.(flagged := t.flagged[i := true])
  }

  /** One connection attempt on an entry, and the answer consumed. */
  function Attempted(t: Table, i: nat): Table
    requires i < |t.tries|
  {
    t.(tries := t.tries[i := t.tries[i] + 1], clock := t.clock + 1)
  }

  /** How a call of the initializer ends. */
  datatype Outcome =
    | Connected(i: nat)      // Ok, on entry i
    | StartFailed(i: nat)    // connected, but what has to follow failed; the entry is not flagged
    | Cancelled              // shutdown noticed
    | Exhausted              // every entry flagged

  /** Flags never clear, and entries that were flagged are not attempted again. */
  ghost predicate Grows(t: Table, t': Table) {
    && WellFormed(t) && WellFormed(t') && |t.flagged| == |t'.flagged| && t.clock <= t'.clock
    && (forall k :: 0 <= k < |t.flagged| ==>
          && (t.flagged[k] ==> t'.flagged[k] && t'.tries[k] == t.tries[k])
          && t.tries[k] <= t'.tries[k] <= t.tries[k] + MAX_RETRIES)
  }

  /** Entries from `i` on are as they were. */
  ghost predicate UntouchedFrom(t: Table, t': Table, i: nat)
    requires WellFormed(t) && WellFormed(t') && |t.flagged| == |t'.flagged|
  {
    forall k :: i <= k < |t.flagged| ==> t'.flagged[k] == t.flagged[k] && t'.tries[k] == t.tries[k]
  }

  /** Entries before `i` are used up: flagged, and those tried now failed every attempt. */
  ghost predicate UsedUpBefore(t: Table, t': Table, i: nat)
    requires WellFormed(t) && WellFormed(t') && |t.flagged| == |t'.flagged|
  {
    forall k :: 0 <= k < i && k < |t.flagged| ==>
      t'.flagged[k] && (!t.flagged[k] ==> t'.tries[k] == t.tries[k] + MAX_RETRIES)
  }

  /** What one call of the initializer guarantees, for each way it can end. */
  ghost predicate Advances(t: Table, t': Table, r: Outcome) {
    && Grows(t, t')
    && (match r
        case Connected(i) =>
          && i < |t.flagged| && !t.flagged[i] && t'.flagged[i]
          && 1 <= t'.tries[i] - t.tries[i]
          && UsedUpBefore(t, t', i) && UntouchedFrom(t, t', i + 1)
        case StartFailed(i) =>
          && i < |t.flagged| && !t.flagged[i] && !t'.flagged[i]
          && UsedUpBefore(t, t', i) && UntouchedFrom(t, t', i + 1)
        case Cancelled => true
        case Exhausted => UsedUpBefore(t, t', |t.flagged|))
  }

  // ---- One call, entry by entry --------------------------------------------------------------

  /** Where a call that started at `t` stands before looking at entry `i`. */
  ghost predicate Scanned(t: Table, s: Table, i: nat) {
    Grows(t, s) && UsedUpBefore(t, s, i) && UntouchedFrom(t, s, i)
  }

  /** `n` attempts on entry `i`. */
  ghost predicate Tried(s: Table, s': Table, i: nat, n: nat) {
    && WellFormed(s) && i < |s.flagged| && !s.flagged[i] && n <= MAX_RETRIES && s.clock <= s'.clock
    && s' == Table(s.flagged, s.tries[i := s.tries[i] + n], s'.clock)
  }

  lemma TriedShape(s: Table, s': Table, i: nat, n: nat)
    requires Tried(s, s', i, n)
    ensures WellFormed(s') && s'.flagged == s.flagged
  {
  }

  lemma ScanStarts(t: Table)
    requires WellFormed(t)
    ensures Scanned(t, t, 0)
  {
  }

  lemma TimePasses(t: Table, s: Table, i: nat, clock: nat)
    requires Scanned(t, s, i) && s.clock <= clock
    ensures Scanned(t, s.(clock := clock), i) && Advances(t, s.(clock := clock), Cancelled)
  {
  }

  lemma EntrySkipped(t: Table, s: Table, i: nat)
    requires Scanned(t, s, i) && i < |s.flagged| && s.flagged[i]
    ensures Scanned(t, s, i + 1)
  {
  }

  lemma NotYetTried(t: Table, s: Table, i: nat)
    requires Scanned(t, s, i) && i < |s.flagged|
    ensures |s.tries| == |t.tries| && s.tries[i] == t.tries[i]
  {
  }

  lemma EntryUsedUp(t: Table, s: Table, s': Table, i: nat)
    requires Scanned(t, s, i) && Tried(s, s', i, MAX_RETRIES)
    ensures Scanned(t, Flag(s', i), i + 1)
  {
  }

  lemma EntryConnected(t: Table, s: Table, s': Table, i: nat, n: nat)
    requires Scanned(t, s, i) && Tried(s, s', i, n) && n >= 1
    ensures Advances(t, Flag(s', i), Connected(i)) && Advances(t, s', StartFailed(i))
  {
  }

  lemma EntryCancelled(t: Table, s: Table, s': Table, i: nat, n: nat)
    requires Scanned(t, s, i) && Tried(s, s', i, n)
    ensures Advances(t, s', Cancelled)
  {
  }

  lemma ScanEnds(t: Table, s: Table)
    requires Scanned(t, s, |t.flagged|)
    ensures Advances(t, s, Exhausted)
  {
  }

  /** Live: nothing unflagged has been attempted yet. */
  ghost predicate Live(t: Table) {
    WellFormed(t) && forall k :: 0 <= k < |t.flagged| ==> t.tries[k] <= (if t.flagged[k] then MAX_RETRIES else 0)
  }

  lemma LiveKept(t: Table, t': Table, r: Outcome)
    requires Live(t) && Advances(t, t', r)
    ensures r.Connected? || r.Exhausted? ==> Live(t')
    ensures forall k :: 0 <= k < |t'.tries| ==> t'.tries[k] <= MAX_RETRIES
  {
  }

  lemma UntriedIsLive(t: Table)
    requires WellFormed(t)
    ensures (forall k :: 0 <= k < |t.tries| ==> t.tries[k] == 0) ==> Live(t)
  {
  }

  function Unflagged(flags: seq<bool>): nat {
    if flags == [] then 0 else Unflagged(flags[1..]) + if flags[0] then 0 else 1
  }

  lemma {:induction false} UnflaggedShrinks(a: seq<bool>, b: seq<bool>)
    requires |a| == |b| && forall k :: 0 <= k < |a| ==> a[k] ==> b[k]
    ensures Unflagged(b) <= Unflagged(a) <= |a|
    ensures (exists k :: 0 <= k < |a| && !a[k] && b[k]) ==> Unflagged(b) < Unflagged(a)
  {
    if a != [] {
      UnflaggedShrinks(a[1..], b[1..]);
      if k :| 0 <= k < |a| && !a[k] && b[k] {
        if k > 0 {
          assert !a[1..][k - 1] && b[1..][k - 1];
        }
      }
    }
  }

  /** A successful call uses up an unflagged entry. */
  lemma ConnectedConsumes(t: Table, t': Table, r: Outcome)
    requires Advances(t, t', r)
    ensures Unflagged(t'.flagged) <= Unflagged(t.flagged)
    ensures r.Connected? ==> Unflagged(t'.flagged) < Unflagged(t.flagged)
  {
    UnflaggedShrinks(t.flagged, t'.flagged);
  }

  // ---- Whole runs: the tables between calls, and how the calls ended ------------------------

  /** `ts[c]` and `ts[c + 1]` are the tables around call `c`, which ended with `rs[c]`; only the
      last call may end the process. */
  ghost predicate Calls(ts: seq<Table>, rs: seq<Outcome>) {
    && |ts| == |rs| + 1 && WellFormed(ts[0])
    && (forall c :: 0 <= c < |rs| ==> Advances(ts[c], ts[c + 1], rs[c]))
    && (forall c :: 0 <= c < |rs| - 1 ==> rs[c].Connected? || rs[c].Exhausted?)
  }

  lemma CallsStart(t: Table)
    requires WellFormed(t)
    ensures Calls([t], [])
  {
  }

  /** One more call after calls that left the process running; time may pass before it. */
  lemma LaterCall(ts: seq<Table>, rs: seq<Outcome>, before: Table, after: Table, r: Outcome)
    requires Calls(ts, rs) && Advances(before, after, r)
    requires ts[|rs|].flagged == before.flagged && ts[|rs|].tries == before.tries && ts[|rs|].clock <= before.clock
    requires rs != [] ==> rs[|rs| - 1].Connected? || rs[|rs| - 1].Exhausted?
    ensures Calls(ts + [after], rs + [r]) && WellFormed(after)
  {
    var us, qs := ts + [after], rs + [r];
    assert Advances(ts[|rs|], after, r);
    hide Advances;
    forall c | 0 <= c < |qs| ensures Advances(us[c], us[c + 1], qs[c]) {
      if c < |rs| {
        assert us[c] == ts[c] && us[c + 1] == ts[c + 1] && qs[c] == rs[c];
      }
    }
    assert WellFormed(after) by {
      assert Grows(before, after);
    }
  }

  function Successes(rs: seq<Outcome>): nat {
    if rs == [] then 0 else Successes(rs[..|rs| - 1]) + if rs[|rs| - 1].Connected? then 1 else 0
  }

  lemma CallsPrefix(ts: seq<Table>, rs: seq<Outcome>)
    requires Calls(ts, rs) && rs != []
    ensures Calls(ts[..|rs|], rs[..|rs| - 1])
  {
    var us, qs := ts[..|rs|], rs[..|rs| - 1];
    forall c | 0 <= c < |qs| ensures Advances(us[c], us[c + 1], qs[c]) {
      assert us[c] == ts[c] && us[c + 1] == ts[c + 1] && qs[c] == rs[c];
    }
  }

  /** Over any number of calls: at most as many successes as there were unflagged entries, and
      from a fresh table no entry is ever attempted more than three times. */
  lemma {:induction false} FailoverIsBounded(ts: seq<Table>, rs: seq<Outcome>)
    requires Calls(ts, rs)
    ensures Successes(rs) + Unflagged(ts[|rs|].flagged) <= Unflagged(ts[0].flagged) <= |ts[0].flagged|
    ensures Live(ts[0]) ==> forall k :: 0 <= k < |ts[|rs|].tries| ==> ts[|rs|].tries[k] <= 3
    ensures Live(ts[0]) && (rs == [] || rs[|rs| - 1].Connected? || rs[|rs| - 1].Exhausted?) ==> Live(ts[|rs|])
  {
    UnflaggedShrinks(ts[0].flagged, ts[0].flagged);
    if rs != [] {
      var n := |rs| - 1;
      CallsPrefix(ts, rs);
      FailoverIsBounded(ts[..|rs|], rs[..n]);
      assert ts[..|rs|][n] == ts[n];
      ConnectedConsumes(ts[n], ts[n + 1], rs[n]);
      if Live(ts[0]) {
        assert n > 0 ==> rs[..n][n - 1] == rs[n - 1];
        LiveKept(ts[n], ts[n + 1], rs[n]);
      }
    }
  }

  lemma {:induction false} FlagsStay(ts: seq<Table>, rs: seq<Outcome>, c: nat, d: nat, k: nat)
    requires Calls(ts, rs) && c <= d <= |rs| && k < |ts[c].flagged| && ts[c].flagged[k]
    ensures k < |ts[d].flagged| && ts[d].flagged[k]
    decreases d - c
  {
    if c < d {
      assert Advances(ts[c], ts[c + 1], rs[c]);
      FlagsStay(ts, rs, c + 1, d, k);
    }
  }

  /** Connections move down the list: each success is on a later entry than all before it, and
      after the list is exhausted there is none. */
  lemma SuccessesMoveDown(ts: seq<Table>, rs: seq<Outcome>, c: nat, d: nat)
    requires Calls(ts, rs) && c < d < |rs| && rs[d].Connected?
    ensures !rs[c].Exhausted?
    ensures rs[c].Connected? ==> rs[c].i < rs[d].i
  {
    var i := rs[d].i;
    assert Advances(ts[c], ts[c + 1], rs[c]) && Advances(ts[d], ts[d + 1], rs[d]);
    if rs[c].Exhausted? || (rs[c].Connected? && i <= rs[c].i) {
      SameWidth(ts, rs, c, d);
      FlagsStay(ts, rs, c + 1, d, i);
      assert false;
    }
  }

  lemma {:induction false} SameWidth(ts: seq<Table>, rs: seq<Outcome>, c: nat, d: nat)
    requires Calls(ts, rs) && c <= d <= |rs|
    ensures |ts[c].flagged| == |ts[d].flagged|
    decreases d - c
  {
    if c < d {
      assert Advances(ts[c], ts[c + 1], rs[c]);
      SameWidth(ts, rs, c + 1, d);
    }
  }
}
