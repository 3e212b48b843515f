/**
 Job activation: NewMiningJob and SetNewPrevHash (sections 5.3.15 and 5.3.17 of the Stratum V2
 specification, Mining Protocol) as the device handles them.
 */
module Device {
  import opened Sha256
  import opened FastHasher
  import opened Miner
  import opened Prelude

  /** What the miner holds once a job is active. */
  datatype Active = Active(header: Header, jobId: Word, version: Word)

  datatype State = State(prevHash: Option<PrevHash>, jobs: seq<Job>, active: Option<Active>)

  /** A message with the clock reading at the time it is handled. */
  datatype Message = NewMiningJob(job: Job, time: Word) | SetNewPrevHash(p: PrevHash, time: Word)

  function Init(): State {
    State(None, [], None)
  }

  function Activate(p: PrevHash, j: Job, time: Word): Option<Active> {
    Some(Active(JoinHeader(p, j, time), j.id, j.version))
  }

  /** The future jobs a SetNewPrevHash asks for, in order. */
  function Matching(jobs: seq<Job>, id: Word): seq<Job> {
    if jobs == [] then []
    else (if jobs[0].id == id && IsFuture(jobs[0]) then [jobs[0]] else []) + Matching(jobs[1..], id)
  }

  /** One message; None where the device panics. */
  function Handle(s: State, m: Message): Option<State> {
    match m
    case NewMiningJob(j, time) =>
      if IsFuture(j) then Some(s.(jobs := s.jobs + [j]))
      else if s.prevHash.Some? then Some(s.(jobs := [j], active := Activate(s.prevHash.value, j, time)))
      else None
    case SetNewPrevHash(p, time) =>
      var found := Matching(s.jobs, p.jobId);
      if |found| == 0 then Some(s.(prevHash := Some(p)))
      else if |found| == 1 then Some(State(Some(p), found, Activate(p, found[0], time)))
      else None
  }

  function Run(ms: seq<Message>): Option<State> {
    if ms == [] then Some(Init())
    else
      var before := Run(ms[..|ms| - 1]);
      if before.None? then None else Handle(before.value, ms[|ms| - 1])
  }

  /** The latest SetNewPrevHash of the run matched a future job. */
  predicate LatestMatched(ms: seq<Message>) {
    ms != [] &&
    var before, m := ms[..|ms| - 1], ms[|ms| - 1];
    if m.NewMiningJob? then LatestMatched(before)
    else Run(before).Some? && Matching(Run(before).value.jobs, m.p.jobId) != []
  }

  function LatestPrevHash(ms: seq<Message>): Option<PrevHash> {
    if ms == [] then None
    else if ms[|ms| - 1].SetNewPrevHash? then Some(ms[|ms| - 1].p)
    else LatestPrevHash(ms[..|ms| - 1])
  }

  ghost predicate ReceivedJob(ms: seq<Message>, j: Job) {
    exists i :: 0 <= i < |ms| && ms[i].NewMiningJob? && ms[i].job == j
  }

  ghost predicate ReceivedPrevHash(ms: seq<Message>, p: PrevHash) {
    exists i :: 0 <= i < |ms| && ms[i].SetNewPrevHash? && ms[i].p == p
  }

  /** The active header is the join of the current job with this previous hash. */
  predicate JoinedFrom(a: Active, j: Job, p: PrevHash) {
    a.jobId == j.id && a.version == j.version && Joins(a.header, p, j, a.header.time)
  }

  ghost predicate ActiveInv(ms: seq<Message>, s: State)
    requires s.active.Some?
  {
    && s.jobs != []
    && (forall k :: 1 <= k < |s.jobs| ==> IsFuture(s.jobs[k]))
    && (exists p :: ReceivedPrevHash(ms, p) && JoinedFrom(s.active.value, s.jobs[0], p))
    // the header lags behind the latest previous hash only where that one matched nothing
    && (LatestMatched(ms) ==> s.prevHash.Some? && JoinedFrom(s.active.value, s.jobs[0], s.prevHash.value))
  }

  ghost predicate Inv(ms: seq<Message>, s: State) {
    && s.prevHash == LatestPrevHash(ms)
    && (forall k :: 0 <= k < |s.jobs| ==> ReceivedJob(ms, s.jobs[k]))
    && (s.active.None? ==> forall k :: 0 <= k < |s.jobs| ==> IsFuture(s.jobs[k]))
    && (s.active.Some? ==> ActiveInv(ms, s))
    && (s.active.None? ==> !LatestMatched(ms))
    && (s.prevHash.Some? ==> ReceivedPrevHash(ms, s.prevHash.value))
  }

  lemma {:induction false} MatchingFound(jobs: seq<Job>, id: Word)
    ensures forall k :: 0 <= k < |Matching(jobs, id)| ==>
              var j := Matching(jobs, id)[k]; j in jobs && j.id == id && IsFuture(j)
    ensures Matching(jobs, id) == [] <==> forall k :: 0 <= k < |jobs| ==> !(jobs[k].id == id && IsFuture(jobs[k]))
  {
    if jobs != [] {
      MatchingFound(jobs[1..], id);
      assert forall k :: 1 <= k < |jobs| ==> jobs[k] == jobs[1..][k - 1];
    }
  }

  lemma NothingMatches(id: Word)
    ensures Matching([], id) == []
  {
  }

  /** What one more job adds to the filter. */
  lemma MatchingStep(jobs: seq<Job>, id: Word, i: nat)
    requires i < |jobs|
    ensures Matching(jobs[i..], id) ==
            (if jobs[i].id == id && IsFuture(jobs[i]) then [jobs[i]] else []) + Matching(jobs[i + 1..], id)
  {
    var rest := jobs[i..];
    assert rest[0] == jobs[i] && rest[1..] == jobs[i + 1..];
  }

  /** Longer histories contain what shorter ones received. */
  lemma ReceivedMore(ms: seq<Message>, m: Message)
    ensures forall j :: ReceivedJob(ms, j) ==> ReceivedJob(ms + [m], j)
    ensures forall p :: ReceivedPrevHash(ms, p) ==> ReceivedPrevHash(ms + [m], p)
    ensures m.NewMiningJob? ==> ReceivedJob(ms + [m], m.job)
    ensures m.SetNewPrevHash? ==> ReceivedPrevHash(ms + [m], m.p)
  {
    var more := ms + [m];
    assert forall i :: 0 <= i < |ms| ==> more[i] == ms[i];
    assert more[|ms|] == m;
  }

  /** A step that leaves the active job alone, and does not end in a match, keeps its origin. */
  lemma ActiveKept(ms: seq<Message>, s: State, m: Message, s': State)
    requires s.active.Some? && ActiveInv(ms, s) && s'.active == s.active
    requires |s.jobs| <= |s'.jobs| && s'.jobs[..|s.jobs|] == s.jobs
    requires forall k :: |s.jobs| <= k < |s'.jobs| ==> IsFuture(s'.jobs[k])
    requires LatestMatched(ms + [m]) ==> LatestMatched(ms) && s'.prevHash == s.prevHash
    ensures ActiveInv(ms + [m], s')
  {
    ReceivedMore(ms, m);
    var p :| ReceivedPrevHash(ms, p) && JoinedFrom(s.active.value, s.jobs[0], p);
    assert s'.jobs[0] == s.jobs[0];
    assert ReceivedPrevHash(ms + [m], p) && JoinedFrom(s'.active.value, s'.jobs[0], p);
    forall k | 1 <= k < |s'.jobs| ensures IsFuture(s'.jobs[k]) {
      assert k < |s.jobs| ==> s'.jobs[k] == s.jobs[k];
    }
  }

  lemma NewJobKeeps(ms: seq<Message>, s: State, m: Message)
    requires Run(ms) == Some(s) && Inv(ms, s) && Handle(s, m).Some? && m.NewMiningJob?
    ensures Inv(ms + [m], Handle(s, m).value)
  {
    var more, s' := ms + [m], Handle(s, m).value;
    assert more[..|ms|] == ms;
    ReceivedMore(ms, m);
    if !IsFuture(m.job) {
      assert JoinedFrom(s'.active.value, s'.jobs[0], s.prevHash.value);
    } else if s.active.Some? {
      ActiveKept(ms, s, m, s');
    }
  }

  lemma NewPrevHashKeeps(ms: seq<Message>, s: State, m: Message)
    requires Run(ms) == Some(s) && Inv(ms, s) && Handle(s, m).Some? && m.SetNewPrevHash?
    ensures Inv(ms + [m], Handle(s, m).value)
  {
    var more, s' := ms + [m], Handle(s, m).value;
    assert more[..|ms|] == ms;
    ReceivedMore(ms, m);
    MatchingFound(s.jobs, m.p.jobId);
    if Matching(s.jobs, m.p.jobId) != [] {
      assert JoinedFrom(s'.active.value, s'.jobs[0], m.p);
    } else if s.active.Some? {
      ActiveKept(ms, s, m, s');
    }
  }

  /** The job activation invariant, over every sequence of messages that does not panic. */
  lemma {:induction false} JobActivation(ms: seq<Message>)
    requires Run(ms).Some?
    ensures Inv(ms, Run(ms).value)
  {
    if ms != [] {
      var before := ms[..|ms| - 1];
      JobActivation(before);
      var m := ms[|ms| - 1];
      assert ms == before + [m];
      if m.NewMiningJob? {
        NewJobKeeps(before, Run(before).value, m);
      } else {
        NewPrevHashKeeps(before, Run(before).value, m);
      }
    }
  }

  /** Exactly when a message makes the device panic. */
  lemma PanicsExactly(s: State, m: Message)
    ensures Handle(s, m).None? <==>
            (match m
             case NewMiningJob(j, _) => !IsFuture(j) && s.prevHash.None?
             case SetNewPrevHash(p, _) =>
               exists i, k :: 0 <= i < k < |s.jobs|
                              && s.jobs[i].id == p.jobId == s.jobs[k].id && IsFuture(s.jobs[i]) && IsFuture(s.jobs[k]))
  {
    if m.SetNewPrevHash? {
      TwoMatches(s.jobs, m.p.jobId);
    }
  }

  lemma {:induction false} TwoMatches(jobs: seq<Job>, id: Word)
    ensures |Matching(jobs, id)| >= 2 <==>
            exists i, k :: 0 <= i < k < |jobs| && jobs[i].id == id == jobs[k].id
                           && IsFuture(jobs[i]) && IsFuture(jobs[k])
  {
    if jobs != [] {
      var rest := jobs[1..];
      TwoMatches(rest, id);
      MatchingFound(rest, id);
      if |Matching(rest, id)| >= 2 {
        var i, k :| 0 <= i < k < |rest| && rest[i].id == id == rest[k].id && IsFuture(rest[i]) && IsFuture(rest[k]);
        assert jobs[i + 1] == rest[i] && jobs[k + 1] == rest[k];
      } else if |Matching(jobs, id)| >= 2 {
        var k :| 0 <= k < |rest| && rest[k].id == id && IsFuture(rest[k]);
        assert jobs[k + 1] == rest[k] && jobs[0].id == id && IsFuture(jobs[0]);
      }
      if i, k :| 0 <= i < k < |jobs| && jobs[i].id == id == jobs[k].id && IsFuture(jobs[i]) && IsFuture(jobs[k]) {
        assert jobs[k] == rest[k - 1];
        if i > 0 {
          assert jobs[i] == rest[i - 1];
        }
      }
    }
  }

  // ---- The stored jobs, from the messages alone ------------------------------------------------

  /** The future jobs received, in order. */
  function Futures(ms: seq<Message>): seq<Job> {
    if ms == [] then []
    else var m := ms[|ms| - 1];
         Futures(ms[..|ms| - 1]) + if m.NewMiningJob? && m.job.minNtime.None? then [m.job] else []
  }

  lemma FuturesNext(ms: seq<Message>, m: Message)
    ensures Futures(ms + [m]) == Futures(ms) + if m.NewMiningJob? && m.job.minNtime.None? then [m.job] else []
  {
    assert (ms + [m])[..|ms|] == ms;
  }

  predicate Names(p: PrevHash, j: Job) {
    j.id == p.jobId && j.minNtime.None?
  }

  /** This message leaves the active job alone while these jobs are stored. */
  predicate Passes(m: Message, jobs: seq<Job>) {
    match m
    case NewMiningJob(j, _) => j.minNtime.None?
    case SetNewPrevHash(p, _) => forall i :: 0 <= i < |jobs| ==> !Names(p, jobs[i])
  }

  /** Job `j` is active with this header, whoever named it. */
  predicate IsActive(active: Option<Active>, j: Job, p: PrevHash, time: Word) {
    active.Some? && active.value.jobId == j.id && active.value.version == j.version
    && Joins(active.value.header, p, j, time)
  }

  /** Message `k` made `j` active: a job for now under the latest previous hash, or a previous hash that
      names a future job received before. */
  ghost predicate MadeActive(ms: seq<Message>, k: nat, j: Job, active: Option<Active>)
    requires k < |ms|
  {
    match ms[k]
    case NewMiningJob(job, time) =>
      j == job && j.minNtime.Some? && LatestPrevHash(ms[..k]).Some?
      && IsActive(active, j, LatestPrevHash(ms[..k]).value, time)
    case SetNewPrevHash(p, time) => Names(p, j) && j in Futures(ms[..k]) && IsActive(active, j, p, time)
  }

  /** The latest activation was by message `k`: all later ones passed, and the jobs are `j` and the future jobs
      received since. */
  ghost predicate ActiveSince(ms: seq<Message>, k: nat, j: Job, s: State) {
    && k < |ms| && MadeActive(ms, k, j, s.active)
    && s.jobs == [j] + Futures(ms[k + 1..])
    && forall l :: k < l < |ms| ==> Passes(ms[l], [j] + Futures(ms[k + 1..l]))
  }

  ghost predicate NothingActive(ms: seq<Message>, s: State) {
    && s.active.None? && s.jobs == Futures(ms)
    && forall l :: 0 <= l < |ms| ==> Passes(ms[l], Futures(ms[..l]))
  }

  /** One message on a state, by counting the stored jobs that it names: none, one, or several. */
  lemma HandleExactly(s: State, m: Message)
    ensures Passes(m, s.jobs) ==>
              Handle(s, m) == Some(s.(jobs := s.jobs + (if m.NewMiningJob? then [m.job] else []),
                                      prevHash := if m.NewMiningJob? then s.prevHash else Some(m.p)))
    ensures m.NewMiningJob? && !IsFuture(m.job) && s.prevHash.Some? ==>
              && Handle(s, m).Some? && Handle(s, m).value.jobs == [m.job]
              && Handle(s, m).value.prevHash == s.prevHash
              && IsActive(Handle(s, m).value.active, m.job, s.prevHash.value, m.time)
    ensures m.SetNewPrevHash? && Handle(s, m).Some? && !Passes(m, s.jobs) ==>
              exists i: nat :: i < |s.jobs| && Names(m.p, s.jobs[i]) && Handle(s, m).value.jobs == [s.jobs[i]]
                               && IsActive(Handle(s, m).value.active, s.jobs[i], m.p, m.time)
    ensures forall i: nat ::
              (&& m.SetNewPrevHash? && i < |s.jobs| && Names(m.p, s.jobs[i])
               && forall k :: 0 <= k < |s.jobs| && k != i ==> !Names(m.p, s.jobs[k]))
              ==> && Handle(s, m).Some? && Handle(s, m).value.jobs == [s.jobs[i]]
                  && Handle(s, m).value.prevHash == Some(m.p)
                  && IsActive(Handle(s, m).value.active, s.jobs[i], m.p, m.time)
  {
    if m.SetNewPrevHash? {
      var found := Matching(s.jobs, m.p.jobId);
      MatchingFound(s.jobs, m.p.jobId);
      TwoMatches(s.jobs, m.p.jobId);
      assert s.jobs + [] == s.jobs;
      if |found| == 1 {
        var i: nat :| i < |s.jobs| && s.jobs[i] == found[0];
        assert Names(m.p, s.jobs[i]) && Handle(s, m).value.jobs == [s.jobs[i]];
        assert IsActive(Handle(s, m).value.active, s.jobs[i], m.p, m.time);
      }
    }
  }

  lemma {:induction false} ReceivedFuture(ms: seq<Message>, j: Job)
    requires ReceivedJob(ms, j) && IsFuture(j)
    ensures j in Futures(ms)
  {
    var before, m := ms[..|ms| - 1], ms[|ms| - 1];
    if m.NewMiningJob? && m.job == j {
      assert Futures(ms)[|Futures(ms)| - 1] == j;
    } else {
      var i :| 0 <= i < |ms| && ms[i].NewMiningJob? && ms[i].job == j;
      assert before[i] == ms[i];
      ReceivedFuture(before, j);
    }
  }

  lemma PassesOn(ms: seq<Message>, k: nat, m: Message)
    requires k <= |ms|
    ensures (ms + [m])[k..] == ms[k..] + [m]
    ensures forall l :: k <= l <= |ms| ==> (ms + [m])[k..l] == ms[k..l]
    ensures forall l :: 0 <= l < |ms| ==> (ms + [m])[l] == ms[l]
    ensures (ms + [m])[|ms|] == m && ms[k..|ms|] == ms[k..]
  {
  }

  lemma StillNothing(ms: seq<Message>, s: State, m: Message, t: State)
    requires NothingActive(ms, s) && Passes(m, s.jobs) && Handle(s, m) == Some(t)
    ensures NothingActive(ms + [m], t)
  {
    HandleExactly(s, m);
    FuturesNext(ms, m);
    PassesOn(ms, 0, m);
    hide Futures, Handle;
    forall l | 0 <= l < |ms + [m]| ensures Passes((ms + [m])[l], Futures((ms + [m])[..l])) {
      assert (ms + [m])[..l] == ms[..l];
      assert ms[..|ms|] == ms;
    }
  }

  lemma StillActive(ms: seq<Message>, k: nat, j: Job, s: State, m: Message, t: State)
    requires ActiveSince(ms, k, j, s) && Passes(m, s.jobs) && Handle(s, m) == Some(t)
    ensures ActiveSince(ms + [m], k, j, t)
  {
    HandleExactly(s, m);
    FuturesNext(ms[k + 1..], m);
    PassesOn(ms, k + 1, m);
    PassesOn(ms, 0, m);
    hide Futures, Handle, Passes, IsActive;
    assert (ms + [m])[..k] == ms[..k];
    JoinJob(j, Futures(ms[k + 1..]), if m.NewMiningJob? then [m.job] else []);
  }

  lemma JoinJob(j: Job, since: seq<Job>, more: seq<Job>)
    ensures [j] + since + more == [j] + (since + more)
  {
  }

  lemma NowActive(ms: seq<Message>, s: State, m: Message, t: State) returns (j: Job)
    requires Run(ms) == Some(s) && Inv(ms, s) && !Passes(m, s.jobs) && Handle(s, m) == Some(t)
    ensures ActiveSince(ms + [m], |ms|, j, t)
  {
    HandleExactly(s, m);
    NonePanics(s, m);
    hide Handle, IsActive, Matching, ActiveInv, LatestMatched, Run;
    if m.NewMiningJob? {
      j := m.job;
    } else {
      var i: nat :| i < |s.jobs| && Names(m.p, s.jobs[i]) && t.jobs == [s.jobs[i]]
                    && IsActive(t.active, s.jobs[i], m.p, m.time);
      j := s.jobs[i];
      ReceivedFuture(ms, j);
    }
    LatestActivation(ms, m, j, t);
  }

  lemma NonePanics(s: State, m: Message)
    requires Handle(s, m).Some?
    ensures m.NewMiningJob? && !IsFuture(m.job) ==> s.prevHash.Some?
  {
  }

  lemma LatestActivation(ms: seq<Message>, m: Message, j: Job, t: State)
    requires match m
             case NewMiningJob(job, time) =>
               j == job && !IsFuture(j) && LatestPrevHash(ms).Some?
               && IsActive(t.active, j, LatestPrevHash(ms).value, time)
             case SetNewPrevHash(p, time) => Names(p, j) && j in Futures(ms) && IsActive(t.active, j, p, time)
    requires t.jobs == [j]
    ensures ActiveSince(ms + [m], |ms|, j, t)
  {
    hide IsActive;
    assert (ms + [m])[..|ms|] == ms && (ms + [m])[|ms| + 1..] == [] && (ms + [m])[|ms|] == m;
    assert [j] + [] == [j];
  }

  /** Nothing is lost of what was received: as long as no message made a job active, the stored jobs are the
      future jobs received; after that they are the latest active job and the future jobs received since. */
  lemma {:induction false} JobsExactly(ms: seq<Message>)
    requires Run(ms).Some?
    ensures var s := Run(ms).value; NothingActive(ms, s) || exists k: nat, j :: ActiveSince(ms, k, j, s)
  {
    if ms != [] {
      var before, m := ms[..|ms| - 1], ms[|ms| - 1];
      JobsExactly(before);
      JobActivation(before);
      assert ms == before + [m];
      var s, t := Run(before).value, Run(ms).value;
      hide NothingActive, ActiveSince, Inv;
      if !Passes(m, s.jobs) {
        var j := NowActive(before, s, m, t);
      } else if NothingActive(before, s) {
        StillNothing(before, s, m, t);
      } else {
        var k: nat, j :| ActiveSince(before, k, j, s);
        StillActive(before, k, j, s, m, t);
      }
    } else {
      assert NothingActive([], Init());
    }
  }

  /** The first previous hash that names exactly one of the future jobs received so far makes it active. */
  lemma FirstNamedIsActive(ms: seq<Message>, p: PrevHash, time: Word, i: nat)
    requires Run(ms).Some? && forall l :: 0 <= l < |ms| ==> Passes(ms[l], Futures(ms[..l]))
    requires i < |Futures(ms)| && Names(p, Futures(ms)[i])
    requires forall k :: 0 <= k < |Futures(ms)| && k != i ==> !Names(p, Futures(ms)[k])
    ensures var more := ms + [SetNewPrevHash(p, time)];
            && Run(more).Some? && Run(more).value.jobs == [Futures(ms)[i]]
            && IsActive(Run(more).value.active, Futures(ms)[i], p, time)
  {
    QuietRun(ms);
    HandleExactly(Run(ms).value, SetNewPrevHash(p, time));
    assert (ms + [SetNewPrevHash(p, time)])[..|ms|] == ms;
  }

  lemma {:induction false} QuietRun(ms: seq<Message>)
    requires Run(ms).Some? && forall l :: 0 <= l < |ms| ==> Passes(ms[l], Futures(ms[..l]))
    ensures NothingActive(ms, Run(ms).value)
  {
    if ms != [] {
      var before, m := ms[..|ms| - 1], ms[|ms| - 1];
      assert ms == before + [m];
      forall l | 0 <= l < |before| ensures Passes(before[l], Futures(before[..l])) {
        assert before[..l] == ms[..l] && before[l] == ms[l];
      }
      QuietRun(before);
      StillNothing(before, Run(before).value, m, Run(ms).value);
    }
  }

  class MiningDevice {
    const miner: Miner
    var prevHash: Option<PrevHash>
    var jobs: seq<Job>
    var shouldSend: bool

    /** The midstate hasher in the miner is ready for the header in the miner, which came from a job. */
    ghost predicate Valid()
      reads this, miner, miner.hasher
      reads if miner.hasher == null then {} else {miner.hasher.block1, miner.hasher.secondBlock}
    {
      miner.Valid() && miner.HasJob()
    }

    ghost function Abstract(): State
      requires Valid()
      reads this, miner, miner.hasher
      reads if miner.hasher == null then {} else {miner.hasher.block1, miner.hasher.secondBlock}
    {
      State(prevHash, jobs,
            if miner.header.None? then None
            else Some(Active(miner.header.value, miner.jobId.value, miner.version.value)))
    }

    constructor (compress: Compression)
      ensures Valid() && Abstract() == Init() && fresh(miner) && shouldSend
    {
      miner := new Miner(compress);
      prevHash, jobs, shouldSend := None, [], true;
    }

    method HandleNewMiningJob(j: Job, time: Word) returns (panicked: bool)
      requires Valid()
      modifies this, miner
      ensures Valid()
      ensures panicked == Handle(old(Abstract()), NewMiningJob(j, time)).None?
      ensures Abstract() == if panicked then old(Abstract()) else Handle(old(Abstract()), NewMiningJob(j, time)).value
      ensures shouldSend == (old(shouldSend) || (!IsFuture(j) && !panicked))
    {
      hide Matching, SecondChunk, PaddingOf, LittleEndian, Serialize;
      panicked := false;
      if !IsFuture(j) {
        if prevHash.None? {
          return true;
        }
        miner.NewHeader(prevHash.value, j, time);
        jobs := [j];
        shouldSend := true;
      } else {
        jobs := jobs + [j];
      }
    }

    method FilterJobs(id: Word) returns (found: seq<Job>)
      ensures found == Matching(jobs, id)
    {
      hide Matching;
      found := [];
      NothingMatches(id);
      assert jobs[0..] == jobs && jobs[|jobs|..] == [];
      for i := 0 to |jobs|
        invariant Matching(jobs, id) == found + Matching(jobs[i..], id)
      {
        MatchingStep(jobs, id, i);
        if jobs[i].id == id && IsFuture(jobs[i]) {
          assert (found + [jobs[i]]) + Matching(jobs[i + 1..], id) == found + ([jobs[i]] + Matching(jobs[i + 1..], id));
          found := found + [jobs[i]];
        }
      }
    }

    method HandleSetNewPrevHash(p: PrevHash, time: Word) returns (panicked: bool)
      requires Valid()
      modifies this, miner
      ensures Valid()
      ensures panicked == Handle(old(Abstract()), SetNewPrevHash(p, time)).None?
      ensures Abstract() == if panicked then old(Abstract()) else Handle(old(Abstract()), SetNewPrevHash(p, time)).value
      ensures shouldSend == (old(shouldSend) || (Matching(old(jobs), p.jobId) != [] && !panicked))
    {
      hide Matching, SecondChunk, PaddingOf, LittleEndian, Serialize;
      panicked := false;
      var found := FilterJobs(p.jobId);
      if |found| == 0 {
        prevHash := Some(p);
      } else if |found| == 1 {
        miner.NewHeader(p, found[0], time);
        jobs := [found[0]];
        prevHash := Some(p);
        shouldSend := true;
      } else {
        panicked := true;
      }
    }
  }
}
