/** The miner: current header, target and midstate hasher, and the mining loop. */
module Miner {
  import opened Sha256
  import opened FastHasher
  import opened NonceSearch
  import opened Prelude
  import T = Target

  /** The only fields of NewMiningJob that matter here; a job without `minNtime` is a future job. */
  datatype Job = Job(id: Word, version: Word, merkleRoot: Bytes32, minNtime: Option<Word>)

  predicate IsFuture(j: Job) {
    j.minNtime.None?
  }

  datatype PrevHash = PrevHash(jobId: Word, prevHash: Bytes32, bits: Word)

  datatype Share = Share(nonce: Word, jobId: Word, version: Word, time: Word)

  datatype NextShare = ValidShare | InvalidShare | NoTarget | NoHeader

  /** The header that joins a job with a previous hash; the time comes from the clock. */
  function JoinHeader(p: PrevHash, j: Job, time: Word): Header {
    Header(j.version, p.prevHash, j.merkleRoot, time, p.bits, 0)
  }

  /** Field by field: the block to build on and its bits from the previous hash, version and merkle root from
      the job, the time given, and the nonces from zero on. */
  predicate Joins(h: Header, p: PrevHash, j: Job, time: Word) {
    && h.version == j.version && h.merkleRoot == j.merkleRoot
    && h.prevBlock == p.prevHash && h.bits == p.bits
    && h.time == time && h.nonce == 0
  }

  /** The plain statement of what a share is. */
  predicate Meets(compress: Compression, h: Header, target: nat, nonce: Word) {
    T.Value(BlockHash(compress, h.(nonce := nonce))) <= target
  }

  class Miner {
    const compress: Compression
    var header: Option<Header>
    var target: Option<nat>
    var jobId: Option<Word>
    var version: Option<Word>
    var hasher: FastSha256d?

    ghost predicate Valid()
      reads this, hasher, if hasher == null then {} else {hasher.block1, hasher.secondBlock}
    {
      && (hasher != null ==>
            && header.Some?
            && hasher.compress == compress && hasher.Valid(header.value))
      && (header.Some? ==> hasher != null)
      && (target.Some? ==> target.value < T.U256_END)
    }

    /** The header came from a job, as `NewHeader` leaves it. */
    ghost predicate HasJob()
      reads this
    {
      header.Some? ==> jobId.Some? && version.Some?
    }

    ghost function Buffers(): set<object>
      reads this
    {
      if hasher == null then {} else {hasher.block1, hasher.secondBlock}
    }

    constructor (compress: Compression)
      ensures Valid() && header.None? && target.None? && hasher == null
      ensures this.compress == compress
    {
      this.compress := compress;
      header, target, jobId, version, hasher := None, None, None, None, null;
    }

    /** `clone`, with a hasher of its own. */
    constructor Clone(other: Miner)
      requires other.Valid()
      ensures Valid() && compress == other.compress && header == other.header && target == other.target
      ensures jobId == other.jobId && version == other.version && fresh(Buffers())
      ensures hasher != null ==> fresh(hasher)
    {
      var copy: FastSha256d? := null;
      if other.hasher != null {
        copy := new FastSha256d.Clone(other.hasher, other.header.value);
      }
      compress, header, target := other.compress, other.header, other.target;
      jobId, version, hasher := other.jobId, other.version, copy;
    }

    /** Targets arrive little-endian; more than 32 bytes make the conversion panic. */
    method NewTarget(bytes: seq<Byte>) returns (panicked: bool)
      requires Valid()
      modifies this`target
      ensures Valid() && panicked == (|bytes| > 32)
      ensures target == if panicked then old(target) else Some(T.Value(bytes))
    {
      var v := T.FromLittleEndian(bytes);
      panicked := v.None?;
      if !panicked {
        target := v;
      }
    }

    method NewHeader(p: PrevHash, j: Job, time: Word)
      requires Valid()
      modifies this
      ensures Valid() && HasJob() && fresh(Buffers())
      ensures header == Some(JoinHeader(p, j, time)) && jobId == Some(j.id) && version == Some(j.version)
      ensures Joins(header.value, p, j, time)
      ensures target == old(target) && hasher != null && fresh(hasher)
    {
      jobId := Some(j.id);
      version := Some(j.version);
      header := Some(JoinHeader(p, j, time));
      hasher := new FastSha256d(compress, header.value);
    }

    /** One attempt at the current nonce: the word-wise comparison decides numerically. */
    method Next() returns (outcome: NextShare)
      requires Valid()
      modifies Buffers()
      ensures Valid()
      ensures outcome.NoHeader? <==> header.None?
      ensures outcome.NoTarget? <==> header.Some? && target.None?
      ensures outcome.ValidShare? <==>
              header.Some? && target.Some? && Meets(compress, header.value, target.value, header.value.nonce)
    {
      if header.None? {
        return NoHeader;
      }
      var h := header.value;
      var hash := hasher.HashWithNonceTime(h.nonce, h.time, h);
      if target.None? {
        return NoTarget;
      }
      var bytes := T.ToLittleEndian(target.value);
      var ok := T.HashMeetsTarget(hash, bytes);
      assert h == h.(time := h.time, nonce := h.nonce);
      outcome := if ok then ValidShare else InvalidShare;
    }

    /** One batch: a share for the first hit of the window, if any, and the nonce moved past the
        whole window.  `i` counts the misses before the hit. */
    method MineBatch(batch: Word, ghost hit: int -> bool) returns (found: Option<Share>, ghost i: nat)
      requires Valid() && HasJob() && header.Some? && target.Some?
      requires IsHitTest(hit, compress, header.value, target.value)
      modifies this`header, Buffers()
      ensures Valid()
      ensures header == Some(old(header).value.(nonce := Wrap(old(header).value.nonce + batch)))
      ensures i <= batch && NoHitBefore(hit, old(header).value.nonce, i)
      ensures i < batch ==>
                && hit(Wrap(old(header).value.nonce + i))
                && found == Some(Share(Wrap(old(header).value.nonce + i), jobId.value, version.value,
                                       header.value.time))
      ensures i == batch ==> found == None
    {
      hide LittleEndian, BigEndian;
      var h := header.value;
      var at := Scan(hasher, h, target.value, batch, hit);
      i := at;
      found := if at < batch then Some(Share(Wrap(h.nonce + at), jobId.value, version.value, h.time)) else None;
      header := Some(h.(nonce := Wrap(h.nonce + batch)));
      SameStatic(hasher, h, header.value);
    }

    /** The shares sent so far are the batched reports over the windows `done`. */
    ghost predicate Tracks(hit: int -> bool, start: Option<Header>, done: seq<nat>, shares: seq<Share>)
      reads this
    {
      && header.Some? == start.Some?
      && (header.Some? ==> header.value.(nonce := 0) == start.value.(nonce := 0))
      && (header.None? || target.None? ==> shares == [])
      && (header.Some? && target.Some? ==>
            && IsHitTest(hit, compress, header.value, target.value)
            && Searched(hit, start.value.nonce, done, Nonces(shares), header.value.nonce)
            && AllOfJob(shares, jobId, version, start.value.time))
    }

    /** One iteration of the mining loop: a batch when header and target are there, otherwise a
        single attempt, which then is no valid share. */
    method MineOnce(batch: Word, sent: seq<Share>,
                    ghost hit: int -> bool, ghost start: Option<Header>, ghost done: seq<nat>)
      returns (shares: seq<Share>)
      requires Valid() && HasJob() && Tracks(hit, start, done, sent)
      modifies this`header, Buffers()
      ensures Valid() && Tracks(hit, start, done + [batch], shares)
    {
      hide LittleEndian, BigEndian, Searched, BatchReports, Hits, NoHitBefore, IsHitTest, Meets, AllOfJob;
      shares := sent;
      if header.Some? && target.Some? {
        ghost var h := header.value;
        var found, i := MineBatch(batch, hit);
        if found.Some? {
          OneMoreOfJob(shares, jobId, version, h.time, found.value);
          shares := shares + [found.value];
        }
        SameHits(hit, compress, h, header.value, target.value);
        ghost var more := if found.Some? then [found.value.nonce] else [];
        assert Nonces(shares) == Nonces(sent) + more;
        SearchedStep(hit, start.value.nonce, done, Nonces(sent), h.nonce, batch, i, more);
      } else {
        var outcome := Next();
        assert !outcome.ValidShare?;   // so neither the send nor the kill test before it can be reached here
        if header.Some? {
          var h := header.value;
          header := Some(h.(nonce := Wrap(h.nonce + 1)));
          SameStatic(hasher, h, header.value);
        }
      }
    }

    /** The mining loop until it is killed: one iteration per element of `batches`, each with the
        batch size in force at that moment. */
    method Mine(batches: seq<nat>, ghost hit: int -> bool) returns (shares: seq<Share>)
      requires Valid() && HasJob() && forall i :: 0 <= i < |batches| ==> 1 <= batches[i] < NONCES
      requires header.Some? && target.Some? ==> IsHitTest(hit, compress, header.value, target.value)
      modifies this`header, Buffers()
      ensures Valid() && Tracks(hit, old(header), batches, shares)
    {
      shares := [];
      ghost var start := header;
      SearchedNothing(hit, header);
      for i := 0 to |batches|
        invariant Valid() && Tracks(hit, start, batches[..i], shares)
        invariant Buffers() == old(Buffers())
      {
        shares := MineOnce(batches[i], shares, hit, start, batches[..i]);
        assert batches[..i + 1] == batches[..i] + [batches[i]];
      }
      assert batches[..|batches|] == batches;
    }
  }

  /** Every share names the job, version and time it was found for. */
  predicate AllOfJob(shares: seq<Share>, jobId: Option<Word>, version: Option<Word>, time: Word) {
    forall i :: 0 <= i < |shares| ==>
      Some(shares[i].jobId) == jobId && Some(shares[i].version) == version && shares[i].time == time
  }

  lemma OneMoreOfJob(shares: seq<Share>, jobId: Option<Word>, version: Option<Word>, time: Word, s: Share)
    requires AllOfJob(shares, jobId, version, time)
    requires Some(s.jobId) == jobId && Some(s.version) == version && s.time == time
    ensures AllOfJob(shares + [s], jobId, version, time)
  {
  }

  /** The loss is real, for every header: the greatest target is met by every hash, and a batch of two
      sends one share where the one-by-one search has two. */
  lemma BatchCanLoseHits(compress: Compression, h: Header)
    ensures var hit: int -> bool := _ => true;
            && IsHitTest(hit, compress, h, T.U256_END - 1)
            && BatchReports(hit, h.nonce, [2]) == [h.nonce]
            && Hits(hit, h.nonce, 2) == [h.nonce, Wrap(h.nonce + 1)]
  {
    hide IsHitTest, Wrap;
    var hit: int -> bool := _ => true;
    EveryHashMeets(hit, compress, h);
    WrapWord(h.nonce);
    var pos: nat := h.nonce;
    assert Hits(hit, pos + 2, 0) == [];
    assert Hits(hit, pos + 1, 1) == [Wrap(pos + 1)] + Hits(hit, pos + 2, 0);
    assert Hits(hit, pos, 2) == [Wrap(pos)] + Hits(hit, pos + 1, 1);
    assert [2][..0] == [] && BatchReports(hit, pos, []) == [] && Sum([]) == 0;
  }

  lemma WrapWord(w: Word)
    ensures Wrap(w) == w
  {
  }

  lemma EveryHashMeets(hit: int -> bool, compress: Compression, h: Header)
    requires forall n :: hit(n)
    ensures IsHitTest(hit, compress, h, T.U256_END - 1)
  {
    hide Meets;
    forall nonce: Word ensures hit(nonce) == Meets(compress, h, T.U256_END - 1, nonce) {
      HashMeets(compress, h, nonce);
    }
  }

  lemma HashMeets(compress: Compression, h: Header, nonce: Word)
    ensures Meets(compress, h, T.U256_END - 1, nonce)
  {
    hide BlockHash, T.Value, T.Bytes, T.Pow256;
    var hash := BlockHash(compress, h.(nonce := nonce));
    T.ValueFits(hash);
    T.Pow256Is(|hash|);
  }

  /** No nonce is sent twice, by one worker or by two. */
  ghost predicate SentOnce(sent: seq<seq<Share>>) {
    forall i, j, a, b ::
      (0 <= i < |sent| && 0 <= j < |sent| && 0 <= a < |sent[i]| && 0 <= b < |sent[j]|
       && sent[i][a].nonce == sent[j][b].nonce) ==> i == j && a == b
  }

  /** The shares of worker `i`, if there is a header and a target. */
  ghost predicate WorkerSent(hit: int -> bool, p: nat, batches: seq<seq<nat>>, i: nat, shares: seq<Share>)
    requires 0 < p && i < |batches|
  {
    Nonces(shares) == BatchReports(hit, i * Unit(p), batches[i])
  }

  lemma WorkersSendOnce(hit: int -> bool, p: nat, batches: seq<seq<nat>>, sent: seq<seq<Share>>)
    requires 0 < p == |sent| && KeepToRange(p, Unit(p), batches)
    requires forall i: nat :: i < p ==> WorkerSent(hit, p, batches, i, sent[i])
    ensures SentOnce(sent)
  {
    hide BatchReports, Unit, Sum, WorkerSent;
    forall i, j, a, b | 0 <= i < p && 0 <= j < p && 0 <= a < |sent[i]| && 0 <= b < |sent[j]|
                        && sent[i][a].nonce == sent[j][b].nonce
      ensures i == j && a == b
    {
      ReportedNonce(hit, p, batches, i, sent[i], a);
      ReportedNonce(hit, p, batches, j, sent[j], b);
      NoNonceTwice(hit, p, batches, i, j, a, b);
    }
  }

  lemma ReportedNonce(hit: int -> bool, p: nat, batches: seq<seq<nat>>, i: nat, shares: seq<Share>, a: nat)
    requires 0 < p && i < |batches| && WorkerSent(hit, p, batches, i, shares) && a < |shares|
    ensures a < |BatchReports(hit, i * Unit(p), batches[i])|
    ensures shares[a].nonce == BatchReports(hit, i * Unit(p), batches[i])[a]
  {
    hide BatchReports;
    assert Nonces(shares)[a] == shares[a].nonce;
  }

  /** One round of mining: `p` clones of the miner, each from a start of its own.  The workers share
      nothing, so it does not matter that they run one after the other here. */
  method StartMiningThreads(miner: Miner, p: nat, batches: seq<seq<nat>>, ghost hit: int -> bool)
    returns (sent: seq<seq<Share>>)
    requires miner.Valid() && miner.HasJob() && 0 < p < NONCES && |batches| == p
    requires forall i, k :: 0 <= i < p && 0 <= k < |batches[i]| ==> 1 <= batches[i][k] < NONCES
    requires miner.header.Some? && miner.target.Some? ==>
               IsHitTest(hit, miner.compress, miner.header.value, miner.target.value)
    ensures |sent| == p
    ensures miner.header.Some? && miner.target.Some? ==>
              forall i: nat :: i < p ==>
                && WorkerSent(hit, p, batches, i, sent[i])
                && AllOfJob(sent[i], miner.jobId, miner.version, miner.header.value.time)
    ensures miner.header.None? || miner.target.None? ==> forall i :: 0 <= i < p ==> sent[i] == []
    ensures KeepToRange(p, Unit(p), batches) ==> SentOnce(sent)
  {
    hide LittleEndian, BigEndian, BatchReports, Unit, IsHitTest, AllOfJob, Meets;
    var unit := Unit(p);
    sent := [];
    for i := 0 to p
      invariant |sent| == i
      invariant miner.header.Some? && miner.target.Some? ==>
                  forall k: nat :: k < i ==>
                    && WorkerSent(hit, p, batches, k, sent[k])
                    && AllOfJob(sent[k], miner.jobId, miner.version, miner.header.value.time)
      invariant miner.header.None? || miner.target.None? ==> forall k :: 0 <= k < i ==> sent[k] == []
    {
      WorkersFit(p, i, 0);
      var shares := MineFrom(miner, i * unit, batches[i], hit);
      sent := sent + [shares];
    }
    if miner.header.Some? && miner.target.Some? {
      if KeepToRange(p, Unit(p), batches) {
        WorkersSendOnce(hit, p, batches, sent);
      }
    }
  }

  /** One worker: a clone of the miner, set to its start. */
  method MineFrom(miner: Miner, start: Word, batches: seq<nat>, ghost hit: int -> bool) returns (shares: seq<Share>)
    requires miner.Valid() && miner.HasJob() && forall k :: 0 <= k < |batches| ==> 1 <= batches[k] < NONCES
    requires miner.header.Some? && miner.target.Some? ==>
               IsHitTest(hit, miner.compress, miner.header.value, miner.target.value)
    ensures miner.header.Some? && miner.target.Some? ==>
              && Nonces(shares) == BatchReports(hit, start, batches)
              && AllOfJob(shares, miner.jobId, miner.version, miner.header.value.time)
    ensures miner.header.None? || miner.target.None? ==> shares == []
  {
    hide LittleEndian, BigEndian, BatchReports, IsHitTest, AllOfJob, Meets;
    var worker := new Miner.Clone(miner);
    if worker.header.Some? {
      var h := worker.header.value;
      worker.header := Some(h.(nonce := start));
      SameStatic(worker.hasher, h, worker.header.value);
      if worker.target.Some? {
        SameHits(hit, worker.compress, h, worker.header.value, worker.target.value);
      }
    }
    shares := worker.Mine(batches, hit);
  }

  lemma SearchedNothing(hit: int -> bool, header: Option<Header>)
    ensures header.Some? ==> Searched(hit, header.value.nonce, [], Nonces([]), header.value.nonce)
  {
  }

  /** `hit` tells the nonces at which the header meets the target; the header's own nonce does
      not matter. */
  ghost predicate IsHitTest(hit: int -> bool, compress: Compression, h: Header, goal: nat) {
    forall nonce: Word :: hit(nonce) == Meets(compress, h, goal, nonce)
  }

  lemma SameHits(hit: int -> bool, compress: Compression, h: Header, h': Header, goal: nat)
    requires IsHitTest(hit, compress, h, goal) && h' == h.(nonce := h'.nonce)
    ensures IsHitTest(hit, compress, h', goal)
  {
    forall nonce: Word ensures hit(nonce) == Meets(compress, h', goal, nonce) {
      assert h.(nonce := nonce) == h'.(nonce := nonce);
      assert hit(nonce) == Meets(compress, h, goal, nonce);
    }
  }

  /** The inner loop of a batch: how many nonces miss before the first one that meets the target. */
  method Scan(hasher: FastSha256d, h: Header, goal: nat, batch: Word, ghost hit: int -> bool)
    returns (i: nat)
    requires hasher.Valid(h) && goal < T.U256_END
    requires IsHitTest(hit, hasher.compress, h, goal)
    modifies hasher.block1, hasher.secondBlock
    ensures hasher.Valid(h)
    ensures i <= batch && NoHitBefore(hit, h.nonce, i)
    ensures i < batch ==> hit(Wrap(h.nonce + i))
  {
    hide LittleEndian, BigEndian;
    var target := T.ToLittleEndian(goal);
    i := 0;
    while i < batch
      invariant i <= batch && hasher.Valid(h) && NoHitBefore(hit, h.nonce, i)
    {
      var nonce := Wrap(h.nonce + i);
      var ok := Attempt(hasher, h, nonce, target);
      assert ok == Meets(hasher.compress, h, goal, nonce);
      if ok {
        return;
      }
      i := i + 1;
    }
  }

  method Attempt(hasher: FastSha256d, h: Header, nonce: Word, target: seq<Byte>) returns (ok: bool)
    requires hasher.Valid(h) && |target| == 32
    modifies hasher.block1, hasher.secondBlock
    ensures hasher.Valid(h) && ok == Meets(hasher.compress, h, T.Value(target), nonce)
  {
    var hash := hasher.HashWithNonceTime(nonce, h.time, h);
    assert h.(time := h.time, nonce := nonce) == h.(nonce := nonce);
    ok := T.HashMeetsTarget(hash, target);
  }

  function Nonces(shares: seq<Share>): (n: seq<int>)
    ensures |n| == |shares|
  {
    seq(|shares|, i requires 0 <= i < |shares| => shares[i].nonce)
  }

  /** A hasher prepared for a header serves it at every nonce. */
  lemma SameStatic(hasher: FastSha256d, h: Header, h': Header)
    requires hasher.Valid(h) && h' == h.(nonce := h'.nonce)
    ensures hasher.Valid(h')
  {
    var time: Word, nonce: Word :| hasher.block1[..] == SecondChunk(h.(time := time, nonce := nonce));
    assert h.(time := time, nonce := nonce) == h'.(time := time, nonce := nonce);
    FirstChunkFixed(h, h.time, h'.nonce);
    assert h.(time := h.time, nonce := h'.nonce) == h';
  }
}
