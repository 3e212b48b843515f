/**
 * Replay of cached shares once a custom job is acknowledged: which shares are submitted,
 * under which sequence numbers, and where solutions are pushed.
 */
module ShareReplay {
  import opened Prelude

  const COUNTER_END: nat := 0x1_0000_0000
  const MAX_EXTRANONCE: nat := 32

  type Counter = n: nat | n < COUNTER_END
  type Bytes = seq<Byte>

  datatype Share = Share(channelId: nat, sequenceNumber: Counter, jobId: nat, nonce: nat, ntime: nat,
                         version: nat, extranonce: Bytes)

  /** The chain tip the solutions are built on. */
  datatype Tip = Tip(nbits: nat, prevHash: Bytes)

  /** `Unlisted` is an error variant without an arm of its own, which panics. */
  datatype Verdict = Valid | BlockFound | Rejected | Unlisted

  datatype Message =
    | Submit(share: Share)
    | PushSolution(extranonce: Bytes, ntime: nat, nonce: nat, version: nat, nbits: nat, prevHash: Bytes)

  /** The upstream channel: judging a share may change its state, and its extranonce prefix can be read. */
  datatype Channel<!C> = Channel(judge: (C, Share) -> (C, Verdict), prefix: C -> Bytes)

  /** One replay: the shares, and what the handler finds when it starts. */
  datatype Run<!C> = Run(up: Channel<C>, start: C, shares: seq<Share>, tip: Tip, counter: Counter)

  function Bump(counter: Counter): (next: Counter)
    ensures next == (counter + 1) % 0x1_0000_0000
  {
    if counter + 1 == COUNTER_END then 0 else counter + 1
  }

  /** Field by field: the full extranonce is the prefix of the channel and then that of the share, the block
      fields are the share's, and what it builds on is the tip's. */
  predicate Solves(m: Message, share: Share, prefix: Bytes, tip: Tip) {
    && m.PushSolution?
    && |m.extranonce| == |prefix| + |share.extranonce|
    && m.extranonce[..|prefix|] == prefix && m.extranonce[|prefix|..] == share.extranonce
    && m.ntime == share.ntime && m.nonce == share.nonce && m.version == share.version
    && m.nbits == tip.nbits && m.prevHash == tip.prevHash
  }

  function SolutionFor(share: Share, prefix: Bytes, tip: Tip): Message {
    PushSolution(prefix + share.extranonce, share.ntime, share.nonce, share.version, tip.nbits, tip.prevHash)
  }

  /** The state of the channel once the first `k` shares have been judged. */
  function StateAt<C>(run: Run<C>, k: nat): C
    requires k <= |run.shares|
  {
    if k == 0 then run.start else run.up.judge(StateAt(run, k - 1), run.shares[k - 1]).0
  }

  function VerdictAt<C>(run: Run<C>, k: nat): Verdict
    requires k < |run.shares|
  {
    run.up.judge(StateAt(run, k), run.shares[k]).1
  }

  predicate Accepted<C>(run: Run<C>, k: nat)
    requires k < |run.shares|
  {
    VerdictAt(run, k) in {Valid, BlockFound}
  }

  /** The prefix a solution for share `k` carries: the channel is read after the share was judged. */
  function PrefixAt<C>(run: Run<C>, k: nat): Bytes
    requires k < |run.shares|
  {
    run.up.prefix(StateAt(run, k + 1))
  }

  /** Share `k` ends the replay in a panic: an unlisted error, or a full extranonce that does not fit. */
  predicate Panics<C>(run: Run<C>, k: nat)
    requires k < |run.shares|
  {
    match VerdictAt(run, k)
    case Unlisted => true
    case BlockFound => |PrefixAt(run, k) + run.shares[k].extranonce| > MAX_EXTRANONCE
    case _ => false
  }

  /** How many of the first `k` shares were accepted: how often the counter was bumped. */
  function AcceptedBefore<C>(run: Run<C>, k: nat): (n: nat)
    requires k <= |run.shares|
    ensures n <= k
  {
    if k == 0 then 0
    else AcceptedBefore(run, k - 1) + if Accepted(run, k - 1) then 1 else 0
  }

  /** What the counter holds once it was bumped `n` times. */
  function After(counter: Counter, n: nat): Counter {
    (counter + n) % COUNTER_END
  }

  function Numbered(share: Share, counter: Counter, accepted: nat): Share {
    share.(sequenceNumber := After(counter, accepted))
  }

  /** The messages share `k` adds, its number being fixed by the accepted shares before it. */
  function MessagesOf<C>(run: Run<C>, k: nat): seq<Message>
    requires k < |run.shares|
  {
    var sent := Numbered(run.shares[k], run.counter, AcceptedBefore(run, k));
    match VerdictAt(run, k)
    case Valid => [Submit(sent)]
    case BlockFound => [SolutionFor(run.shares[k], PrefixAt(run, k), run.tip), Submit(sent)]
    case _ => []
  }

  function MessagesUpTo<C>(run: Run<C>, k: nat)
      : (messages: seq<Message>)
    requires k <= |run.shares|
  {
    if k == 0 then []
    else MessagesUpTo(run, k - 1) + MessagesOf(run, k - 1)
  }

  /** `share.job_id = job_id` before each share is judged. */
  function ForJob(shares: seq<Share>, jobId: nat): (r: seq<Share>)
    ensures |r| == |shares| && forall i :: 0 <= i < |r| ==> r[i] == shares[i].(jobId := jobId)
  {
    seq(|shares|, i requires 0 <= i < |shares| => shares[i].(jobId := jobId))
  }

  // -- What the upstream sees -------------------------------------------------------------------

  function Submitted(messages: seq<Message>): (r: seq<Share>) {
    if messages == [] then []
    else
      var last := messages[|messages| - 1];
      Submitted(messages[..|messages| - 1]) + if last.Submit? then [last.share] else []
  }

  lemma {:induction false} SubmittedJoins(a: seq<Message>, b: seq<Message>)
    ensures Submitted(a + b) == Submitted(a) + Submitted(b)
  {
    if b == [] {
      assert a + b == a;
    } else {
      var m := |b| - 1;
      SubmittedJoins(a, b[..m]);
      assert (a + b)[..|a + b| - 1] == a + b[..m];
      assert (a + b)[|a + b| - 1] == b[m];
    }
  }

  /** The shares that are accepted, in the order of the cache. */
  function AcceptedOnes<C>(run: Run<C>, k: nat): (r: seq<Share>)
    requires k <= |run.shares|
    ensures |r| == AcceptedBefore(run, k)
  {
    if k == 0 then []
    else AcceptedOnes(run, k - 1) + if Accepted(run, k - 1) then [run.shares[k - 1]] else []
  }

  lemma MessagesNext<C>(run: Run<C>, k: nat)
    requires k < |run.shares|
    ensures MessagesUpTo(run, k + 1) == MessagesUpTo(run, k) + MessagesOf(run, k)
  {
  }

  lemma SubmittedOfOne<C>(run: Run<C>, k: nat)
    requires k < |run.shares|
    ensures Submitted(MessagesOf(run, k)) ==
            if Accepted(run, k)
            then [Numbered(run.shares[k], run.counter, AcceptedBefore(run, k))] else []
  {
    hide After;
    var one := MessagesOf(run, k);
    if |one| == 2 {
      assert one == one[..1] + [one[1]] && one[..1] == [one[0]];
      SubmittedJoins(one[..1], [one[1]]);
    }
  }

  /** `sent` are the `accepted` shares, their numbers counting up by one and wrapping at 2^32. */
  predicate NumberedFrom(counter: Counter, sent: seq<Share>, accepted: seq<Share>) {
    |sent| == |accepted| && forall i :: 0 <= i < |sent| ==>
      sent[i] == accepted[i].(sequenceNumber := (counter + i) % 0x1_0000_0000)
  }

  lemma OneMoreNumbered(counter: Counter, sent: seq<Share>, accepted: seq<Share>, share: Share)
    requires NumberedFrom(counter, sent, accepted)
    ensures NumberedFrom(counter, sent + [Numbered(share, counter, |accepted|)], accepted + [share])
  {
    hide NumberedFrom;
    NumberIs(share, counter, |accepted|);
    OneMoreWith(counter, sent, accepted, share, After(counter, |accepted|));
  }

  lemma NumberIs(share: Share, counter: Counter, n: nat)
    ensures Numbered(share, counter, n) == share.(sequenceNumber := After(counter, n))
    ensures After(counter, n) == (counter + n) % 0x1_0000_0000
  {
  }

  lemma OneMoreWith(counter: Counter, sent: seq<Share>, accepted: seq<Share>, share: Share, number: Counter)
    requires NumberedFrom(counter, sent, accepted) && number == (counter + |accepted|) % 0x1_0000_0000
    ensures NumberedFrom(counter, sent + [share.(sequenceNumber := number)], accepted + [share])
  {
  }

  /** One more share: both lists grow by it, or neither does. */
  lemma OneMoreShare<C>(run: Run<C>, k: nat)
    requires k < |run.shares|
    ensures var share := run.shares[k];
            var sent, accepted := Submitted(MessagesUpTo(run, k)), AcceptedOnes(run, k);
            var sentNext, acceptedNext := Submitted(MessagesUpTo(run, k + 1)), AcceptedOnes(run, k + 1);
            if Accepted(run, k)
            then sentNext == sent + [Numbered(share, run.counter, |accepted|)] && acceptedNext == accepted + [share]
            else sentNext == sent && acceptedNext == accepted
  {
    MessagesNext(run, k);
    SubmittedOfOne(run, k);
    SubmittedJoins(MessagesUpTo(run, k), MessagesOf(run, k));
    assert AcceptedOnes(run, k + 1) == AcceptedOnes(run, k) + if Accepted(run, k) then [run.shares[k]] else [];
    hide *;
    assert forall s: seq<Share> :: s + [] == s;
  }

  /** Exactly the accepted shares are submitted, in order, under consecutive numbers. */
  lemma {:induction false} SubmitsAreTheAccepted<C>(run: Run<C>, k: nat)
    requires k <= |run.shares|
    ensures NumberedFrom(run.counter, Submitted(MessagesUpTo(run, k)), AcceptedOnes(run, k))
  {
    hide *;
    if k > 0 {
      SubmitsAreTheAccepted(run, k - 1);
      OneMoreShare(run, k - 1);
      OneMoreNumbered(run.counter, Submitted(MessagesUpTo(run, k - 1)), AcceptedOnes(run, k - 1), run.shares[k - 1]);
    } else {
      NoneYet(run);
    }
  }

  lemma NoneYet<C>(run: Run<C>)
    ensures NumberedFrom(run.counter, Submitted(MessagesUpTo(run, 0)), AcceptedOnes(run, 0))
  {
  }

  lemma SameNumber(counter: Counter, i: nat, j: nat)
    requires i <= j
    ensures After(counter, i) == After(counter, j) <==> (j - i) % COUNTER_END == 0
  {
    var a, b := counter + i, counter + j;
    var d := b / COUNTER_END - a / COUNTER_END;
    assert b - a == d * COUNTER_END + (b % COUNTER_END - a % COUNTER_END);
  }

  /** No number is used twice unless the whole range of the counter has been used up. */
  lemma NumbersAreDistinct<C>(run: Run<C>, i: nat, j: nat)
    requires i < j < |Submitted(MessagesUpTo(run, |run.shares|))|
    ensures var sent := Submitted(MessagesUpTo(run, |run.shares|));
            sent[i].sequenceNumber == sent[j].sequenceNumber <==> (j - i) % COUNTER_END == 0
  {
    hide Submitted, MessagesUpTo, AcceptedOnes, After;
    SubmitsAreTheAccepted(run, |run.shares|);
    SameNumber(run.counter, i, j);
  }

  /** What share `k` adds stays a block of its own in the whole list of messages. */
  lemma {:induction false} BlockOf<C>(run: Run<C>, k: nat, n: nat)
    requires k < n <= |run.shares|
    ensures var at := |MessagesUpTo(run, k)|;
            var one := MessagesOf(run, k);
            var all := MessagesUpTo(run, n);
            at + |one| <= |all| && all[at..at + |one|] == one
    decreases n
  {
    hide After, MessagesOf;
    if k + 1 < n {
      BlockOf(run, k, n - 1);
      var at := |MessagesUpTo(run, k)|;
      var one := MessagesOf(run, k);
      var before, all := MessagesUpTo(run, n - 1), MessagesUpTo(run, n);
      assert all[..|before|] == before;
      assert all[at..at + |one|] == before[at..at + |one|];
    }
  }

  /** Every message comes from one share: the converse of `BlockOf`. */
  lemma {:induction false} OriginOf<C>(run: Run<C>, n: nat, i: nat)
      returns (k: nat)
    requires n <= |run.shares| && i < |MessagesUpTo(run, n)|
    ensures k < n
    ensures var at := |MessagesUpTo(run, k)|;
            at <= i < at + |MessagesOf(run, k)|
    decreases n
  {
    if i < |MessagesUpTo(run, n - 1)| {
      k := OriginOf(run, n - 1, i);
    } else {
      k := n - 1;
    }
  }

  /** A pushed solution belongs to a share that found a block, and stands directly before its submit. */
  lemma SolutionBeforeSubmit<C>(run: Run<C>, i: nat)
      returns (k: nat)
    requires var all := MessagesUpTo(run, |run.shares|); i < |all| && all[i].PushSolution?
    ensures k < |run.shares| && VerdictAt(run, k) == BlockFound
    ensures var all := MessagesUpTo(run, |run.shares|);
            && i + 1 < |all|
            && all[i + 1] == Submit(Numbered(run.shares[k], run.counter, AcceptedBefore(run, k)))
            && Solves(all[i], all[i + 1].share, run.up.prefix(run.up.judge(StateAt(run, k), run.shares[k]).0), run.tip)
  {
    hide After, MessagesUpTo;
    k := OriginOf(run, |run.shares|, i);
    BlockOf(run, k, |run.shares|);
    var at := |MessagesUpTo(run, k)|;
    var one := MessagesOf(run, k);
    var all := MessagesUpTo(run, |run.shares|);
    assert all[i] == all[at..at + |one|][i - at];
    assert |one| == 2 && i == at;
    assert all[i + 1] == all[at..at + |one|][1];
  }

  /** A share that found a block is sent as a solution and a submit, a valid one as a submit alone. */
  lemma EachShareInItsPlace<C>(run: Run<C>, k: nat)
    requires k < |run.shares|
    ensures var at := |MessagesUpTo(run, k)|;
            var all := MessagesUpTo(run, |run.shares|);
            var sent := Numbered(run.shares[k], run.counter, AcceptedBefore(run, k));
            match VerdictAt(run, k)
            case BlockFound => && at + 1 < |all|
                               && Solves(all[at], sent, PrefixAt(run, k), run.tip)
                               && all[at + 1] == Submit(sent)
            case Valid => at < |all| && all[at] == Submit(sent)
            case _ => true
  {
    hide After, MessagesUpTo;
    BlockOf(run, k, |run.shares|);
    var at := |MessagesUpTo(run, k)|;
    var one := MessagesOf(run, k);
    var all := MessagesUpTo(run, |run.shares|);
    if |one| > 0 {
      assert all[at] == all[at..at + |one|][0];
    }
    if |one| > 1 {
      assert all[at + 1] == all[at..at + |one|][1];
    }
  }

  // -- The loop ---------------------------------------------------------------------------------

  lemma BumpsOnce(counter: Counter, n: nat)
    ensures Bump(After(counter, n)) == After(counter, n + 1)
  {
  }

  function Drawn<C>(run: Run<C>, k: nat): Counter
    requires k <= |run.shares|
  {
    After(run.counter, AcceptedBefore(run, k))
  }

  predicate NonePanicked<C>(run: Run<C>, n: nat)
    requires n <= |run.shares|
  {
    forall k :: 0 <= k < n ==> !Panics(run, k)
  }

  lemma Regroup<T>(a: seq<T>, b: seq<T>, c: seq<T>)
    ensures (a + b) + c == a + (b + c)
  {
  }

  lemma AtStart<C>(run: Run<C>)
    ensures StateAt(run, 0) == run.start && Drawn(run, 0) == run.counter
    ensures NonePanicked(run, 0) && MessagesUpTo(run, 0) == []
  {
  }

  /** What share `k` adds to the whole replay, verdict by verdict. */
  lemma TurnInRun<C>(run: Run<C>, k: nat)
    requires k < |run.shares|
    ensures var judged := run.up.judge(StateAt(run, k), run.shares[k]);
            var before, after := MessagesUpTo(run, k), MessagesUpTo(run, k + 1);
            var sent := Submit(run.shares[k].(sequenceNumber := Drawn(run, k)));
            && StateAt(run, k + 1) == judged.0
            && NonePanicked(run, k + 1) == (NonePanicked(run, k) && !Panics(run, k))
            && (match judged.1
                case Valid =>
                  && !Panics(run, k) && Drawn(run, k + 1) == Bump(Drawn(run, k)) && after == before + [sent]
                case BlockFound =>
                  var solution := SolutionFor(run.shares[k], run.up.prefix(judged.0), run.tip);
                  && Panics(run, k) == (|run.up.prefix(judged.0)| + |run.shares[k].extranonce| > 32)
                  && Drawn(run, k + 1) == Bump(Drawn(run, k)) && after == before + [solution, sent]
                case Rejected => !Panics(run, k) && Drawn(run, k + 1) == Drawn(run, k) && after == before
                case Unlisted => Panics(run, k) && Drawn(run, k + 1) == Drawn(run, k))
  {
    hide MessagesUpTo, After;
    BumpsOnce(run.counter, AcceptedBefore(run, k));
    MessagesNext(run, k);
  }

  /** The part of the channel manager that one acknowledgement works on. */
  class Replay<C> {
    const up: Channel<C>
    const tip: Tip
    var channel: C
    var sequenceNumberFactory: Counter
    var messages: seq<Message>

    constructor (up: Channel<C>, tip: Tip, channel: C, sequenceNumberFactory: Counter)
      ensures this.up == up && this.tip == tip && this.channel == channel
      ensures this.sequenceNumberFactory == sequenceNumberFactory && messages == []
    {
      this.up, this.tip, this.channel := up, tip, channel;
      this.sequenceNumberFactory, messages := sequenceNumberFactory, [];
    }

    /** `ok` is false when the call panics: the number drawn for a block stays drawn, nothing is queued. */
    method ValidateCachedShare(share: Share) returns (ok: bool)
      modifies this
      ensures channel == up.judge(old(channel), share).0
      ensures match up.judge(old(channel), share).1
              // drawn, bumped and sent under the number drawn
              case Valid =>
                && ok && sequenceNumberFactory == Bump(old(sequenceNumberFactory))
                && messages == old(messages) + [Submit(share.(sequenceNumber := old(sequenceNumberFactory)))]
              // the solution first, unless the full extranonce does not fit
              case BlockFound =>
                var solution := SolutionFor(share, up.prefix(channel), tip);
                && ok == (|up.prefix(channel)| + |share.extranonce| <= 32)
                && sequenceNumberFactory == Bump(old(sequenceNumberFactory))
                && Solves(solution, share, up.prefix(channel), tip)
                && messages == old(messages)
                   + if ok then [solution, Submit(share.(sequenceNumber := old(sequenceNumberFactory)))] else []
              case Rejected =>
                ok && sequenceNumberFactory == old(sequenceNumberFactory) && messages == old(messages)
              case Unlisted =>
                !ok && sequenceNumberFactory == old(sequenceNumberFactory) && messages == old(messages)
    {
      var judged := up.judge(channel, share);
      channel := judged.0;
      match judged.1
      case Valid =>
        var drawn := sequenceNumberFactory;
        sequenceNumberFactory := Bump(drawn);
        messages := messages + [Submit(share.(sequenceNumber := drawn))];
        ok := true;
      case BlockFound =>
        var drawn := sequenceNumberFactory;
        sequenceNumberFactory := Bump(drawn);
        var channelExtranonce := up.prefix(channel);
        channelExtranonce := channelExtranonce + share.extranonce;
        if |channelExtranonce| > MAX_EXTRANONCE {
          return false;
        }
        messages := messages
          + [PushSolution(channelExtranonce, share.ntime, share.nonce, share.version, tip.nbits, tip.prevHash)];
        messages := messages + [Submit(share.(sequenceNumber := drawn))];
        ok := true;
      case Rejected =>
        ok := true;
      case Unlisted =>
        ok := false;
    }

    /**
     * The loop over the cached shares. It stops early exactly at the first share that panics, and
     * the messages gathered so far are then lost with the handler.
     */
    method ReplayCachedShares(cachedShares: seq<Share>, jobId: nat) returns (done: nat)
      modifies this
      ensures done <= |cachedShares|
      ensures var run := Run(up, old(channel), ForJob(cachedShares, jobId), tip, old(sequenceNumberFactory));
              && NonePanicked(run, done)
              && (done < |cachedShares| ==> Panics(run, done))
              && messages == old(messages)
                 + MessagesUpTo(run, done)
              && var judged := if done < |cachedShares| then done + 1 else done;
                 && channel == StateAt(run, judged)
                 && sequenceNumberFactory == Drawn(run, judged)
    {
      hide *;
      ghost var run := Run(up, channel, ForJob(cachedShares, jobId), tip, sequenceNumberFactory);
      done := 0;
      AtStart(run);
      while done < |cachedShares|
        invariant done <= |cachedShares|
        invariant NonePanicked(run, done)
        invariant messages == old(messages) + MessagesUpTo(run, done)
        invariant channel == StateAt(run, done)
        invariant sequenceNumberFactory == Drawn(run, done)
      {
        var share := cachedShares[done].(jobId := jobId);
        assert share == run.shares[done];
        TurnInRun(run, done);
        ghost var queued := messages;
        var ok := ValidateCachedShare(share);
        Regroup(old(messages), MessagesUpTo(run, done), messages[|queued|..]);
        if !ok {
          return;
        }
        done := done + 1;
      }
    }
  }
}
