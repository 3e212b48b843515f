/** The snapshot cache: gauges written in place on every refresh, stale series removed after. */
module SnapshotCache {
  import opened Gauges
  import opened Prelude

  /** The three per-channel gauges of one side, with the labels set at the last refresh. */
  class LabelIndex<L(==, !new)> {
    var accepted: GaugeVec?<L, int>
    var rejected: GaugeVec?<(L, string), int>
    var hashrate: GaugeVec?<L, Rate>
    var previous: set<L>
    var previousRejected: set<(L, string)>
    const codes: seq<string>   // the rejection codes of the specification

    ghost function Codes(): set<string> {
      FirstCodes(codes, |codes|)
    }

    ghost function Gauges(): set<object?>
      reads this
    {
      {accepted as object?, rejected as object?, hashrate as object?}
    }

    ghost predicate Distinct()
      reads this
    {
      && (accepted != null ==> accepted as object? != rejected && accepted as object? != hashrate)
      && (rejected != null ==> rejected as object? != hashrate)
      && this !in Gauges()
    }

    ghost function Abstract(): Family<L>
      reads this, accepted, rejected, hashrate
    {
      Family(if accepted == null then None else Some(accepted.series),
             if rejected == null then None else Some(rejected.series),
             if hashrate == null then None else Some(hashrate.series),
             previous, previousRejected)
    }

    constructor (codes: seq<string>)
      ensures Abstract() == History([], Codes()) && Distinct() && this.codes == codes
    {
      this.codes := codes;
      accepted, rejected, hashrate := null, null, null;
      previous, previousRejected := {}, {};
    }

    /** `with_metrics`: new gauges, the remembered labels stay. */
    method Attach(a: bool, r: bool, h: bool)
      modifies this
      ensures Abstract() == Step(old(Abstract()), Event.Attach(a, r, h), Codes())
      ensures (accepted != null <==> a) && (rejected != null <==> r) && (hashrate != null <==> h)
      ensures Distinct() && forall g :: g in Gauges() && g != null ==> fresh(g)
    {
      accepted, rejected, hashrate := null, null, null;
      if a { accepted := new GaugeVec<L, int>(); }
      if r { rejected := new GaugeVec<(L, string), int>(); }
      if h { hashrate := new GaugeVec<L, Rate>(); }
    }

    /** What the records of the gauges that are there say. */
    ghost predicate Follow(rs: Records<L>)
      reads this, accepted, rejected, hashrate
    {
      && (accepted != null ==> accepted.Follows(rs.accepted))
      && (rejected != null ==> rejected.Follows(rs.rejected))
      && (hashrate != null ==> hashrate.Follows(rs.hashrate))
    }

    /** The logs, series and labels that an update starts from. */
    ghost function Taken(): Start<L>
      reads this, accepted, rejected, hashrate
    {
      Start(if accepted == null then [] else accepted.log, if rejected == null then [] else rejected.log,
            if hashrate == null then [] else hashrate.log, Abstract())
    }

    /** Writes the series of one channel. */
    method WriteChannel(c: Channel<L>, ghost rs: Records<L>) returns (labels: set<(L, string)>)
      requires Distinct() && Follow(rs) && MayWrite(rs, c, Codes())
      modifies Gauges()
      ensures Follow(rs)
      ensures accepted != null ==> accepted.series == old(accepted.series) + AcceptedOf(c)
      ensures rejected != null ==> rejected.series == old(rejected.series) + RejectedOf(c, Codes())
      ensures hashrate != null ==> hashrate.series == old(hashrate.series) + HashrateOf(c)
      ensures labels == if rejected != null then RejectedOf(c, Codes()).Keys else {}
      ensures rejected != null ==> DipsToZero(old(rejected.log), rejected.log, c.labels, Codes())
    {
      hide Seeds, Counts, AcceptedOf, HashrateOf, DipsToZero;
      labels := {};
      WriteOne(if accepted != null then accepted.series else map[],
               if hashrate != null then hashrate.series else map[], c);
      if accepted != null {
        accepted.SetValue(c.labels, c.accepted, rs.accepted);
      }
      if rejected != null {
        labels := WriteRejected(rejected, c, codes, rs.rejected);
      }
      if hashrate != null && c.hashrate.Some? {
        hashrate.SetValue(c.labels, c.hashrate.value, rs.hashrate);
      }
    }

    /** The write loop of a refresh: no series is removed yet. */
    method Write(chs: seq<Channel<L>>, ghost rs: Records<L>)
      returns (current: set<L>, currentRejected: set<(L, string)>)
      requires Distinct() && Follow(rs) && forall c :: c in chs ==> MayWrite(rs, c, Codes())
      modifies Gauges()
      ensures Follow(rs)
      ensures accepted != null ==> accepted.series == Lay(old(accepted.series), AcceptedWrites(chs))
      ensures rejected != null ==> rejected.series == Lay(old(rejected.series), RejectedWrites(chs, Codes()))
      ensures hashrate != null ==> hashrate.series == Lay(old(hashrate.series), HashrateWrites(chs))
      ensures current == Labels(chs) && currentRejected == if rejected != null then RejectedLabels(chs, Codes()) else {}
      ensures rejected != null ==> AllDip(old(rejected.log), rejected.log, chs, Codes())
    {
      hide Lay, AcceptedWrites, HashrateWrites, RejectedWrites, RejectedOf, AcceptedOf, HashrateOf, Labels, MayWrite,
        DipsToZero, AllDip;
      current, currentRejected := {}, {};
      NoWrites(if accepted != null then accepted.series else map[], if rejected != null then rejected.series else map[],
               if hashrate != null then hashrate.series else map[], Codes());
      NoneToDip(if rejected != null then rejected.log else [], Codes());
      for i := 0 to |chs|
        invariant Follow(rs)
        invariant accepted != null ==> accepted.series == Lay(old(accepted.series), AcceptedWrites(chs[..i]))
        invariant rejected != null ==> rejected.series == Lay(old(rejected.series), RejectedWrites(chs[..i], Codes()))
        invariant hashrate != null ==> hashrate.series == Lay(old(hashrate.series), HashrateWrites(chs[..i]))
        invariant current == Labels(chs[..i])
        invariant currentRejected == if rejected != null then RejectedLabels(chs[..i], Codes()) else {}
        invariant rejected != null ==> AllDip(old(rejected.log), rejected.log, chs[..i], Codes())
      {
        ghost var c, done := chs[i], chs[..i];
        ghost var log := if rejected != null then rejected.log else [];
        var labels := WriteChannel(chs[i], rs);
        current, currentRejected := current + {chs[i].labels}, currentRejected + labels;
        assert chs[..i + 1] == done + [c];
        WritesSnoc(done, c, Codes());
        if accepted != null {
          LaySnoc(old(accepted.series), AcceptedWrites(done), AcceptedOf(c));
        }
        if rejected != null {
          LaySnoc(old(rejected.series), RejectedWrites(done, Codes()), RejectedOf(c, Codes()));
          LaySnoc(map[], RejectedWrites(done, Codes()), RejectedOf(c, Codes()));
          OneMoreDips(old(rejected.log), log, rejected.log, done, c, Codes());
        }
        if hashrate != null {
          LaySnoc(old(hashrate.series), HashrateWrites(done), HashrateOf(c));
        }
      }
      assert chs[..|chs|] == chs;
    }

    /** Removes the series that are not current any more, and remembers the current labels. */
    method RemoveStale(current: set<L>, currentRejected: set<(L, string)>, ghost rs: Records<L>)
      requires Distinct() && Follow(rs)
      requires previous - current <= rs.accepted.stale && previous - current <= rs.hashrate.stale
      requires rejected != null ==> previousRejected - currentRejected <= rs.rejected.stale
      modifies this`previous, this`previousRejected, Gauges()
      ensures Follow(rs)
      ensures accepted != null ==> accepted.series == old(accepted.series) - (old(previous) - current)
      ensures rejected != null ==> rejected.series == old(rejected.series) - (old(previousRejected) - currentRejected)
      ensures hashrate != null ==> hashrate.series == old(hashrate.series) - (old(previous) - current)
      ensures previous == current && previousRejected == currentRejected
      ensures rejected != null ==> old(rejected.log) <= rejected.log
    {
      if accepted != null { RemoveAll(accepted, previous - current, rs.accepted); }
      if hashrate != null { RemoveAll(hashrate, previous - current, rs.hashrate); }
      if rejected != null { RemoveAll(rejected, previousRejected - currentRejected, rs.rejected); }
      previous, previousRejected := current, currentRejected;
    }

    /** The write half of `update_metrics` is done on this side: no label is forgotten, no series gone. */
    ghost predicate Written(start: Start<L>, chs: seq<Channel<L>>, current: set<L>, currentRejected: set<(L, string)>)
      reads this, accepted, rejected, hashrate
    {
      && Follow(RecordsFor(start, chs, Codes()))
      && previous == start.family.previous && previousRejected == start.family.previousRejected
      && current == Labels(chs) && currentRejected == CurrentRejected(start.family, chs, Codes())
      && Laid(start.family.accepted, Abstract().accepted, AcceptedWrites(chs))
      && Laid(start.family.rejected, Abstract().rejected, RejectedWrites(chs, Codes()))
      && Laid(start.family.hashrate, Abstract().hashrate, HashrateWrites(chs))
      && (rejected != null ==> AllDip(start.rejected, rejected.log, chs, Codes()))
    }

    /** The write half for one side. */
    method WriteSide(chs: seq<Channel<L>>) returns (current: set<L>, currentRejected: set<(L, string)>)
      requires Distinct()
      modifies Gauges()
      ensures Written(old(Taken()), chs, current, currentRejected)
    {
      hide Lay, AcceptedWrites, HashrateWrites, RejectedWrites, Labels, Rebuild, RejectedLabels, MayWrite, FirstCodes,
        AllDip, RejectedPairs;
      ghost var rs := RecordsFor(Taken(), chs, Codes());
      forall c | c in chs ensures MayWrite(rs, c, Codes()) {
        AllMayBeWritten(rs, chs, c, Codes());
      }
      current, currentRejected := Write(chs, rs);
    }

    /** The removing half for one side. */
    method RemoveSide(current: set<L>, currentRejected: set<(L, string)>, ghost start: Start<L>,
                      ghost chs: seq<Channel<L>>)
      requires Distinct() && Written(start, chs, current, currentRejected)
      modifies this`previous, this`previousRejected, Gauges()
      ensures Updated(start, chs)
    {
      hide Lay, AcceptedWrites, HashrateWrites, RejectedWrites, Labels, Rebuild, RejectedLabels, MayWrite, FirstCodes,
        AllDip, ZeroExactly, RejectedPairs;
      ghost var rs := RecordsFor(start, chs, Codes());
      ghost var log := if rejected != null then rejected.log else [];
      RemoveStale(current, currentRejected, rs);
      if rejected != null {
        ZeroShowsExactly(rs.rejected, log, rejected.log, chs, Codes());
      }
    }

    /** What a whole update leaves.  In every state since the start, after every single write, each
        series is there that was there before, unless its labels were current at the last refresh and
        are not any more, and it shows the old value, one of the new snapshot, or a seeded zero.  The
        seeded zeros do show: for every current channel and known code, whatever the counts are. */
    ghost predicate Updated(start: Start<L>, chs: seq<Channel<L>>)
      reads this, accepted, rejected, hashrate
    {
      && Abstract() == Step(start.family, Refresh(chs), Codes())
      && Follow(RecordsFor(start, chs, Codes()))
      && (rejected != null ==>
            ZeroExactly(start.rejected, rejected.log, SeriesOf(start.family.rejected), chs, Codes()))
    }
  }

  datatype Records<L(==)> = Records(
    accepted: Record<L, int>, rejected: Record<(L, string), int>, hashrate: Record<L, Rate>)

  datatype Start<L(==)> = Start(
    accepted: seq<map<L, int>>, rejected: seq<map<(L, string), int>>, hashrate: seq<map<L, Rate>>, family: Family<L>)

  function SeriesOf<K(==), V>(g: Option<map<K, V>>): map<K, V> {
    if g.Some? then g.value else map[]
  }

  /** A gauge that is there has the writes laid over what it held. */
  ghost predicate Laid<K, V>(before: Option<map<K, V>>, now: Option<map<K, V>>, writes: seq<map<K, V>>) {
    now == if before.Some? then Some(Lay(before.value, writes)) else None
  }

  /** The records to hold against an update to these channels. */
  ghost function RecordsFor<L>(start: Start<L>, chs: seq<Channel<L>>, codes: set<string>): Records<L> {
    var f := start.family;
    var stale, staleRejected := f.previous - Labels(chs), f.previousRejected - RejectedLabels(chs, codes);
    Records(Record(start.accepted, SeriesOf(f.accepted), stale, AcceptedPairs(chs)),
            Record(start.rejected, SeriesOf(f.rejected), staleRejected, RejectedPairs(chs, codes)),
            Record(start.hashrate, SeriesOf(f.hashrate), stale, HashratePairs(chs)))
  }

  /** The values of this channel, and zeros for the codes, are among those to be written. */
  ghost predicate MayWrite<L>(rs: Records<L>, c: Channel<L>, codes: set<string>) {
    && (c.labels, c.accepted) in rs.accepted.written
    && (forall code :: code in codes ==> ((c.labels, code), 0) in rs.rejected.written)
    && (forall code :: code in c.rejected ==> ((c.labels, code), c.rejected[code]) in rs.rejected.written)
    && (c.hashrate.Some? ==> (c.labels, c.hashrate.value) in rs.hashrate.written)
  }

  lemma AllMayBeWritten<L>(rs: Records<L>, chs: seq<Channel<L>>, c: Channel<L>, codes: set<string>)
    requires c in chs && rs.accepted.written == AcceptedPairs(chs) && rs.hashrate.written == HashratePairs(chs)
    requires rs.rejected.written == RejectedPairs(chs, codes)
    ensures MayWrite(rs, c, codes)
  {
  }

  method RemoveAll<K(==), V(==)>(g: GaugeVec<K, V>, stale: set<K>, ghost r: Record<K, V>)
    requires g.Follows(r) && stale <= r.stale
    modifies g
    ensures g.series == old(g.series) - stale
    ensures g.Follows(r) && old(g.log) <= g.log
  {
    var todo := stale;
    while todo != {}
      invariant todo <= stale && g.series == old(g.series) - (stale - todo)
      invariant g.Follows(r) && old(g.log) <= g.log
    {
      var k :| k in todo;
      var found := g.RemoveLabels(k, r);
      todo := todo - {k};
    }
  }

  /** The codes as a set, the first `i` of them. */
  function FirstCodes(codes: seq<string>, i: nat): set<string>
    requires i <= |codes|
  {
    set x | x in codes[..i]
  }

  type RejectedLog<L(==)> = seq<map<(L, string), int>>

  /** In some state logged since `was`, this series is there and at zero. */
  ghost predicate ShowsZero<L>(was: RejectedLog<L>, now: RejectedLog<L>, l: L, code: string) {
    exists n :: |was| <= n < |now| && (l, code) in now[n] && now[n][(l, code)] == 0
  }

  /** On the way each of these series was at zero, whatever its count was and will be. */
  ghost predicate DipsToZero<L>(was: RejectedLog<L>, now: RejectedLog<L>, l: L, codes: set<string>) {
    was <= now && forall code :: code in codes ==> ShowsZero(was, now, l, code)
  }

  /** The series of all these channels were. */
  ghost predicate AllDip<L>(was: RejectedLog<L>, now: RejectedLog<L>, chs: seq<Channel<L>>, codes: set<string>) {
    was <= now && forall c :: c in chs ==> DipsToZero(was, now, c.labels, codes)
  }

  /** Neither what the gauge held before nor the new snapshot has a count of zero for this series. */
  ghost predicate NeverZero<L>(before: map<(L, string), int>, chs: seq<Channel<L>>, l: L, code: string) {
    && ((l, code) in before ==> before[(l, code)] != 0)
    && forall c :: c in chs && c.labels == l && code in c.rejected ==> c.rejected[code] != 0
  }

  /** A series without a count of zero before or after is seen at zero in between exactly if its
      channel is current and its code is a seeded one. */
  ghost predicate ZeroExactly<L(!new)>(was: RejectedLog<L>, now: RejectedLog<L>, before: map<(L, string), int>,
                                 chs: seq<Channel<L>>, codes: set<string>)
  {
    was <= now && forall l, code :: NeverZero(before, chs, l, code) ==>
      (ShowsZero(was, now, l, code) <==> l in Labels(chs) && code in codes)
  }

  lemma ZeroShowsExactly<L(!new)>(r: Record<(L, string), int>, written: RejectedLog<L>, now: RejectedLog<L>,
                                  chs: seq<Channel<L>>, codes: set<string>)
    requires r.written == RejectedPairs(chs, codes) && forall n :: |r.was| <= n < |now| ==> Between(now[n], r)
    requires AllDip(r.was, written, chs, codes) && written <= now
    ensures ZeroExactly(r.was, now, r.before, chs, codes)
  {
    hide Between, RejectedPairs, ShowsZero, NeverZero, DipsToZero;
    forall l, code | NeverZero(r.before, chs, l, code)
      ensures ShowsZero(r.was, now, l, code) <==> l in Labels(chs) && code in codes
    {
      if l in Labels(chs) && code in codes {
        var c :| c in chs && c.labels == l;
        StillDipped(r.was, written, now, l, codes);
        DipShows(r.was, now, l, codes, code);
      }
      if ShowsZero(r.was, now, l, code) {
        ZeroIsSeeded(r, now, chs, codes, l, code);
      }
    }
  }

  lemma DipShows<L>(was: RejectedLog<L>, now: RejectedLog<L>, l: L, codes: set<string>, code: string)
    requires DipsToZero(was, now, l, codes) && code in codes
    ensures ShowsZero(was, now, l, code)
  {
  }

  /** A zero that no count accounts for was written by the seeding. */
  lemma ZeroIsSeeded<L>(r: Record<(L, string), int>, now: RejectedLog<L>, chs: seq<Channel<L>>, codes: set<string>,
                        l: L, code: string)
    requires r.written == RejectedPairs(chs, codes) && forall n :: |r.was| <= n < |now| ==> Between(now[n], r)
    requires NeverZero(r.before, chs, l, code) && ShowsZero(r.was, now, l, code)
    ensures l in Labels(chs) && code in codes
  {
    var n :| |r.was| <= n < |now| && (l, code) in now[n] && now[n][(l, code)] == 0;
    assert Between(now[n], r);
  }

  lemma NoneToDip<L>(was: RejectedLog<L>, codes: set<string>)
    ensures AllDip(was, was, [], codes)
  {
  }

  lemma OneMoreDips<L>(was: RejectedLog<L>, log: RejectedLog<L>, now: RejectedLog<L>, done: seq<Channel<L>>,
                       c: Channel<L>, codes: set<string>)
    requires AllDip(was, log, done, codes) && DipsToZero(log, now, c.labels, codes)
    ensures AllDip(was, now, done + [c], codes)
  {
    forall d | d in done + [c] ensures DipsToZero(was, now, d.labels, codes) {
      if d in done {
        StillDipped(was, log, now, d.labels, codes);
      } else {
        DippedSince(was, log, now, c.labels, codes);
      }
    }
  }

  lemma DippedSince<L>(was: RejectedLog<L>, log: RejectedLog<L>, now: RejectedLog<L>, l: L, codes: set<string>)
    requires was <= log && DipsToZero(log, now, l, codes)
    ensures DipsToZero(was, now, l, codes)
  {
    forall code | code in codes ensures ShowsZero(was, now, l, code) {
      assert ShowsZero(log, now, l, code);
    }
  }

  lemma DipsAgain<L>(was: RejectedLog<L>, now: RejectedLog<L>, l: L, codes: set<string>, x: string,
                     m: map<(L, string), int>)
    requires DipsToZero(was, now, l, codes) && (l, x) in m && m[(l, x)] == 0
    ensures DipsToZero(was, now + [m], l, codes + {x})
  {
    StillDipped(was, now, now + [m], l, codes);
    assert (now + [m])[|now|] == m;
  }

  lemma StillDipped<L>(was: RejectedLog<L>, now: RejectedLog<L>, later: RejectedLog<L>, l: L, codes: set<string>)
    requires DipsToZero(was, now, l, codes) && now <= later
    ensures DipsToZero(was, later, l, codes)
  {
    forall code | code in codes ensures ShowsZero(was, later, l, code) {
      assert ShowsZero(was, now, l, code);
      var n :| |was| <= n < |now| && (l, code) in now[n] && now[n][(l, code)] == 0;
      assert later[n] == now[n];
    }
  }

  /** Zeros for the known codes: a count that is not zero is hidden until it is written again. */
  method SeedZeros<L(==)>(g: GaugeVec<(L, string), int>, l: L, codes: seq<string>, ghost r: Record<(L, string), int>)
    returns (labels: set<(L, string)>)
    requires g.Follows(r) && forall code :: code in codes ==> ((l, code), 0) in r.written
    modifies g
    ensures g.series == old(g.series) + Seeds(l, FirstCodes(codes, |codes|))
    ensures labels == Seeds(l, FirstCodes(codes, |codes|)).Keys
    ensures g.Follows(r) && DipsToZero(old(g.log), g.log, l, FirstCodes(codes, |codes|))
  {
    labels := {};
    ghost var was := g.series;
    for i := 0 to |codes|
      invariant g.series == was + Seeds(l, FirstCodes(codes, i))
      invariant labels == Seeds(l, FirstCodes(codes, i)).Keys
      invariant g.Follows(r) && DipsToZero(old(g.log), g.log, l, FirstCodes(codes, i))
    {
      assert FirstCodes(codes, i + 1) == FirstCodes(codes, i) + {codes[i]} by {
        assert codes[..i + 1] == codes[..i] + [codes[i]];
      }
      SeedsStep(l, FirstCodes(codes, i), codes[i]);
      OverlayUpdate(was, Seeds(l, FirstCodes(codes, i)), (l, codes[i]), 0);
      ghost var log := g.log;
      g.SetValue((l, codes[i]), 0, r);
      DipsAgain(old(g.log), log, l, FirstCodes(codes, i), codes[i], g.series);
      labels := labels + {(l, codes[i])};
    }
  }

  /** The channel's own counts, in whatever order its map yields them. */
  method WriteCounts<L(==)>(g: GaugeVec<(L, string), int>, c: Channel<L>, ghost r: Record<(L, string), int>)
    returns (labels: set<(L, string)>)
    requires g.Follows(r) && forall code :: code in c.rejected ==> ((c.labels, code), c.rejected[code]) in r.written
    modifies g
    ensures g.series == old(g.series) + Counts(c, c.rejected.Keys)
    ensures labels == Counts(c, c.rejected.Keys).Keys
    ensures g.Follows(r) && old(g.log) <= g.log
  {
    hide Counts;
    NothingWritten(c);
    labels := {};
    ghost var was := g.series;
    var todo := c.rejected.Keys;
    ghost var done: set<string> := {};
    while todo != {}
      invariant todo + done == c.rejected.Keys
      invariant g.series == was + Counts(c, done) && labels == Counts(c, done).Keys
      invariant g.Follows(r) && old(g.log) <= g.log
    {
      var code :| code in todo;
      CountsStep(c, done, code);
      OverlayUpdate(was, Counts(c, done), (c.labels, code), c.rejected[code]);
      g.SetValue((c.labels, code), c.rejected[code], r);
      labels := labels + {(c.labels, code)};
      todo, done := todo - {code}, done + {code};
    }
  }

  /** Seeding, then counting. */
  method WriteRejected<L(==)>(g: GaugeVec<(L, string), int>, c: Channel<L>, codes: seq<string>,
                              ghost r: Record<(L, string), int>)
    returns (labels: set<(L, string)>)
    requires g.Follows(r) && forall code :: code in codes ==> ((c.labels, code), 0) in r.written
    requires forall code :: code in c.rejected ==> ((c.labels, code), c.rejected[code]) in r.written
    modifies g
    ensures g.series == old(g.series) + RejectedOf(c, FirstCodes(codes, |codes|))
    ensures labels == RejectedOf(c, FirstCodes(codes, |codes|)).Keys
    ensures g.Follows(r) && DipsToZero(old(g.log), g.log, c.labels, FirstCodes(codes, |codes|))
  {
    hide Seeds, Counts, DipsToZero;
    ghost var was := g.series;
    labels := SeedZeros(g, c.labels, codes, r);
    ghost var seeded := g.log;
    var more := WriteCounts(g, c, r);
    labels := labels + more;
    OverlayAssociative(was, Seeds(c.labels, FirstCodes(codes, |codes|)), Counts(c, c.rejected.Keys));
    StillDipped(old(g.log), seeded, g.log, c.labels, FirstCodes(codes, |codes|));
  }

  // ---- The whole cache --------------------------------------------------------------------

  type ServerLabels = (string, string)            // channel id, user identity
  type ClientLabels = (string, string, string)    // client id, channel id, user identity

  datatype Server = Server(extended: seq<Channel<ServerLabels>>, standard: seq<Channel<ServerLabels>>)
  datatype Client = Client(extended: seq<Channel<ClientLabels>>, standard: seq<Channel<ClientLabels>>)

  datatype Snapshot = Snapshot(server: Option<Server>, clientsSummary: bool, clients: Option<seq<Client>>)

  /** The server loops run over the extended and then the standard channels, if there is a server. */
  function ServerChannels(s: Snapshot): seq<Channel<ServerLabels>> {
    if s.server.Some? then s.server.value.extended + s.server.value.standard else []
  }

  function Flatten(clients: seq<Client>): seq<Channel<ClientLabels>> {
    if clients == [] then [] else clients[0].extended + clients[0].standard + Flatten(clients[1..])
  }

  /** The client loops only run when there is a clients summary. */
  function ClientChannels(s: Snapshot): seq<Channel<ClientLabels>> {
    if s.clientsSummary && s.clients.Some? then Flatten(s.clients.value) else []
  }

  /** The extended channels of the server and then its standard ones, if there is a server. */
  ghost predicate ListsServer(chs: seq<Channel<ServerLabels>>, s: Snapshot) {
    if s.server.None? then chs == []
    else
      var extended, standard := s.server.value.extended, s.server.value.standard;
      && |chs| == |extended| + |standard|
      && (forall i :: 0 <= i < |extended| ==> chs[i] == extended[i])
      && (forall i :: 0 <= i < |standard| ==> chs[|extended| + i] == standard[i])
  }

  /** Client after client, the extended channels and then the standard ones, `cuts` telling where each starts. */
  predicate Piece(chs: seq<Channel<ClientLabels>>, cuts: seq<nat>, k: nat, client: Client) {
    && k + 1 < |cuts| && cuts[k] <= cuts[k + 1] <= |chs|
    && chs[cuts[k]..cuts[k + 1]] == client.extended + client.standard
  }

  ghost predicate CutByClient(chs: seq<Channel<ClientLabels>>, clients: seq<Client>, cuts: seq<nat>) {
    && |cuts| == |clients| + 1 && cuts[0] == 0 && cuts[|clients|] == |chs|
    && forall k :: 0 <= k < |clients| ==> Piece(chs, cuts, k, clients[k])
  }

  ghost predicate ListsClients(chs: seq<Channel<ClientLabels>>, s: Snapshot) {
    if s.clientsSummary && s.clients.Some? then exists cuts :: CutByClient(chs, s.clients.value, cuts) else chs == []
  }

  lemma ServerListing(s: Snapshot)
    ensures ListsServer(ServerChannels(s), s)
  {
    if s.server.Some? {
      BothParts(s.server.value.extended, s.server.value.standard);
    }
  }

  lemma BothParts(a: seq<Channel<ServerLabels>>, b: seq<Channel<ServerLabels>>)
    ensures forall i :: 0 <= i < |a| ==> (a + b)[i] == a[i]
    ensures forall i :: 0 <= i < |b| ==> (a + b)[|a| + i] == b[i]
  {
  }

  function CutsAfter(first: nat, cuts: seq<nat>): seq<nat> {
    [0] + seq(|cuts|, k requires 0 <= k < |cuts| => first + cuts[k])
  }

  lemma PieceLater(first: seq<Channel<ClientLabels>>, chs: seq<Channel<ClientLabels>>, cuts: seq<nat>, k: nat,
                   client: Client)
    requires Piece(chs, cuts, k, client)
    ensures Piece(first + chs, CutsAfter(|first|, cuts), k + 1, client)
  {
    assert (first + chs)[|first| + cuts[k]..|first| + cuts[k + 1]] == chs[cuts[k]..cuts[k + 1]];
  }

  lemma {:induction false} FlattenCuts(clients: seq<Client>) returns (cuts: seq<nat>)
    ensures CutByClient(Flatten(clients), clients, cuts)
  {
    if clients == [] {
      cuts := [0];
    } else {
      var rest := FlattenCuts(clients[1..]);
      var first := clients[0].extended + clients[0].standard;
      cuts := CutsAfter(|first|, rest);
      assert Piece(Flatten(clients), cuts, 0, clients[0]);
      hide Piece;
      forall k | 0 < k < |clients| ensures Piece(Flatten(clients), cuts, k, clients[k]) {
        PieceLater(first, Flatten(clients[1..]), rest, k - 1, clients[k]);
      }
    }
  }

  lemma ClientListing(s: Snapshot)
    ensures ListsClients(ClientChannels(s), s)
  {
    if s.clientsSummary && s.clients.Some? {
      var cuts := FlattenCuts(s.clients.value);
    }
  }

  /** The gauges of one side show the channels that the snapshot has on that side. */
  ghost predicate ServerShown(f: Family<ServerLabels>, s: Snapshot, codes: set<string>) {
    exists chs :: ListsServer(chs, s) && Shows(f, chs, codes)
  }

  ghost predicate ClientsShown(f: Family<ClientLabels>, s: Snapshot, codes: set<string>) {
    exists chs :: ListsClients(chs, s) && Shows(f, chs, codes)
  }

  lemma ServerIsShown(f: Family<ServerLabels>, s: Snapshot, codes: set<string>)
    requires Indexed(f)
    ensures var t := Step(f, Event.Refresh(ServerChannels(s)), codes); Indexed(t) && ServerShown(t, s, codes)
  {
    hide ServerChannels, Step, Shows, Rebuilt, Indexed, ListsServer;
    RefreshRebuilds(f, ServerChannels(s), codes);
    RebuiltShows(Step(f, Event.Refresh(ServerChannels(s)), codes), ServerChannels(s), codes);
    ServerListing(s);
  }

  lemma ClientsAreShown(f: Family<ClientLabels>, s: Snapshot, codes: set<string>)
    requires Indexed(f)
    ensures var t := Step(f, Event.Refresh(ClientChannels(s)), codes); Indexed(t) && ClientsShown(t, s, codes)
  {
    hide ClientChannels, Step, Shows, Rebuilt, Indexed, ListsClients;
    RefreshRebuilds(f, ClientChannels(s), codes);
    RebuiltShows(Step(f, Event.Refresh(ClientChannels(s)), codes), ClientChannels(s), codes);
    ClientListing(s);
  }

  /** Every gauge of a side is there and empty, or none is. */
  predicate AllOrNone<L(==)>(f: Family<L>, metrics: bool) {
    && f.accepted == (if metrics then Some(map[]) else None)
    && f.rejected == (if metrics then Some(map[]) else None)
    && f.hashrate == (if metrics then Some(map[]) else None)
  }

  lemma AttachedGauges<L>(f: Family<L>, metrics: bool, codes: set<string>)
    ensures var t := Step(f, Event.Attach(metrics, metrics, metrics), codes);
            AllOrNone(t, metrics) && (Indexed(f) ==> Indexed(t))
  {
  }

  class SnapshotCache {
    const server: LabelIndex<ServerLabels>
    const client: LabelIndex<ClientLabels>
    var snapshot: Snapshot
    var attached: bool              // are there metrics at all?

    /** What every history of attachments and refreshes keeps: no series is left behind. */
    ghost predicate NothingForgotten()
      reads server, server.accepted, server.rejected, server.hashrate
      reads client, client.accepted, client.rejected, client.hashrate
    {
      Indexed(server.Abstract()) && Indexed(client.Abstract())
    }

    ghost predicate Separate()
      reads server, client
    {
      && server.Distinct() && client.Distinct()
      && (server.Gauges() * client.Gauges() <= {null})
      && this !in server.Gauges() + client.Gauges()
      && server as object !in client.Gauges() && client as object !in server.Gauges()
    }

    constructor (codes: seq<string>)
      ensures Separate() && NothingForgotten() && server.codes == codes && client.codes == codes && !attached
      ensures server.Abstract() == History([], server.Codes()) && client.Abstract() == History([], client.Codes())
    {
      server := new LabelIndex<ServerLabels>(codes);
      client := new LabelIndex<ClientLabels>(codes);
      snapshot := Snapshot(None, false, None);
      attached := false;
    }

    /** `with_metrics`: new gauges, on each side all or none. */
    method WithMetrics(serverMetrics: bool, clientMetrics: bool)
      requires Separate()
      modifies this`attached, server, client
      ensures Separate() && attached && (old(NothingForgotten()) ==> NothingForgotten())
      ensures AllOrNone(server.Abstract(), serverMetrics) && AllOrNone(client.Abstract(), clientMetrics)
      ensures server.Abstract() ==
              Step(old(server.Abstract()), Event.Attach(serverMetrics, serverMetrics, serverMetrics), server.Codes())
      ensures client.Abstract() ==
              Step(old(client.Abstract()), Event.Attach(clientMetrics, clientMetrics, clientMetrics), client.Codes())
    {
      hide Step, FirstCodes, Indexed;
      AttachedGauges(server.Abstract(), serverMetrics, server.Codes());
      AttachedGauges(client.Abstract(), clientMetrics, client.Codes());
      server.Attach(serverMetrics, serverMetrics, serverMetrics);
      client.Attach(clientMetrics, clientMetrics, clientMetrics);
      attached := true;
    }

    /** The write half of `update_metrics`.  The sides share no gauge, so each keeps what it was given. */
    method WriteBoth(s: Snapshot)
      returns (ofServer: set<ServerLabels>, serverRejected: set<(ServerLabels, string)>,
               ofClients: set<ClientLabels>, clientRejected: set<(ClientLabels, string)>)
      requires Separate()
      modifies server.Gauges(), client.Gauges()
      ensures server.Written(old(server.Taken()), ServerChannels(s), ofServer, serverRejected)
      ensures client.Written(old(client.Taken()), ClientChannels(s), ofClients, clientRejected)
    {
      hide ServerChannels, ClientChannels, LabelIndex<ServerLabels>.Written;
      ofServer, serverRejected := server.WriteSide(ServerChannels(s));
      ofClients, clientRejected := client.WriteSide(ClientChannels(s));
    }

    /** The removing half, started only when both sides are written. */
    method RemoveBoth(ofServer: set<ServerLabels>, serverRejected: set<(ServerLabels, string)>,
                      ofClients: set<ClientLabels>, clientRejected: set<(ClientLabels, string)>, ghost s: Snapshot,
                      ghost serverStart: Start<ServerLabels>, ghost clientStart: Start<ClientLabels>)
      requires Separate()
      requires server.Written(serverStart, ServerChannels(s), ofServer, serverRejected)
      requires client.Written(clientStart, ClientChannels(s), ofClients, clientRejected)
      modifies server`previous, server`previousRejected, client`previous, client`previousRejected,
               server.Gauges(), client.Gauges()
      ensures Separate()
      ensures server.Updated(serverStart, ServerChannels(s)) && client.Updated(clientStart, ClientChannels(s))
    {
      hide ServerChannels, ClientChannels, LabelIndex<ServerLabels>.Written, LabelIndex<ServerLabels>.Updated;
      server.RemoveSide(ofServer, serverRejected, serverStart, ServerChannels(s));
      client.RemoveSide(ofClients, clientRejected, clientStart, ClientChannels(s));
    }

    /** One refresh; without metrics it only takes the snapshot. */
    method Refresh(s: Snapshot)
      requires Separate()
      modifies this`snapshot, server`previous, server`previousRejected, client`previous, client`previousRejected,
               server.Gauges(), client.Gauges()
      ensures snapshot == s && Separate()
      ensures attached ==> server.Updated(old(server.Taken()), ServerChannels(s))
      ensures attached ==> client.Updated(old(client.Taken()), ClientChannels(s))
      ensures !attached ==> server.Taken() == old(server.Taken()) && client.Taken() == old(client.Taken())
      // what can be read off afterwards, on the snapshot itself
      ensures old(NothingForgotten()) ==> NothingForgotten()
      ensures old(NothingForgotten()) && attached ==>
                && ServerShown(server.Abstract(), s, server.Codes())
                && ClientsShown(client.Abstract(), s, client.Codes())
    {
      hide ServerChannels, ClientChannels, ServerShown, ClientsShown, Indexed, Step,
        LabelIndex<ServerLabels>.Written, LabelIndex<ServerLabels>.Updated;
      if attached {
        ghost var serverStart, clientStart := server.Taken(), client.Taken();
        var ofServer, serverRejected, ofClients, clientRejected := WriteBoth(s);
        RemoveBoth(ofServer, serverRejected, ofClients, clientRejected, s, serverStart, clientStart);
        BothShown(s, serverStart, clientStart);
      }
      snapshot := s;
    }

    lemma BothShown(s: Snapshot, serverStart: Start<ServerLabels>, clientStart: Start<ClientLabels>)
      requires server.Updated(serverStart, ServerChannels(s)) && client.Updated(clientStart, ClientChannels(s))
      ensures Indexed(serverStart.family) && Indexed(clientStart.family) ==>
                && NothingForgotten()
                && ServerShown(server.Abstract(), s, server.Codes())
                && ClientsShown(client.Abstract(), s, client.Codes())
    {
      hide ServerChannels, ClientChannels, ServerShown, ClientsShown, Indexed, Step, FirstCodes;
      if Indexed(serverStart.family) && Indexed(clientStart.family) {
        ServerIsShown(serverStart.family, s, server.Codes());
        ClientsAreShown(clientStart.family, s, client.Codes());
      }
    }
  }
}
