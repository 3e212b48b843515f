/**
 Labelled gauge families kept up to date by writing the current series and removing only the
 stale ones.  One family is the three per-channel gauges of the server side or of the client side.
 */
module Gauges {
  import opened Prelude

  /**
   What is held against a gauge while it is brought up to date: its log and series at the start,
   the series that may go, and the pairs of labels and value that may be written.
   */
  datatype Record<K(==), V(==)> = Record(was: seq<map<K, V>>, before: map<K, V>, stale: set<K>, written: set<(K, V)>)

  /** No gap, and no value that is neither the old one nor a written one. */
  ghost predicate Between<K, V>(m: map<K, V>, r: Record<K, V>) {
    && r.before.Keys - r.stale <= m.Keys
    && forall k :: k in m ==> (k in r.before && m[k] == r.before[k]) || (k, m[k]) in r.written
  }

  /** A GaugeVec; `log` records every state it goes through, one per write. */
  class GaugeVec<K(==), V(==)> {
    var series: map<K, V>
    ghost var log: seq<map<K, V>>

    /** In every state since the record was taken, after every single write. */
    ghost predicate Follows(r: Record<K, V>)
      reads this
    {
      r.was <= log && Between(series, r) && forall n :: |r.was| <= n < |log| ==> Between(log[n], r)
    }

    constructor ()
      ensures series == map[] && log == []
    {
      series, log := map[], [];
    }

    /** `with_label_values(..).set(..)` creates the series if need be. */
    method SetValue(k: K, v: V, ghost r: Record<K, V>)
      requires Follows(r) && (k, v) in r.written
      modifies this
      ensures series == old(series)[k := v] && log == old(log) + [series]
      ensures Follows(r)
    {
      series := series[k := v];
      log := log + [series];
    }

    /** Removing a series that is not there only reports an error. */
    method RemoveLabels(k: K, ghost r: Record<K, V>) returns (found: bool)
      requires Follows(r) && k in r.stale
      modifies this
      ensures found == (k in old(series))
      ensures series == old(series) - {k} && log == old(log) + [series]
      ensures Follows(r)
    {
      found := k in series;
      series := series - {k};
      log := log + [series];
    }
  }

  // ---- What one refresh does to one gauge -------------------------------------------------

  /** Laying the writes of each channel over a gauge, one channel after the other. */
  function Lay<K(==), V>(m: map<K, V>, writes: seq<map<K, V>>): map<K, V> {
    if writes == [] then m else Lay(m, writes[..|writes| - 1]) + writes[|writes| - 1]
  }

  /** The gauge one gets by clearing it and writing everything again. */
  function Rebuild<K(==), V>(writes: seq<map<K, V>>): map<K, V> {
    Lay(map[], writes)
  }

  lemma OverlayAssociative<K, V>(a: map<K, V>, b: map<K, V>, c: map<K, V>)
    ensures (a + b) + c == a + (b + c)
  {
  }

  lemma OverlayUpdate<K, V>(m: map<K, V>, w: map<K, V>, k: K, v: V)
    ensures (m + w)[k := v] == m + w[k := v]
    ensures w[k := v].Keys == w.Keys + {k}
  {
  }

  lemma {:induction false} LayIsOverlay<K, V>(m: map<K, V>, writes: seq<map<K, V>>)
    ensures Lay(m, writes) == m + Rebuild(writes)
  {
    if writes != [] {
      var before := writes[..|writes| - 1];
      LayIsOverlay(m, before);
      OverlayAssociative(m, Rebuild(before), writes[|writes| - 1]);
    }
  }

  /** What a gauge holds after a refresh: all writes, then the series that were current before and
      are not any more are taken out. */
  function Refreshed<K(==), V>(m: map<K, V>, writes: seq<map<K, V>>, previous: set<K>, current: set<K>): map<K, V> {
    Lay(m, writes) - (previous - current)
  }

  /** A refresh equals clearing and rebuilding exactly when every leftover series is a stale one. */
  lemma RefreshIsRebuildExactly<K, V>(m: map<K, V>, writes: seq<map<K, V>>, previous: set<K>, current: set<K>)
    requires Rebuild(writes).Keys <= current
    ensures Refreshed(m, writes, previous, current) == Rebuild(writes) <==>
            m.Keys - Rebuild(writes).Keys <= previous - current
  {
    LayIsOverlay(m, writes);
    var r, w := Refreshed(m, writes, previous, current), Rebuild(writes);
    assert r.Keys == (m.Keys + w.Keys) - (previous - current);
    if r.Keys == w.Keys {
      forall k | k in m.Keys - w.Keys ensures k in previous - current {
        assert k !in r.Keys;
      }
    }
  }

  // ---- The gauges of a family ---------------------------------------------------------------

  type Rate = real

  /** A channel of a snapshot; the client side always has a hashrate. */
  datatype Channel<L> = Channel(labels: L, accepted: int, rejected: map<string, int>, hashrate: Option<Rate>)

  function AcceptedOf<L(==)>(c: Channel<L>): map<L, int> {
    map[c.labels := c.accepted]
  }

  function HashrateOf<L(==)>(c: Channel<L>): map<L, Rate> {
    if c.hashrate.Some? then map[c.labels := c.hashrate.value] else map[]
  }

  function Seeds<L(==)>(l: L, codes: set<string>): map<(L, string), int> {
    map code | code in codes :: (l, code) := 0
  }

  function Counts<L(==)>(c: Channel<L>, codes: set<string>): map<(L, string), int> {
    map code | code in codes && code in c.rejected :: (c.labels, code) := c.rejected[code]
  }

  /** The spec-defined codes are seeded with zero, then the channel's own counts are written. */
  function RejectedOf<L(==)>(c: Channel<L>, codes: set<string>): map<(L, string), int> {
    Seeds(c.labels, codes) + Counts(c, c.rejected.Keys)
  }

  /** The seeding never hides a count: each series is the channel's own count, or zero for a known
      code it has no count for. */
  lemma SeedsNeverHide<L>(c: Channel<L>, codes: set<string>, l: L, code: string)
    ensures (l, code) in RejectedOf(c, codes) <==> l == c.labels && (code in codes || code in c.rejected)
    ensures (l, code) in RejectedOf(c, codes) ==>
              RejectedOf(c, codes)[(l, code)] == if code in c.rejected then c.rejected[code] else 0
  {
    var seeds, counts := Seeds(c.labels, codes), Counts(c, c.rejected.Keys);
    assert (l, code) in seeds <==> l == c.labels && code in codes;
    assert (l, code) in counts <==> l == c.labels && code in c.rejected;
  }

  lemma SeedsStep<L>(l: L, codes: set<string>, x: string)
    ensures Seeds(l, codes + {x}) == Seeds(l, codes)[(l, x) := 0]
  {
  }

  lemma NothingWritten<L>(c: Channel<L>)
    ensures Seeds(c.labels, {}) == map[] && Counts(c, {}) == map[]
  {
  }

  lemma CountsStep<L>(c: Channel<L>, codes: set<string>, x: string)
    requires x in c.rejected
    ensures Counts(c, codes + {x}) == Counts(c, codes)[(c.labels, x) := c.rejected[x]]
  {
  }

  // What one snapshot may put into each gauge: zeros for the known codes included.

  ghost function AcceptedPairs<L>(chs: seq<Channel<L>>): set<(L, int)> {
    set c | c in chs :: (c.labels, c.accepted)
  }

  ghost function RejectedPairs<L>(chs: seq<Channel<L>>, codes: set<string>): set<((L, string), int)> {
    (set c, code | c in chs && code in codes :: ((c.labels, code), 0))
    + (set c, code | c in chs && code in c.rejected :: ((c.labels, code), c.rejected[code]))
  }

  ghost function HashratePairs<L>(chs: seq<Channel<L>>): set<(L, Rate)> {
    set c | c in chs && c.hashrate.Some? :: (c.labels, c.hashrate.value)
  }

  function AcceptedWrites<L(==)>(chs: seq<Channel<L>>): seq<map<L, int>> {
    seq(|chs|, i requires 0 <= i < |chs| => AcceptedOf(chs[i]))
  }

  function HashrateWrites<L(==)>(chs: seq<Channel<L>>): seq<map<L, Rate>> {
    seq(|chs|, i requires 0 <= i < |chs| => HashrateOf(chs[i]))
  }

  function RejectedWrites<L(==)>(chs: seq<Channel<L>>, codes: set<string>): seq<map<(L, string), int>> {
    seq(|chs|, i requires 0 <= i < |chs| => RejectedOf(chs[i], codes))
  }

  lemma LaySnoc<K, V>(m: map<K, V>, writes: seq<map<K, V>>, w: map<K, V>)
    ensures Lay(m, writes + [w]) == Lay(m, writes) + w
  {
    assert (writes + [w])[..|writes|] == writes;
  }

  lemma NoWrites<L>(m: map<L, int>, r: map<(L, string), int>, h: map<L, Rate>, codes: set<string>)
    ensures Lay(m, AcceptedWrites([])) == m && Lay(h, HashrateWrites([])) == h
    ensures Lay(r, RejectedWrites([], codes)) == r && RejectedLabels<L>([], codes) == {} && Labels<L>([]) == {}
  {
  }

  lemma WriteOne<L>(m: map<L, int>, h: map<L, Rate>, c: Channel<L>)
    ensures m + AcceptedOf(c) == m[c.labels := c.accepted]
    ensures h + HashrateOf(c) == if c.hashrate.Some? then h[c.labels := c.hashrate.value] else h
  {
  }

  lemma WritesSnoc<L>(chs: seq<Channel<L>>, c: Channel<L>, codes: set<string>)
    ensures AcceptedWrites(chs + [c]) == AcceptedWrites(chs) + [AcceptedOf(c)]
    ensures HashrateWrites(chs + [c]) == HashrateWrites(chs) + [HashrateOf(c)]
    ensures RejectedWrites(chs + [c], codes) == RejectedWrites(chs, codes) + [RejectedOf(c, codes)]
    ensures Labels(chs + [c]) == Labels(chs) + {c.labels}
  {
    LabelsSnoc(chs, c);
    hide Labels, AcceptedOf, HashrateOf, RejectedOf;
  }

  lemma LabelsSnoc<L>(chs: seq<Channel<L>>, c: Channel<L>)
    ensures Labels(chs + [c]) == Labels(chs) + {c.labels}
  {
  }

  function Labels<L(==)>(chs: seq<Channel<L>>): set<L> {
    set c | c in chs :: c.labels
  }

  function RejectedLabels<L(==)>(chs: seq<Channel<L>>, codes: set<string>): set<(L, string)> {
    Rebuild(RejectedWrites(chs, codes)).Keys
  }

  lemma {:induction false} AcceptedKeys<L>(chs: seq<Channel<L>>)
    ensures Rebuild(AcceptedWrites(chs)).Keys == Labels(chs)
  {
    if chs != [] {
      var before, c := chs[..|chs| - 1], chs[|chs| - 1];
      AcceptedKeys(before);
      assert AcceptedWrites(chs)[..|chs| - 1] == AcceptedWrites(before);
      assert chs == before + [c];
      assert Labels(chs) == Labels(before) + {c.labels};
    }
  }

  // ---- What a rebuild shows, label by label ---------------------------------------------------

  /** The last of the writes that has a key decides its value, and there are no other keys. */
  lemma {:induction false} LastWriteWins<K, V>(writes: seq<map<K, V>>, k: K)
    ensures k in Rebuild(writes) <==> exists i :: 0 <= i < |writes| && k in writes[i]
    ensures forall i :: 0 <= i < |writes| && k in writes[i] && (forall j :: i < j < |writes| ==> k !in writes[j])
              ==> k in Rebuild(writes) && Rebuild(writes)[k] == writes[i][k]
  {
    if writes != [] {
      LastWriteWins(writes[..|writes| - 1], k);
    }
  }

  lemma LastAt<K, V>(writes: seq<map<K, V>>, k: K, i: nat)
    requires i < |writes| && k in writes[i] && forall j :: i < j < |writes| ==> k !in writes[j]
    ensures k in Rebuild(writes) && Rebuild(writes)[k] == writes[i][k]
  {
    hide Rebuild;
    LastWriteWins(writes, k);
  }

  /** Channel `i` is the last one with its labels. */
  predicate IsLast<L(==)>(chs: seq<Channel<L>>, i: nat) {
    i < |chs| && forall j :: i < j < |chs| ==> chs[j].labels != chs[i].labels
  }

  /** The accepted gauge shows the labels of these channels and no others, with the count of the last one. */
  ghost predicate ShowsAccepted<L(!new)>(g: map<L, int>, chs: seq<Channel<L>>) {
    && (forall l :: l in g <==> exists i :: 0 <= i < |chs| && chs[i].labels == l)
    && (forall i: nat :: IsLast(chs, i) ==> chs[i].labels in g && g[chs[i].labels] == chs[i].accepted)
  }

  /** The rejected gauge shows the known codes and the own codes of every channel, with the counts of the
      last one: its own, or zero for a known code it has none for. */
  ghost predicate ShowsRejected<L(!new)>(g: map<(L, string), int>, chs: seq<Channel<L>>, codes: set<string>) {
    && (forall l, code :: (l, code) in g <==>
          exists i :: 0 <= i < |chs| && chs[i].labels == l && (code in codes || code in chs[i].rejected))
    && (forall i: nat, code :: IsLast(chs, i) && code in chs[i].rejected ==>
          (chs[i].labels, code) in g && g[(chs[i].labels, code)] == chs[i].rejected[code])
    && (forall i: nat, code :: IsLast(chs, i) && code !in chs[i].rejected && code in codes ==>
          (chs[i].labels, code) in g && g[(chs[i].labels, code)] == 0)
  }

  /** The hashrate gauge shows the rate of the last channel with given labels, if it reports one, and no label
      that none of them has. */
  ghost predicate ShowsHashrate<L>(g: map<L, Rate>, chs: seq<Channel<L>>) {
    && (forall l :: l in g ==> exists i :: 0 <= i < |chs| && chs[i].labels == l)
    && (forall i: nat :: IsLast(chs, i) && chs[i].hashrate.Some? ==>
          chs[i].labels in g && g[chs[i].labels] == chs[i].hashrate.value)
  }

  ghost predicate Shows<L(!new)>(f: Family<L>, chs: seq<Channel<L>>, codes: set<string>) {
    && (f.accepted.Some? ==> ShowsAccepted(f.accepted.value, chs))
    && (f.rejected.Some? ==> ShowsRejected(f.rejected.value, chs, codes))
    && (f.hashrate.Some? ==> ShowsHashrate(f.hashrate.value, chs))
  }

  lemma AcceptedShown<L(!new)>(chs: seq<Channel<L>>)
    ensures ShowsAccepted(Rebuild(AcceptedWrites(chs)), chs)
  {
    hide Rebuild;
    var writes := AcceptedWrites(chs);
    assert forall i, l :: 0 <= i < |chs| ==> (l in writes[i] <==> chs[i].labels == l);
    forall l: L ensures l in Rebuild(writes) <==> exists i :: 0 <= i < |chs| && chs[i].labels == l {
      LastWriteWins(writes, l);
      if l in Rebuild(writes) {
        var i :| 0 <= i < |writes| && l in writes[i];
        assert chs[i].labels == l;
      }
      if i :| 0 <= i < |chs| && chs[i].labels == l {
        assert l in writes[i];
      }
    }
    forall i: nat | IsLast(chs, i)
      ensures chs[i].labels in Rebuild(writes) && Rebuild(writes)[chs[i].labels] == chs[i].accepted
    {
      LastAt(writes, chs[i].labels, i);
    }
  }

  lemma RejectedKeys<L>(c: Channel<L>, codes: set<string>)
    ensures forall l, code :: (l, code) in RejectedOf(c, codes) <==>
              l == c.labels && (code in codes || code in c.rejected)
  {
    forall l, code
      ensures (l, code) in RejectedOf(c, codes) <==> l == c.labels && (code in codes || code in c.rejected)
    {
      SeedsNeverHide(c, codes, l, code);
    }
  }

  lemma RejectedShown<L(!new)>(chs: seq<Channel<L>>, codes: set<string>)
    ensures ShowsRejected(Rebuild(RejectedWrites(chs, codes)), chs, codes)
  {
    hide Rebuild, RejectedOf;
    var writes := RejectedWrites(chs, codes);
    forall i | 0 <= i < |chs|
      ensures forall l, code :: (l, code) in writes[i] <==>
                l == chs[i].labels && (code in codes || code in chs[i].rejected)
    {
      RejectedKeys(chs[i], codes);
    }
    forall l: L, code: string
      ensures (l, code) in Rebuild(writes) <==>
              exists i :: 0 <= i < |chs| && chs[i].labels == l && (code in codes || code in chs[i].rejected)
    {
      LastWriteWins(writes, (l, code));
    }
    forall i: nat, code | IsLast(chs, i) && (code in chs[i].rejected || code in codes)
      ensures var g, k := Rebuild(writes), (chs[i].labels, code);
              k in g && g[k] == if code in chs[i].rejected then chs[i].rejected[code] else 0
    {
      LastAt(writes, (chs[i].labels, code), i);
      SeedsNeverHide(chs[i], codes, chs[i].labels, code);
    }
  }

  lemma HashrateShown<L>(g: map<L, Rate>, chs: seq<Channel<L>>)
    requires g.Keys <= Labels(chs) && g == g + Rebuild(HashrateWrites(chs))
    ensures ShowsHashrate(g, chs)
  {
    hide Rebuild;
    var writes := HashrateWrites(chs);
    assert forall i, l :: 0 <= i < |chs| ==> (l in writes[i] <==> chs[i].labels == l && chs[i].hashrate.Some?);
    forall i: nat | IsLast(chs, i) && chs[i].hashrate.Some?
      ensures chs[i].labels in g && g[chs[i].labels] == chs[i].hashrate.value
    {
      LastAt(writes, chs[i].labels, i);
    }
    forall l | l in g ensures exists i :: 0 <= i < |chs| && chs[i].labels == l {
      assert l in Labels(chs);
      var c :| c in chs && c.labels == l;
      var i :| 0 <= i < |chs| && chs[i] == c;
    }
  }

  /** What a rebuilt family shows of the channels of the snapshot. */
  lemma RebuiltShows<L(!new)>(t: Family<L>, chs: seq<Channel<L>>, codes: set<string>)
    requires Rebuilt(t, chs, codes)
    ensures Shows(t, chs, codes)
  {
    hide Rebuild, AcceptedWrites, RejectedWrites, HashrateWrites, ShowsAccepted, ShowsRejected, ShowsHashrate, Labels;
    AcceptedShown(chs);
    RejectedShown(chs, codes);
    if t.hashrate.Some? {
      HashrateShown(t.hashrate.value, chs);
    }
  }

  function WithHashrate<L(==)>(chs: seq<Channel<L>>): set<L> {
    set c | c in chs && c.hashrate.Some? :: c.labels
  }

  lemma {:induction false} HashrateKeys<L>(chs: seq<Channel<L>>)
    ensures Rebuild(HashrateWrites(chs)).Keys == WithHashrate(chs) <= Labels(chs)
  {
    if chs != [] {
      var before, c := chs[..|chs| - 1], chs[|chs| - 1];
      HashrateKeys(before);
      assert HashrateWrites(chs)[..|chs| - 1] == HashrateWrites(before);
      assert chs == before + [c];
      assert WithHashrate(chs) == WithHashrate(before) + if c.hashrate.Some? then {c.labels} else {};
    }
  }

  /** Each gauge is present or not, as its metrics were configured. */
  datatype Family<L> = Family(
    accepted: Option<map<L, int>>,
    rejected: Option<map<(L, string), int>>,
    hashrate: Option<map<L, Rate>>,
    previous: set<L>,
    previousRejected: set<(L, string)>)

  datatype Event<L> =
    | Refresh(chs: seq<Channel<L>>)
    | Attach(accepted: bool, rejected: bool, hashrate: bool)   // swap to new, empty metrics

  function Update<K(==), V>(g: Option<map<K, V>>, writes: seq<map<K, V>>, previous: set<K>, current: set<K>)
    : Option<map<K, V>>
  {
    if g.Some? then Some(Refreshed(g.value, writes, previous, current)) else None
  }

  function Empty<K(==), V>(enabled: bool): Option<map<K, V>> {
    if enabled then Some(map[]) else None
  }

  /** Rejected labels are only collected while there is a gauge for them. */
  function CurrentRejected<L(==)>(s: Family<L>, chs: seq<Channel<L>>, codes: set<string>): set<(L, string)> {
    if s.rejected.Some? then RejectedLabels(chs, codes) else {}
  }

  function Step<L(==)>(s: Family<L>, e: Event<L>, codes: set<string>): Family<L> {
    match e
    case Refresh(chs) =>
      Family(
        Update(s.accepted, AcceptedWrites(chs), s.previous, Labels(chs)),
        Update(s.rejected, RejectedWrites(chs, codes), s.previousRejected, CurrentRejected(s, chs, codes)),
        Update(s.hashrate, HashrateWrites(chs), s.previous, Labels(chs)),
        Labels(chs), CurrentRejected(s, chs, codes))
    case Attach(a, r, h) =>
      s.(accepted := Empty(a), rejected := Empty(r), hashrate := Empty(h))
  }

  function History<L(==)>(events: seq<Event<L>>, codes: set<string>): Family<L> {
    if events == [] then Family(None, None, None, {}, {})
    else Step(History(events[..|events| - 1], codes), events[|events| - 1], codes)
  }

  /** Refreshes alone bring no gauge up. */
  lemma {:induction false} NoneAttached<L>(events: seq<Event<L>>, codes: set<string>)
    requires forall i :: 0 <= i < |events| ==> events[i].Refresh?
    ensures var f := History(events, codes); f.accepted.None? && f.rejected.None? && f.hashrate.None?
  {
    if events != [] {
      NoneAttached(events[..|events| - 1], codes);
      StepPresent(History(events[..|events| - 1], codes), events[|events| - 1], codes);
    }
  }

  /** The gauges present are those that the latest attachment brought, however many refreshes came after. */
  lemma {:induction false} PresentExactly<L>(events: seq<Event<L>>, codes: set<string>, a: nat)
    requires a < |events| && events[a].Attach? && forall b :: a < b < |events| ==> events[b].Refresh?
    ensures var f := History(events, codes);
            && f.accepted.Some? == events[a].accepted && f.rejected.Some? == events[a].rejected
            && f.hashrate.Some? == events[a].hashrate
  {
    var before, e := events[..|events| - 1], events[|events| - 1];
    StepPresent(History(before, codes), e, codes);
    if a < |before| {
      assert before[a] == events[a];
      PresentExactly(before, codes, a);
    }
  }

  lemma StepPresent<L>(f: Family<L>, e: Event<L>, codes: set<string>)
    ensures var t := Step(f, e, codes);
            match e
            case Refresh(_) =>
              && t.accepted.Some? == f.accepted.Some? && t.rejected.Some? == f.rejected.Some?
              && t.hashrate.Some? == f.hashrate.Some?
            case Attach(a, r, h) =>
              t.accepted == (if a then Some(map[]) else None) && t.rejected == (if r then Some(map[]) else None)
              && t.hashrate == (if h then Some(map[]) else None)
  {
  }

  ghost predicate KeysWithin<K, V>(g: Option<map<K, V>>, ks: set<K>) {
    g.Some? ==> g.value.Keys <= ks
  }

  /** Every series present was current at the last refresh. */
  ghost predicate Indexed<L>(s: Family<L>) {
    && KeysWithin(s.accepted, s.previous)
    && KeysWithin(s.rejected, s.previousRejected)
    && KeysWithin(s.hashrate, s.previous)
  }

  /** One gauge, whose current labels are at least those written: what it holds after a refresh is
      the rebuild, laid over what it held for labels still current. */
  lemma UpdateOverlays<K, V>(g: Option<map<K, V>>, writes: seq<map<K, V>>, previous: set<K>, current: set<K>)
    requires KeysWithin(g, previous) && Rebuild(writes).Keys <= current
    ensures var u := Update(g, writes, previous, current);
            && KeysWithin(u, current)
            && (g.Some? ==>
                  u.Some? && u.value == (map k | k in g.value && k in current :: g.value[k]) + Rebuild(writes))
            && (g.Some? && Rebuild(writes).Keys == current ==> u.value == Rebuild(writes))
            && (u.Some? ==> g.Some? && u.value == u.value + Rebuild(writes))
  {
    if g.Some? {
      LayIsOverlay(g.value, writes);
      RefreshIsRebuildExactly(g.value, writes, previous, current);
    }
  }

  /** The accepted and rejected gauges are those of a rebuild from these channels; the hashrate
      gauge has every hashrate reported and no label that is not current. */
  ghost predicate Rebuilt<L>(t: Family<L>, chs: seq<Channel<L>>, codes: set<string>) {
    && (t.accepted.Some? ==> t.accepted.value == Rebuild(AcceptedWrites(chs)))
    && (t.rejected.Some? ==> t.rejected.value == Rebuild(RejectedWrites(chs, codes)))
    && (t.hashrate.Some? ==>
          && t.hashrate.value.Keys <= Labels(chs)
          && t.hashrate.value == t.hashrate.value + Rebuild(HashrateWrites(chs)))
  }

  lemma RefreshRebuilds<L>(s: Family<L>, chs: seq<Channel<L>>, codes: set<string>)
    requires Indexed(s)
    ensures Indexed(Step(s, Refresh(chs), codes))
    ensures Rebuilt(Step(s, Refresh(chs), codes), chs, codes)
  {
    hide Rebuild, AcceptedWrites, HashrateWrites, RejectedWrites, Update, Labels;
    AcceptedKeys(chs);
    HashrateKeys(chs);
    UpdateOverlays(s.accepted, AcceptedWrites(chs), s.previous, Labels(chs));
    UpdateOverlays(s.hashrate, HashrateWrites(chs), s.previous, Labels(chs));
    if s.rejected.Some? {
      UpdateOverlays(s.rejected, RejectedWrites(chs, codes), s.previousRejected, RejectedLabels(chs, codes));
    } else {
      NoGauge(s.rejected, RejectedWrites(chs, codes), s.previousRejected, {});
    }
  }

  lemma NoGauge<K, V>(g: Option<map<K, V>>, writes: seq<map<K, V>>, previous: set<K>, current: set<K>)
    requires g.None?
    ensures Update(g, writes, previous, current).None?
  {
  }

  /** After any history of refreshes and swaps to new metrics that ends in a refresh, the gauges
      are those of a rebuild from the last snapshot. */
  lemma {:induction false} IncrementalIsRebuild<L>(events: seq<Event<L>>, codes: set<string>)
    ensures Indexed(History(events, codes))
    ensures events != [] && events[|events| - 1].Refresh? ==>
              Rebuilt(History(events, codes), events[|events| - 1].chs, codes)
  {
    if events != [] {
      var before, e := events[..|events| - 1], events[|events| - 1];
      IncrementalIsRebuild(before, codes);
      match e
      case Refresh(chs) => RefreshRebuilds(History(before, codes), chs, codes);
      case Attach(_, _, _) =>
    }
  }

  /** The hashrate gauge is a rebuild exactly when no channel that had a series there is still
      listed without a hashrate; on the client side, where all have one, it always is. */
  lemma HashrateIsRebuildExactly<L>(events: seq<Event<L>>, chs: seq<Channel<L>>, codes: set<string>)
    requires History(events, codes).hashrate.Some?
    ensures var before := History(events, codes).hashrate.value;
            var now := Step(History(events, codes), Refresh(chs), codes).hashrate;
            now == Some(Rebuild(HashrateWrites(chs))) <==>
            forall l :: l in before && l in Labels(chs) ==> l in WithHashrate(chs)
    ensures (forall c :: c in chs ==> c.hashrate.Some?) ==>
              Step(History(events, codes), Refresh(chs), codes).hashrate == Some(Rebuild(HashrateWrites(chs)))
  {
    var s := History(events, codes);
    IncrementalIsRebuild(events, codes);
    HashrateKeys(chs);
    RefreshIsRebuildExactly(s.hashrate.value, HashrateWrites(chs), s.previous, Labels(chs));
    assert (forall c :: c in chs ==> c.hashrate.Some?) ==> WithHashrate(chs) == Labels(chs);
  }

  function OneChannel(hashrate: Option<Rate>): seq<Channel<int>> {
    [Channel(1, 0, map[], hashrate)]
  }

  lemma OneHashrate(m: map<int, Rate>, hashrate: Option<Rate>)
    ensures Lay(m, HashrateWrites(OneChannel(hashrate))) == if hashrate.Some? then m[1 := hashrate.value] else m
    ensures Labels(OneChannel(hashrate)) == {1}
  {
    var c := Channel(1, 0, map[], hashrate);
    assert OneChannel(hashrate)[0].labels in Labels(OneChannel(hashrate));
    assert HashrateWrites(OneChannel(hashrate)) == [HashrateOf(c)];
    assert [HashrateOf(c)][..0] == [];
  }

  /** The exception is real: a channel that has a hashrate in one refresh and none in the next
      keeps the old value, where a rebuild has no series. */
  lemma StaleHashrate()
    ensures History([Attach(true, true, true), Refresh(OneChannel(Some(5.0))), Refresh(OneChannel(None))], {}).hashrate
            == Some(map[1 := 5.0])
    ensures Rebuild(HashrateWrites(OneChannel(None))) == map[]
  {
    hide *;
    var attached: seq<Event<int>> := [Attach(true, true, true)];
    var one, none := OneChannel(Some(5.0)), OneChannel(None);
    assert [] + attached == attached;
    assert attached + [Refresh(one)] + [Refresh(none)] == [Attach(true, true, true), Refresh(one), Refresh(none)];
    HistorySnoc([], attached[0], {});
    HistorySnoc(attached, Refresh(one), {});
    HistorySnoc(attached + [Refresh(one)], Refresh(none), {});
    NewGauges(History([], {}));
    OneRefresh(History(attached, {}), Some(5.0));
    OneRefresh(History(attached + [Refresh(one)], {}), None);
    OneHashrate(map[], None);
    RebuildIs(HashrateWrites(none));
    assert map[][1 := 5.0] == map[1 := 5.0] && map[1 := 5.0] - {} == map[1 := 5.0];
  }

  lemma RebuildIs<K, V>(writes: seq<map<K, V>>)
    ensures Rebuild(writes) == Lay(map[], writes)
  {
  }

  lemma HistorySnoc<L>(events: seq<Event<L>>, e: Event<L>, codes: set<string>)
    ensures History(events + [e], codes) == Step(History(events, codes), e, codes)
  {
    hide Step;
    assert (events + [e])[..|events|] == events;
  }

  lemma NewGauges(s: Family<int>)
    ensures Step(s, Attach(true, true, true), {}).hashrate == Some(map[])
    ensures Step(s, Attach(true, true, true), {}).previous == s.previous
  {
  }

  /** A refresh by one channel takes out no series but label 1's. */
  lemma OneRefresh(s: Family<int>, hashrate: Option<Rate>)
    requires s.hashrate.Some? && s.hashrate.value.Keys <= {1}
    ensures var t := Step(s, Refresh(OneChannel(hashrate)), {});
            && t.previous == {1}
            && t.hashrate == Some(if hashrate.Some? then s.hashrate.value[1 := hashrate.value] else s.hashrate.value)
  {
    hide Lay, HashrateWrites, AcceptedWrites, RejectedWrites, RejectedLabels, Labels, OneChannel;
    OneHashrate(s.hashrate.value, hashrate);
    var now := if hashrate.Some? then s.hashrate.value[1 := hashrate.value] else s.hashrate.value;
    assert now - (s.previous - {1}) == now;
  }
}
