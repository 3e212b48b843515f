/** Batched nonce search against the one-by-one search, and the split across workers. */
module NonceSearch {
  import opened Sha256

  const NONCES: nat := 0x1_0000_0000

  /** The nonce at a position of the search: a nonce wraps around while the position counts on. */
  function Wrap(pos: nat): Word {
    if pos < NONCES then pos else Wrap(pos - NONCES)
  }

  lemma {:induction false} WrapIsModulo(pos: nat)
    ensures Wrap(pos) == pos % NONCES
  {
    if pos >= NONCES {
      WrapIsModulo(pos - NONCES);
    }
  }

  /** `u32::wrapping_add` on a wrapped nonce. */
  lemma {:induction false} WrapWrap(a: nat, b: nat)
    ensures Wrap(Wrap(a) + b) == Wrap(a + b)
  {
    if a >= NONCES {
      WrapWrap(a - NONCES, b);
    }
  }

  /** What the one-by-one loop reports over `n` nonces: every hit, in order. */
  function Hits(hit: int -> bool, pos: nat, n: nat): seq<int>
    decreases n
  {
    if n == 0 then [] else (if hit(Wrap(pos)) then [Wrap(pos)] else []) + Hits(hit, pos + 1, n - 1)
  }

  function FirstOf(s: seq<int>): seq<int> {
    if s == [] then [] else [s[0]]
  }

  function Sum(batches: seq<nat>): nat {
    if batches == [] then 0 else Sum(batches[..|batches| - 1]) + batches[|batches| - 1]
  }

  /** What the batched loop reports: the first hit of each window, windows end to end. */
  function BatchReports(hit: int -> bool, pos: nat, batches: seq<nat>): seq<int> {
    if batches == [] then []
    else
      var before := batches[..|batches| - 1];
      BatchReports(hit, pos, before) + FirstOf(Hits(hit, pos + Sum(before), batches[|batches| - 1]))
  }

  /** No window holds two hits. */
  predicate OneHitPerWindow(hit: int -> bool, pos: nat, batches: seq<nat>) {
    batches == [] ||
    (var before := batches[..|batches| - 1];
     && OneHitPerWindow(hit, pos, before)
     && |Hits(hit, pos + Sum(before), batches[|batches| - 1])| <= 1)
  }

  /** Windows tile: searching `a` nonces and then `b` more is searching `a + b`. */
  lemma {:induction false} HitsTile(hit: int -> bool, pos: nat, a: nat, b: nat)
    ensures Hits(hit, pos, a + b) == Hits(hit, pos, a) + Hits(hit, pos + a, b)
    decreases a
  {
    if a > 0 {
      HitsTile(hit, pos + 1, a - 1, b);
    }
  }

  /** The search depends on the wrapped nonce only. */
  lemma {:induction false} HitsWrapped(hit: int -> bool, pos: nat, pos': nat, n: nat)
    requires Wrap(pos) == Wrap(pos')
    ensures Hits(hit, pos, n) == Hits(hit, pos', n)
    decreases n
  {
    if n > 0 {
      WrapWrap(pos, 1);
      WrapWrap(pos', 1);
      HitsWrapped(hit, pos + 1, pos' + 1, n - 1);
    }
  }

  ghost predicate NoHitBefore(hit: int -> bool, pos: nat, i: nat) {
    forall j :: pos <= j < pos + i ==> !hit(Wrap(j))
  }

  lemma {:induction false} SkipMisses(hit: int -> bool, pos: nat, n: nat, i: nat)
    requires i <= n && NoHitBefore(hit, pos, i)
    ensures Hits(hit, pos, n) == Hits(hit, pos + i, n - i)
    decreases i
  {
    if i > 0 {
      SkipMisses(hit, pos, n, i - 1);
      assert !hit(Wrap(pos + i - 1));
    }
  }

  /** What an early-exit scan of a window finds. */
  lemma ScanFinds(hit: int -> bool, pos: nat, n: nat, i: nat)
    requires i <= n && NoHitBefore(hit, pos, i)
    requires i < n ==> hit(Wrap(pos + i))
    ensures FirstOf(Hits(hit, pos, n)) == if i < n then [Wrap(pos + i)] else []
  {
    SkipMisses(hit, pos, n, i);
  }

  lemma {:induction false} HitsSound(hit: int -> bool, pos: nat, n: nat, x: int) returns (at: nat)
    requires x in Hits(hit, pos, n)
    ensures hit(x) && pos <= at < pos + n && x == Wrap(at)
    decreases n
  {
    if hit(Wrap(pos)) && x == Wrap(pos) {
      at := pos;
    } else {
      at := HitsSound(hit, pos + 1, n - 1, x);
    }
  }

  /** Where a batched search that started at `start` stands after the windows `done`. */
  ghost predicate Searched(hit: int -> bool, start: Word, done: seq<nat>, found: seq<int>, nonce: Word) {
    found == BatchReports(hit, start, done) && nonce == Wrap(start + Sum(done))
  }

  /** One more window, scanned up to its first hit at offset `i` or to its end. */
  lemma SearchedStep(
    hit: int -> bool, start: Word, done: seq<nat>, found: seq<int>, nonce: Word, b: nat, i: nat, more: seq<int>)
    requires Searched(hit, start, done, found, nonce)
    requires i <= b && NoHitBefore(hit, nonce, i) && (i < b ==> hit(Wrap(nonce + i)))
    requires more == if i < b then [Wrap(nonce + i)] else []
    ensures Searched(hit, start, done + [b], found + more, Wrap(nonce + b))
  {
    hide Hits, Wrap, BatchReports, Sum, NoHitBefore, FirstOf;
    var pos := start + Sum(done);
    ScanFinds(hit, nonce, b, i);
    SameWindow(hit, pos, b);
    OneMoreWindow(hit, start, done, b);
  }

  lemma OneMoreWindow(hit: int -> bool, pos: nat, done: seq<nat>, b: nat)
    ensures Sum(done + [b]) == Sum(done) + b
    ensures BatchReports(hit, pos, done + [b]) == BatchReports(hit, pos, done) + FirstOf(Hits(hit, pos + Sum(done), b))
  {
    hide Hits, Wrap, FirstOf;
    assert (done + [b])[..|done|] == done;
  }

  lemma SameWindow(hit: int -> bool, pos: nat, b: nat)
    ensures Hits(hit, Wrap(pos), b) == Hits(hit, pos, b)
    ensures Wrap(Wrap(pos) + b) == Wrap(pos + b)
  {
    WrapWrap(pos, b);
    WrapWrap(pos, 0);
    HitsWrapped(hit, Wrap(pos), pos, b);
  }

  lemma {:induction false} ReportsShort(hit: int -> bool, pos: nat, batches: seq<nat>)
    ensures |BatchReports(hit, pos, batches)| <= |Hits(hit, pos, Sum(batches))|
    ensures |BatchReports(hit, pos, batches)| == |Hits(hit, pos, Sum(batches))| <==>
            OneHitPerWindow(hit, pos, batches)
  {
    if batches != [] {
      var before, b := batches[..|batches| - 1], batches[|batches| - 1];
      HitsTile(hit, pos, Sum(before), b);
      ReportsShort(hit, pos, before);
    }
  }

  lemma {:induction false} ReportsSound(hit: int -> bool, pos: nat, batches: seq<nat>, x: int)
    requires x in BatchReports(hit, pos, batches)
    ensures hit(x) && x in Hits(hit, pos, Sum(batches))
  {
    var before, b := batches[..|batches| - 1], batches[|batches| - 1];
    HitsTile(hit, pos, Sum(before), b);
    if x in BatchReports(hit, pos, before) {
      ReportsSound(hit, pos, before, x);
    } else {
      var _ := HitsSound(hit, pos + Sum(before), b, x);
    }
  }

  lemma {:induction false} NothingMissed(hit: int -> bool, pos: nat, batches: seq<nat>)
    requires OneHitPerWindow(hit, pos, batches)
    ensures BatchReports(hit, pos, batches) == Hits(hit, pos, Sum(batches))
  {
    if batches != [] {
      var before, b := batches[..|batches| - 1], batches[|batches| - 1];
      HitsTile(hit, pos, Sum(before), b);
      NothingMissed(hit, pos, before);
      assert FirstOf(Hits(hit, pos + Sum(before), b)) == Hits(hit, pos + Sum(before), b);
    }
  }

  /** Every batched report is a hit the one-by-one search reports; nothing is missed exactly
      when no window holds two hits, whatever the batch sizes were. */
  lemma BatchedRefinesSimple(hit: int -> bool, pos: nat, batches: seq<nat>)
    ensures forall x :: x in BatchReports(hit, pos, batches) ==> hit(x) && x in Hits(hit, pos, Sum(batches))
    ensures BatchReports(hit, pos, batches) == Hits(hit, pos, Sum(batches)) <==>
            OneHitPerWindow(hit, pos, batches)
  {
    forall x | x in BatchReports(hit, pos, batches) ensures hit(x) && x in Hits(hit, pos, Sum(batches)) {
      ReportsSound(hit, pos, batches, x);
    }
    ReportsShort(hit, pos, batches);
    if OneHitPerWindow(hit, pos, batches) {
      NothingMissed(hit, pos, batches);
    }
  }

  lemma {:induction false} HitsLength(hit: int -> bool, pos: nat, n: nat)
    ensures |Hits(hit, pos, n)| <= n
    ensures (forall x :: hit(x)) ==> |Hits(hit, pos, n)| == n
    decreases n
  {
    if n > 0 {
      HitsLength(hit, pos + 1, n - 1);
    }
  }

  lemma {:induction false} SmallWindows(hit: int -> bool, pos: nat, batches: seq<nat>)
    ensures (forall i :: 0 <= i < |batches| ==> batches[i] <= 1) ==> OneHitPerWindow(hit, pos, batches)
    ensures (forall x :: hit(x)) && OneHitPerWindow(hit, pos, batches) ==>
              forall i :: 0 <= i < |batches| ==> batches[i] <= 1
  {
    if batches != [] {
      var before, b := batches[..|batches| - 1], batches[|batches| - 1];
      SmallWindows(hit, pos, before);
      HitsLength(hit, pos + Sum(before), b);
      assert forall i :: 0 <= i < |before| ==> batches[i] == before[i];
    }
  }

  /** What a caller can check: nothing is lost, wherever the hits lie, exactly when no batch is larger than one. */
  lemma NoLossExactly(pos: nat, batches: seq<nat>)
    ensures (forall hit: int -> bool :: BatchReports(hit, pos, batches) == Hits(hit, pos, Sum(batches)))
            <==> forall i :: 0 <= i < |batches| ==> batches[i] <= 1
  {
    hide BatchReports, Hits, OneHitPerWindow, Sum;
    forall hit: int -> bool
      ensures (forall i :: 0 <= i < |batches| ==> batches[i] <= 1) ==>
                BatchReports(hit, pos, batches) == Hits(hit, pos, Sum(batches))
    {
      SmallWindows(hit, pos, batches);
      BatchedRefinesSimple(hit, pos, batches);
    }
    var all: int -> bool := _ => true;
    SmallWindows(all, pos, batches);
    BatchedRefinesSimple(all, pos, batches);
  }

  // ---- Workers ---------------------------------------------------------------------------

  /** Nonces per worker, `u32::MAX / p`. */
  function Unit(p: nat): nat
    requires 0 < p
  {
    0xFFFF_FFFF / p
  }

  lemma {:induction false} Separate(i: nat, j: nat, u: nat)
    requires i < j
    ensures i * u + u <= j * u
    decreases j
  {
    assert j * u == (j - 1) * u + u;
    if i < j - 1 {
      Separate(i, j - 1, u);
    }
  }

  /** Worker `i` of unit `u` starts at `i * u` and covers `u` nonces. */
  predicate InRange(i: nat, u: nat, nonce: nat) {
    i * u <= nonce < i * u + u
  }

  lemma RangesDisjoint(i: nat, j: nat, u: nat, nonce: nat)
    requires InRange(i, u, nonce) && InRange(j, u, nonce)
    ensures i == j
  {
    if i < j {
      Separate(i, j, u);
    } else if j < i {
      Separate(j, i, u);
    }
  }

  lemma OwnRange(nonce: nat, u: nat, p: nat)
    requires 0 < u && nonce < p * u
    ensures nonce / u < p && InRange(nonce / u, u, nonce)
  {
    var i := nonce / u;
    assert i * u + nonce % u == nonce;
    if i > p {
      Separate(p, i, u);
    }
  }

  /** For any worker count, each worker's range ends inside the 32-bit nonce space, so no start
      overflows; between 1 and `p` nonces at the top belong to nobody. */
  lemma WorkersFit(p: nat, i: nat, nonce: nat)
    requires 0 < p && i < p
    ensures InRange(i, Unit(p), nonce) ==> nonce < p * Unit(p) < NONCES
    ensures i * Unit(p) < NONCES
    ensures 1 <= NONCES - p * Unit(p) <= p
  {
    var u := Unit(p);
    assert p * u + 0xFFFF_FFFF % p == 0xFFFF_FFFF;
    Separate(i, p, u);
  }

  lemma CoveredOnce(p: nat, u: nat, nonce: nat) returns (i: nat)
    requires 0 < u && nonce < p * u
    ensures i < p && InRange(i, u, nonce)
    ensures forall j :: 0 <= j < p && InRange(j, u, nonce) ==> j == i
  {
    i := nonce / u;
    OwnRange(nonce, u, p);
    forall j | 0 <= j < p && InRange(j, u, nonce) ensures j == i {
      RangesDisjoint(i, j, u, nonce);
    }
  }

  lemma PositiveFactor(p: nat, u: nat, n: nat)
    requires n < p * u
    ensures 0 < u
  {
    assert u == 0 ==> p * u == 0;
  }

  /** Every nonce below `p * unit` belongs to exactly one worker. */
  lemma WorkersCover(p: nat, nonce: nat) returns (i: nat)
    requires 0 < p && nonce < p * Unit(p)
    ensures i < p && InRange(i, Unit(p), nonce)
    ensures forall j :: 0 <= j < p && InRange(j, Unit(p), nonce) ==> j == i
  {
    PositiveFactor(p, Unit(p), nonce);
    i := CoveredOnce(p, Unit(p), nonce);
  }

  /** What the first `p` workers report over their own ranges, one after the other. */
  function WorkerHits(hit: int -> bool, u: nat, p: nat): seq<int> {
    if p == 0 then [] else WorkerHits(hit, u, p - 1) + Hits(hit, (p - 1) * u, u)
  }

  /** The workers together search what one search over all their ranges would: nothing twice,
      nothing left out. */
  lemma {:induction false} WorkersTogether(hit: int -> bool, u: nat, p: nat)
    ensures WorkerHits(hit, u, p) == Hits(hit, 0, p * u)
  {
    if p > 0 {
      hide Hits;
      WorkersTogether(hit, u, p - 1);
      OneMoreRange(hit, u, p - 1);
    } else {
      assert 0 * u == 0;
    }
  }

  /** Increasing, and within a range. */
  predicate Ascending(s: seq<int>, lo: int, hi: int) {
    && (forall i :: 0 <= i < |s| ==> lo <= s[i] < hi)
    && (forall i, j :: 0 <= i < j < |s| ==> s[i] < s[j])
  }

  lemma NothingAscends(lo: int)
    ensures Ascending([], lo, lo)
  {
  }

  lemma AscendingJoins(a: seq<int>, b: seq<int>, lo: int, mid: int, hi: int)
    requires Ascending(a, lo, mid) && Ascending(b, mid, hi) && lo <= mid <= hi
    ensures Ascending(a + b, lo, hi)
  {
  }

  lemma FirstInRange(hit: int -> bool, pos: nat, n: nat)
    requires pos + n <= NONCES
    ensures Ascending(FirstOf(Hits(hit, pos, n)), pos, pos + n)
  {
    hide Hits;
    var hits := Hits(hit, pos, n);
    if hits != [] {
      var at := HitsSound(hit, pos, n, hits[0]);
    }
  }

  /** As long as the nonces do not wrap around, no nonce is reported twice. */
  lemma {:induction false} ReportsAscend(hit: int -> bool, pos: nat, batches: seq<nat>)
    requires pos + Sum(batches) <= NONCES
    ensures Ascending(BatchReports(hit, pos, batches), pos, pos + Sum(batches))
  {
    hide Hits, Ascending, FirstOf;
    if batches == [] {
      assert Ascending([], pos, pos) by {
        NothingAscends(pos);
      }
    } else {
      var before, b := batches[..|batches| - 1], batches[|batches| - 1];
      ReportsAscend(hit, pos, before);
      FirstInRange(hit, pos + Sum(before), b);
      AscendingJoins(BatchReports(hit, pos, before), FirstOf(Hits(hit, pos + Sum(before), b)),
                     pos, pos + Sum(before), pos + Sum(before) + b);
    }
  }

  /** Every worker keeps to its own range. */
  predicate KeepToRange(p: nat, u: nat, batches: seq<seq<nat>>) {
    |batches| == p && forall i :: 0 <= i < p ==> Sum(batches[i]) <= u
  }

  /** Two reports of one nonce are one report of one worker. */
  lemma NoNonceTwice(hit: int -> bool, p: nat, batches: seq<seq<nat>>, i: nat, j: nat, a: nat, b: nat)
    requires 0 < p && KeepToRange(p, Unit(p), batches) && i < p && j < p
    ensures var first, second := BatchReports(hit, i * Unit(p), batches[i]), BatchReports(hit, j * Unit(p), batches[j]);
            a < |first| && b < |second| && first[a] == second[b] ==> i == j && a == b
  {
    hide BatchReports, Unit, Sum, Ascending, InRange;
    var u := Unit(p);
    var first, second := BatchReports(hit, i * u, batches[i]), BatchReports(hit, j * u, batches[j]);
    if a < |first| && b < |second| && first[a] == second[b] {
      ReportOfWorker(hit, p, batches, i, a);
      ReportOfWorker(hit, p, batches, j, b);
      RangesDisjoint(i, j, u, first[a]);
      AscendingOnce(first, i * u, i * u + Sum(batches[i]), a, b);
    }
  }

  lemma AscendingOnce(s: seq<int>, lo: int, hi: int, a: nat, b: nat)
    requires Ascending(s, lo, hi) && a < |s| && b < |s| && s[a] == s[b]
    ensures a == b
  {
  }

  /** What a worker that keeps to its range reports lies in it, in order. */
  lemma ReportOfWorker(hit: int -> bool, p: nat, batches: seq<seq<nat>>, i: nat, a: nat)
    requires 0 < p && KeepToRange(p, Unit(p), batches) && i < p
    requires a < |BatchReports(hit, i * Unit(p), batches[i])|
    ensures var u, reports := Unit(p), BatchReports(hit, i * Unit(p), batches[i]);
            Ascending(reports, i * u, i * u + Sum(batches[i])) && reports[a] >= 0 && InRange(i, u, reports[a])
  {
    hide BatchReports, Unit, Sum;
    WorkerInside(p, i);
    ReportsAscend(hit, i * Unit(p), batches[i]);
  }

  lemma WorkerInside(p: nat, i: nat)
    requires 0 < p && i < p
    ensures i * Unit(p) + Unit(p) <= NONCES
  {
    WorkersFit(p, i, 0);
    Separate(i, p, Unit(p));
  }

  /** What the first `p` workers send, one after the other. */
  function WorkerReports(hit: int -> bool, u: nat, batches: seq<seq<nat>>, p: nat): seq<int>
    requires p <= |batches|
  {
    if p == 0 then [] else WorkerReports(hit, u, batches, p - 1) + BatchReports(hit, (p - 1) * u, batches[p - 1])
  }

  /** Parts that are short or equal make a whole that is. */
  lemma PartsMatch(a: seq<int>, b: seq<int>, x: seq<int>, y: seq<int>)
    requires |a| <= |x| && |b| <= |y| && (|a| == |x| ==> a == x) && (|b| == |y| ==> b == y)
    ensures |a + b| <= |x + y| && (a + b == x + y <==> a == x && b == y)
    ensures |a + b| == |x + y| ==> a + b == x + y
  {
    if a + b == x + y {
      assert |a| == |x|;
    }
  }

  lemma NextRange(q: nat, u: nat)
    ensures (q + 1) * u == q * u + u >= u
  {
  }

  lemma OneMoreRange(hit: int -> bool, u: nat, q: nat)
    ensures Hits(hit, 0, (q + 1) * u) == Hits(hit, 0, q * u) + Hits(hit, q * u, u)
  {
    hide Hits;
    NextRange(q, u);
    HitsTile(hit, 0, q * u, u);
  }

  lemma OneMoreWorker(hit: int -> bool, u: nat, batches: seq<seq<nat>>, p: nat)
    requires 0 < p <= |batches|
    ensures WorkerReports(hit, u, batches, p) ==
            WorkerReports(hit, u, batches, p - 1) + BatchReports(hit, (p - 1) * u, batches[p - 1])
  {
    hide BatchReports;
  }

  /** Which hits are sent: once every worker is through its range, all of them exactly if no window
      of any worker held two. */
  lemma {:induction false} WorkersSend(hit: int -> bool, u: nat, batches: seq<seq<nat>>, p: nat)
    requires p <= |batches| && forall i :: 0 <= i < p ==> Sum(batches[i]) == u
    ensures |WorkerReports(hit, u, batches, p)| <= |Hits(hit, 0, p * u)|
    ensures WorkerReports(hit, u, batches, p) == Hits(hit, 0, p * u)
            <==> forall i :: 0 <= i < p ==> OneHitPerWindow(hit, i * u, batches[i])
    ensures |WorkerReports(hit, u, batches, p)| == |Hits(hit, 0, p * u)|
            ==> WorkerReports(hit, u, batches, p) == Hits(hit, 0, p * u)
  {
    hide *;
    if p == 0 {
      NobodySends(hit, u, batches);
    } else {
      var q := p - 1;
      WorkersSend(hit, u, batches, q);
      OneMoreRange(hit, u, q);
      OneMoreWorker(hit, u, batches, p);
      ReportsShort(hit, q * u, batches[q]);
      BatchedRefinesSimple(hit, q * u, batches[q]);
      PartsMatch(WorkerReports(hit, u, batches, q), BatchReports(hit, q * u, batches[q]),
                 Hits(hit, 0, q * u), Hits(hit, q * u, u));
    }
  }

  lemma NobodySends(hit: int -> bool, u: nat, batches: seq<seq<nat>>)
    ensures WorkerReports(hit, u, batches, 0) == [] == Hits(hit, 0, 0 * u)
  {
  }
}
