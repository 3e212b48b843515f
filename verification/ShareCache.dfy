/** The bounded cache of best shares, over any total order on share hashes. */
module ShareCache {
  const CACHED_SHARES_CAPACITY: nat := 100

  ghost predicate TotalOrder<H(!new)>(le: (H, H) -> bool) {
    && (forall x, y :: le(x, y) || le(y, x))
    && (forall x, y :: le(x, y) && le(y, x) ==> x == y)
    && (forall x, y, z :: le(x, y) && le(y, z) ==> le(x, z))
  }

  /** `kept` are `k` smallest of `all`, or all of them if there are fewer. */
  ghost predicate Smallest<H>(le: (H, H) -> bool, kept: multiset<H>, all: multiset<H>, k: nat) {
    && kept <= all
    && |kept| == (if |all| < k then |all| else k)
    && (forall x, y :: x in kept && y in all - kept ==> le(x, y))
  }

  lemma NoneLargerMeansEqual<H>(a: multiset<H>, b: multiset<H>)
    requires |a| == |b| && forall y :: y in a ==> a[y] <= b[y]
    ensures a == b
  {
    assert a <= b && b == a + (b - a);
    assert |b - a| == 0;
  }

  lemma LargerSomewhere<H>(a: multiset<H>, b: multiset<H>) returns (x: H)
    requires |a| == |b| && a != b
    ensures a[x] > b[x]
  {
    if forall y :: y in a ==> a[y] <= b[y] {
      NoneLargerMeansEqual(a, b);
    }
    x :| x in a && a[x] > b[x];
  }

  lemma KeptBelowRest<H>(le: (H, H) -> bool, kept: multiset<H>, all: multiset<H>, k: nat, x: H, y: H)
    requires Smallest(le, kept, all, k) && x in kept && kept[y] < all[y]
    ensures le(x, y)
  {
    assert y in all - kept;
  }

  lemma NeverMore<H(!new)>(le: (H, H) -> bool, a: multiset<H>, b: multiset<H>, all: multiset<H>, k: nat, x: H)
    requires forall v, w :: le(v, w) && le(w, v) ==> v == w
    requires Smallest(le, a, all, k) && Smallest(le, b, all, k)
    ensures a[x] <= b[x]
  {
    if a[x] > b[x] {
      var y := LargerSomewhere(b, a);
      KeptBelowRest(le, a, all, k, x, y);
      KeptBelowRest(le, b, all, k, y, x);
    }
  }

  /** There is only one such multiset, so it depends on what was inserted and not on the order. */
  lemma SmallestIsUnique<H(!new)>(le: (H, H) -> bool, a: multiset<H>, b: multiset<H>, all: multiset<H>, k: nat)
    requires TotalOrder(le) && Smallest(le, a, all, k) && Smallest(le, b, all, k)
    ensures a == b
  {
    forall x ensures a[x] <= b[x] && b[x] <= a[x] {
      NeverMore(le, a, b, all, k, x);
      NeverMore(le, b, a, all, k, x);
    }
  }

  lemma SizeBound<H>(le: (H, H) -> bool, kept: multiset<H>, all: multiset<H>, k: nat)
    requires Smallest(le, kept, all, k)
    ensures |kept| <= k
  {
  }

  lemma NotBelow<H(!new)>(le: (H, H) -> bool, x: H, y: H)
    requires TotalOrder(le) && !(le(x, y) && x != y)
    ensures le(y, x)
  {
    assert le(x, y) || le(y, x);
  }

  lemma KeepAll<H>(le: (H, H) -> bool, kept: multiset<H>, all: multiset<H>, k: nat, h: H)
    requires Smallest(le, kept, all, k) && |kept| < k
    ensures Smallest(le, kept + multiset{h}, all + multiset{h}, k)
  {
    assert all == kept + (all - kept);
    assert |all - kept| == 0;
    assert kept == all;
    assert (all + multiset{h}) - (kept + multiset{h}) == multiset{};
  }

  lemma ReplaceWorst<H(!new)>(le: (H, H) -> bool, kept: multiset<H>, all: multiset<H>, k: nat, h: H, worst: H)
    requires TotalOrder(le) && Smallest(le, kept, all, k) && |kept| == k
    requires worst in kept && (forall x :: x in kept ==> le(x, worst)) && le(h, worst)
    ensures Smallest(le, kept - multiset{worst} + multiset{h}, all + multiset{h}, k)
  {
    var kept', all' := kept - multiset{worst} + multiset{h}, all + multiset{h};
    assert all' - kept' == (all - kept) + multiset{worst};
    forall x, y | x in kept' && y in all' - kept' ensures le(x, y) {
      assert x == h || x in kept;
      assert y == worst || y in all - kept;
      if x in kept && y in all - kept {
      } else if y in all - kept {
        assert le(h, worst) && le(worst, y);
      }
    }
  }

  lemma Discard<H(!new)>(le: (H, H) -> bool, kept: multiset<H>, all: multiset<H>, k: nat, h: H, worst: H)
    requires TotalOrder(le) && Smallest(le, kept, all, k) && |kept| == k
    requires worst in kept && (forall x :: x in kept ==> le(x, worst)) && le(worst, h)
    ensures Smallest(le, kept, all + multiset{h}, k)
  {
    forall x, y | x in kept && y in (all + multiset{h}) - kept ensures le(x, y) {
      if y !in all - kept {
        assert y == h;
        assert le(x, worst) && le(worst, h);
      }
    }
  }

  datatype Entry<H> = Entry(share: nat, hash: H)

  function Hashes<H>(heap: seq<Entry<H>>): multiset<H> {
    if heap == [] then multiset{} else Hashes(heap[..|heap| - 1]) + multiset{heap[|heap| - 1].hash}
  }

  lemma {:induction false} HashesConcat<H>(a: seq<Entry<H>>, b: seq<Entry<H>>)
    ensures Hashes(a + b) == Hashes(a) + Hashes(b)
  {
    if b == [] {
      assert a + b == a;
    } else {
      assert (a + b)[..|a + b| - 1] == a + b[..|b| - 1];
      HashesConcat(a, b[..|b| - 1]);
    }
  }

  lemma {:induction false} HashesSize<H>(heap: seq<Entry<H>>)
    ensures |Hashes(heap)| == |heap|
  {
    if heap != [] {
      HashesSize(heap[..|heap| - 1]);
    }
  }

  lemma {:induction false} HashesMember<H>(heap: seq<Entry<H>>, h: H)
    ensures h in Hashes(heap) <==> exists i :: 0 <= i < |heap| && heap[i].hash == h
  {
    if heap != [] {
      HashesMember(heap[..|heap| - 1], h);
    }
  }

  lemma HashesOne<H>(e: Entry<H>)
    ensures Hashes([e]) == multiset{e.hash}
  {
    assert [e][..0] == [];
  }

  lemma TakeOut<H>(a: multiset<H>, b: multiset<H>, h: H)
    ensures a + multiset{h} + b - multiset{h} == a + b
  {
  }

  lemma HashesMiddle<H>(a: seq<Entry<H>>, e: Entry<H>, b: seq<Entry<H>>)
    ensures Hashes(a + [e] + b) - multiset{e.hash} == Hashes(a + b)
  {
    HashesOne(e);
    hide Hashes;
    HashesConcat(a + [e], b);
    HashesConcat(a, [e]);
    HashesConcat(a, b);
    TakeOut(Hashes(a), Hashes(b), e.hash);
  }

  lemma HashesRemove<H>(heap: seq<Entry<H>>, i: nat)
    requires i < |heap|
    ensures Hashes(heap[..i] + heap[i + 1..]) == Hashes(heap) - multiset{heap[i].hash}
  {
    hide Hashes;
    HashesMiddle(heap[..i], heap[i], heap[i + 1..]);
    assert heap == heap[..i] + [heap[i]] + heap[i + 1..];
  }

  predicate IsGreatest<H>(le: (H, H) -> bool, heap: seq<Entry<H>>, w: nat)
    requires w < |heap|
  {
    forall i :: 0 <= i < |heap| ==> le(heap[i].hash, heap[w].hash)
  }

  lemma {:induction false} GreatestExists<H(!new)>(le: (H, H) -> bool, heap: seq<Entry<H>>)
    requires TotalOrder(le) && heap != []
    ensures exists w: nat :: w < |heap| && IsGreatest(le, heap, w)
  {
    var n := |heap| - 1;
    if n == 0 {
      assert IsGreatest(le, heap, 0);
    } else {
      GreatestExists(le, heap[..n]);
      var w: nat :| w < n && IsGreatest(le, heap[..n], w);
      if le(heap[w].hash, heap[n].hash) {
        forall i | 0 <= i < |heap| ensures le(heap[i].hash, heap[n].hash) {
          assert i < n ==> le(heap[..n][i].hash, heap[w].hash);
        }
        assert IsGreatest(le, heap, n);
      } else {
        forall i | 0 <= i < |heap| ensures le(heap[i].hash, heap[w].hash) {
          assert i < n ==> le(heap[..n][i].hash, heap[w].hash);
        }
        assert IsGreatest(le, heap, w);
      }
    }
  }

  lemma GreatestHash<H>(le: (H, H) -> bool, heap: seq<Entry<H>>, w: nat)
    requires w < |heap| && IsGreatest(le, heap, w)
    ensures heap[w].hash in Hashes(heap) && forall x :: x in Hashes(heap) ==> le(x, heap[w].hash)
  {
    HashesMember(heap, heap[w].hash);
    forall x | x in Hashes(heap) ensures le(x, heap[w].hash) {
      HashesMember(heap, x);
      var i :| 0 <= i < |heap| && heap[i].hash == x;
    }
  }

  /** One insertion, entry by entry: kept while there is room, then only in place of a greatest entry
      that it is strictly below. */
  ghost predicate Inserted<H>(le: (H, H) -> bool, was: seq<Entry<H>>, entry: Entry<H>, now: seq<Entry<H>>) {
    if |was| < CACHED_SHARES_CAPACITY then now == was + [entry]
    else exists w: nat :: w < |was| && IsGreatest(le, was, w)
           && now == if le(entry.hash, was[w].hash) && entry.hash != was[w].hash
                     then was[..w] + was[w + 1..] + [entry] else was
  }

  /** There is room: the entry joins. */
  lemma JoinStep<H>(le: (H, H) -> bool, heap: seq<Entry<H>>, all: multiset<H>, entry: Entry<H>)
    requires Smallest(le, Hashes(heap), all, CACHED_SHARES_CAPACITY) && |heap| < CACHED_SHARES_CAPACITY
    ensures Smallest(le, Hashes(heap + [entry]), all + multiset{entry.hash}, CACHED_SHARES_CAPACITY)
  {
    HashesSize(heap);
    HashesOne(entry);
    HashesConcat(heap, [entry]);
    hide Smallest, Hashes;
    KeepAll(le, Hashes(heap), all, CACHED_SHARES_CAPACITY, entry.hash);
  }

  /** A better entry takes the place of a greatest one. */
  lemma ReplaceStep<H(!new)>(le: (H, H) -> bool, heap: seq<Entry<H>>, all: multiset<H>, entry: Entry<H>, w: nat)
    requires TotalOrder(le) && Smallest(le, Hashes(heap), all, CACHED_SHARES_CAPACITY)
    requires |heap| >= CACHED_SHARES_CAPACITY && w < |heap| && IsGreatest(le, heap, w) && le(entry.hash, heap[w].hash)
    ensures Smallest(le, Hashes(heap[..w] + heap[w + 1..] + [entry]), all + multiset{entry.hash},
                     CACHED_SHARES_CAPACITY)
  {
    HashesSize(heap);
    SizeBound(le, Hashes(heap), all, CACHED_SHARES_CAPACITY);
    GreatestHash(le, heap, w);
    HashesRemove(heap, w);
    HashesOne(entry);
    HashesConcat(heap[..w] + heap[w + 1..], [entry]);
    hide Smallest, Hashes, IsGreatest, TotalOrder;
    ReplaceWorst(le, Hashes(heap), all, CACHED_SHARES_CAPACITY, entry.hash, heap[w].hash);
  }

  /** An entry that is not below a greatest one is dropped. */
  lemma DiscardStep<H(!new)>(le: (H, H) -> bool, heap: seq<Entry<H>>, all: multiset<H>, entry: Entry<H>, w: nat)
    requires TotalOrder(le) && Smallest(le, Hashes(heap), all, CACHED_SHARES_CAPACITY)
    requires |heap| >= CACHED_SHARES_CAPACITY && w < |heap| && IsGreatest(le, heap, w)
    requires !(le(entry.hash, heap[w].hash) && entry.hash != heap[w].hash)
    ensures Smallest(le, Hashes(heap), all + multiset{entry.hash}, CACHED_SHARES_CAPACITY)
  {
    HashesSize(heap);
    SizeBound(le, Hashes(heap), all, CACHED_SHARES_CAPACITY);
    GreatestHash(le, heap, w);
    NotBelow(le, entry.hash, heap[w].hash);
    hide Smallest, Hashes, IsGreatest, TotalOrder;
    Discard(le, Hashes(heap), all, CACHED_SHARES_CAPACITY, entry.hash, heap[w].hash);
  }

  /** A binary heap knows one thing: where a greatest entry is.  Which one, among equals, is left
      open; `heap` lists the entries and stands for no layout. */
  class BestShares<H(!new, ==)> {
    const le: (H, H) -> bool
    var heap: seq<Entry<H>>
    ghost var inserted: multiset<H>

    /** The cache holds the best of everything ever inserted. */
    ghost predicate Valid()
      reads this
    {
      TotalOrder(le) && Smallest(le, Hashes(heap), inserted, CACHED_SHARES_CAPACITY)
    }

    constructor (le: (H, H) -> bool)
      requires TotalOrder(le)
      ensures Valid() && inserted == multiset{} && this.le == le
    {
      this.le := le;
      heap, inserted := [], multiset{};
    }

    method AddShareToCache(entry: Entry<H>)
      requires Valid()
      modifies this
      ensures Valid() && inserted == old(inserted) + multiset{entry.hash}
      ensures Inserted(le, old(heap), entry, heap)
      ensures |heap| == if |old(heap)| < 100 then |old(heap)| + 1 else |old(heap)|
    {
      hide TotalOrder, Smallest, Hashes, IsGreatest;
      ghost var all := inserted;
      inserted := inserted + multiset{entry.hash};
      if |heap| < CACHED_SHARES_CAPACITY {
        JoinStep(le, heap, all, entry);
        heap := heap + [entry];
        return;
      }
      GreatestExists(le, heap);
      var w: nat :| w < |heap| && IsGreatest(le, heap, w);
      if le(entry.hash, heap[w].hash) && entry.hash != heap[w].hash {
        ReplaceStep(le, heap, all, entry, w);
        heap := heap[..w] + heap[w + 1..];
        heap := heap + [entry];
      } else {
        DiscardStep(le, heap, all, entry, w);
      }
    }
  }

  /** Two caches that were given the same hashes, in whatever order, hold the same hashes. */
  lemma ArrivalOrderDoesNotMatter<H(!new)>(a: BestShares<H>, b: BestShares<H>)
    requires a.Valid() && b.Valid() && a.le == b.le && a.inserted == b.inserted
    ensures Hashes(a.heap) == Hashes(b.heap)
  {
    SmallestIsUnique(a.le, Hashes(a.heap), Hashes(b.heap), a.inserted, CACHED_SHARES_CAPACITY);
  }
}
