/** The replay cache over whole runs (internal/authn/replay_cache.go): it answers like an
    unbounded history of accepted keys, except for keys that a full cache has evicted. */
module ReplayHistory {

  import opened Maps
  import opened ReplayCache

  /** A call on the cache; `evicted` is what a store chose to evict. */
  datatype Event =
    | Store(key: string, expiresAt: int, now: int, evicted: set<string>)
    | Cleanup(now: int)

  type History = seq<Event>

  function After(h: History): Entries {
    if h == [] then map[] else Step(After(h[..|h| - 1]), h[|h| - 1])
  }

  /** The entries after one call. */
  function Step(entries: Entries, e: Event): Entries {
    match e
    case Store(key, expiresAt, now, evicted) => AfterStore(entries, key, expiresAt, now, evicted)
    case Cleanup(now) => Live(entries, now)
  }

  /** The clock never runs backwards, and every store evicts only what it may. */
  ghost predicate Lawful(maxEntries: nat, h: History) {
    && InOrder(h)
    && (forall i :: 0 <= i < |h| ==> EvictsLawfully(maxEntries, h, i))
  }

  ghost predicate InOrder(h: History) {
    forall i, j :: 0 <= i < j < |h| ==> h[i].now <= h[j].now
  }

  ghost predicate EvictsLawfully(maxEntries: nat, h: History, i: nat)
    requires i < |h|
  {
    h[i].Store? ==> MayEvict(After(h[..i]), maxEntries, h[i].key, h[i].now, h[i].evicted)
  }

  lemma LawfulPrefix(maxEntries: nat, h: History, n: nat)
    requires Lawful(maxEntries, h) && n <= |h|
    ensures Lawful(maxEntries, h[..n])
  {
    forall i | 0 <= i < n ensures EvictsLawfully(maxEntries, h[..n], i) {
      assert EvictsLawfully(maxEntries, h, i);
      assert h[..n][..i] == h[..i];
    }
  }

  lemma AfterNext(h: History, e: Event)
    ensures After(h + [e]) == Step(After(h), e)
  {
    assert (h + [e])[..|h|] == h;
  }

  lemma InOrderNext(h: History, e: Event)
    requires InOrder(h) && (h != [] ==> h[|h| - 1].now <= e.now)
    ensures InOrder(h + [e])
  {
  }

  lemma EvictsAsBefore(maxEntries: nat, h: History, e: Event, i: nat)
    requires i < |h|
    ensures EvictsLawfully(maxEntries, h + [e], i) <==> EvictsLawfully(maxEntries, h, i)
  {
    assert (h + [e])[..i] == h[..i];
  }

  /** A store that evicts only what it may, no earlier than the last call, extends a run. */
  lemma LawfulNext(maxEntries: nat, h: History, e: Event)
    requires Lawful(maxEntries, h) && (h != [] ==> h[|h| - 1].now <= e.now)
    requires e.Store? ==> MayEvict(After(h), maxEntries, e.key, e.now, e.evicted)
    ensures Lawful(maxEntries, h + [e])
  {
    InOrderNext(h, e);
    forall i | 0 <= i < |h + [e]| ensures EvictsLawfully(maxEntries, h + [e], i) {
      if i < |h| {
        EvictsAsBefore(maxEntries, h, e, i);
      } else {
        assert (h + [e])[..i] == h;
      }
    }
  }

  ghost predicate AcceptedAt(h: History, i: nat) {
    i < |h| && h[i].Store? && Accepts(After(h[..i]), h[i].key, h[i].now)
  }

  ghost predicate EvictedAt(h: History, j: nat, key: string) {
    j < |h| && h[j].Store? && key in h[j].evicted
  }

  /** Call `i` was an accepted store of the key, recorded until `expiry`, and the key was not
      evicted since. */
  ghost predicate Remembers(h: History, i: nat, key: string, expiry: int) {
    && AcceptedAt(h, i) && h[i].key == key && Recorded(h[i].expiresAt, h[i].now) == expiry
    && forall j :: i < j < |h| ==> !EvictedAt(h, j, key)
  }

  /** What the last call remembers is what the calls before it do, unless it evicts the key. */
  lemma RemembersLast(h: History, i: nat, key: string, expiry: int)
    requires h != [] && i < |h| - 1
    ensures Remembers(h, i, key, expiry) <==> Remembers(h[..|h| - 1], i, key, expiry) && !EvictedAt(h, |h| - 1, key)
  {
    var n := |h| - 1;
    assert h[..n][..i] == h[..i];
    forall j | i < j < n ensures EvictedAt(h[..n], j, key) == EvictedAt(h, j, key) {
      assert h[..n][j] == h[j];
    }
  }

  /** Every entry goes back to an accepted store. */
  lemma {:induction false} EntriesExplained(maxEntries: nat, h: History, key: string)
    requires Lawful(maxEntries, h) && key in After(h)
    ensures exists i :: Remembers(h, i, key, After(h)[key])
  {
    var n := |h| - 1;
    var expiry := After(h)[key];
    if AcceptedAt(h, n) && h[n].key == key {
      assert Remembers(h, n, key, expiry);
    } else {
      LawfulPrefix(maxEntries, h, n);
      EntriesExplained(maxEntries, h[..n], key);
      var i: nat :| Remembers(h[..n], i, key, expiry);
      assert EvictsLawfully(maxEntries, h, n);
      RemembersLast(h, i, key, expiry);
    }
  }

  /** A call keeps an entry that is not expired and that it does not evict. */
  lemma StepKeeps(entries: Entries, e: Event, key: string, expiry: int)
    requires key in entries && entries[key] == expiry && e.now < expiry
    requires e.Store? ==> key !in e.evicted
    ensures key in Step(entries, e) && Step(entries, e)[key] == expiry
  {
    assert key in Live(entries, e.now) && Live(entries, e.now)[key] == expiry;
  }

  /** What is remembered and has not expired by the last call is an entry. */
  lemma {:induction false} RememberedIsEntry(maxEntries: nat, h: History, i: nat, key: string, expiry: int)
    requires Lawful(maxEntries, h) && Remembers(h, i, key, expiry)
    requires h[|h| - 1].now < expiry
    ensures key in After(h) && After(h)[key] == expiry
  {
    var n := |h| - 1;
    if i == n {
    } else {
      LawfulPrefix(maxEntries, h, n);
      RemembersLast(h, i, key, expiry);
      assert h[..n][n - 1].now <= h[n].now;
      RememberedIsEntry(maxEntries, h[..n], i, key, expiry);
      StepKeeps(After(h[..n]), h[n], key, expiry);
    }
  }

  /** In every run, a non-empty key is refused if and only if an earlier accepted store of it has
      not expired and was not evicted since. */
  lemma RefusedIffRemembered(maxEntries: nat, h: History, key: string, now: int)
    requires Lawful(maxEntries, h) && key != ""
    requires h != [] ==> h[|h| - 1].now <= now
    ensures !Accepts(After(h), key, now) <==> exists i, expiry :: Remembers(h, i, key, expiry) && now < expiry
  {
    if !Accepts(After(h), key, now) {
      EntriesExplained(maxEntries, h, key);
    }
    forall i: nat, expiry | Remembers(h, i, key, expiry) && now < expiry ensures !Accepts(After(h), key, now) {
      RememberedIsEntry(maxEntries, h, i, key, expiry);
    }
  }

  /** Call `i` was an accepted store of the key that has not expired. */
  ghost predicate Unexpired(h: History, i: nat, key: string, now: int) {
    AcceptedAt(h, i) && h[i].key == key && now < Recorded(h[i].expiresAt, h[i].now)
  }

  /** Until the first eviction the cache is the unbounded history: a key is refused if and only
      if some accepted store of it has not expired. */
  lemma UnboundedUntilEviction(maxEntries: nat, h: History, key: string, now: int)
    requires Lawful(maxEntries, h) && key != ""
    requires h != [] ==> h[|h| - 1].now <= now
    requires forall j :: 0 <= j < |h| ==> !EvictedAt(h, j, key)
    ensures !Accepts(After(h), key, now) <==> exists i :: Unexpired(h, i, key, now)
  {
    RefusedIffRemembered(maxEntries, h, key, now);
    if i: nat, expiry :| Remembers(h, i, key, expiry) && now < expiry {
      assert Unexpired(h, i, key, now);
    }
    if i: nat :| Unexpired(h, i, key, now) {
      assert Remembers(h, i, key, Recorded(h[i].expiresAt, h[i].now));
    }
  }

  /** Two accepted stores of one key, with no eviction of it in between, are separated by the
      recorded expiry of the first. */
  lemma AcceptedTwiceSeparated(maxEntries: nat, h: History, i: nat, j: nat)
    requires Lawful(maxEntries, h) && i < j && AcceptedAt(h, i) && AcceptedAt(h, j) && h[i].key == h[j].key
    requires forall k :: i < k < j ==> !EvictedAt(h, k, h[i].key)
    ensures Recorded(h[i].expiresAt, h[i].now) <= h[j].now
  {
    var p, key, expiry := h[..j], h[i].key, Recorded(h[i].expiresAt, h[i].now);
    LawfulPrefix(maxEntries, h, j);
    assert h[..j][..i] == h[..i];
    forall k | i < k < j ensures !EvictedAt(p, k, key) {
      assert !EvictedAt(h, k, key);
    }
    assert Remembers(p, i, key, expiry);
    RefusedIffRemembered(maxEntries, p, key, h[j].now);
  }

  /** The cache never holds more than its capacity. */
  lemma {:induction false} SizeBounded(maxEntries: nat, h: History)
    requires Lawful(maxEntries, h) && 0 < maxEntries
    ensures |After(h)| <= maxEntries
  {
    if h == [] {
    } else {
      var n := |h| - 1;
      var before := After(h[..n]);
      LawfulPrefix(maxEntries, h, n);
      SizeBounded(maxEntries, h[..n]);
      LiveIsNoLarger(before, h[n].now);
      if AcceptedAt(h, n) {
        assert EvictsLawfully(maxEntries, h, n);
        StoreSize(Live(before, h[n].now), maxEntries, h[n].key, h[n].evicted, Recorded(h[n].expiresAt, h[n].now));
      }
    }
  }

  lemma LiveIsNoLarger(entries: Entries, now: int)
    ensures |Live(entries, now)| <= |entries|
  {
    SubsetSize(Live(entries, now).Keys, entries.Keys);
  }

  lemma StoreSize(live: Entries, maxEntries: nat, key: string, evicted: set<string>, expiry: int)
    requires 0 < maxEntries && |live| <= maxEntries && key !in live
    requires if |live| >= maxEntries then evicted <= live.Keys && |evicted| == EvictionSize(maxEntries) else evicted == {}
    ensures |(live - evicted)[key := expiry]| <= maxEntries
  {
    assert (live - evicted).Keys == live.Keys - evicted;
    assert (live - evicted)[key := expiry].Keys == live.Keys - evicted + {key};
    if evicted != {} {
      assert live.Keys == (live.Keys - evicted) + evicted;
    }
  }

  /** The keys that have not expired by `now`. */
  function StillGood(entries: Entries, now: int): set<string> {
    set k | k in entries && entries[k] > now
  }

  /** Those of them that the entries afterwards still hold until the same time. */
  function Kept(before: Entries, after: Entries, now: int): set<string> {
    set k | k in StillGood(before, now) && k in after && after[k] == before[k]
  }

  lemma StoreKeeps(entries: Entries, maxEntries: nat, key: string, expiresAt: int, now: int, evicted: set<string>)
    requires |StillGood(entries, now)| <= maxEntries
    requires Accepts(entries, key, now) && MayEvict(entries, maxEntries, key, now, evicted)
    ensures var after := AfterStore(entries, key, expiresAt, now, evicted);
      |Kept(entries, after, now)| == if |StillGood(entries, now)| < maxEntries then |StillGood(entries, now)| else 9 * maxEntries / 10
  {
    var good := StillGood(entries, now);
    assert Live(entries, now).Keys == good;
    assert Kept(entries, AfterStore(entries, key, expiresAt, now, evicted), now) == good - evicted;
    if |good| >= maxEntries {
      assert good == (good - evicted) + evicted;
    } else {
      assert good - evicted == good;
    }
  }

  lemma RefusalKeeps(entries: Entries, e: Event)
    requires e.Store? ==> !Accepts(entries, e.key, e.now)
    ensures Kept(entries, Step(entries, e), e.now) == StillGood(entries, e.now)
  {
  }

  /** How many unexpired keys a call keeps: nine tenths of them, rounded down, if it is an accepted
      store and they fill the cache, and all of them otherwise. */
  function KeptSize(maxEntries: nat, entries: Entries, e: Event): nat {
    var good := |StillGood(entries, e.now)|;
    if e.Store? && Accepts(entries, e.key, e.now) && good == maxEntries then 9 * maxEntries / 10 else good
  }

  lemma GoodWithin(maxEntries: nat, h: History, now: int)
    requires Lawful(maxEntries, h) && 0 < maxEntries
    ensures |StillGood(After(h), now)| <= maxEntries
  {
    SizeBounded(maxEntries, h);
    SubsetSize(StillGood(After(h), now), After(h).Keys);
  }

  /** In every run every call keeps that many. */
  lemma CallKeeps(maxEntries: nat, h: History, i: nat)
    requires Lawful(maxEntries, h) && 0 < maxEntries && i < |h|
    ensures |Kept(After(h[..i]), After(h[..i + 1]), h[i].now)| == KeptSize(maxEntries, After(h[..i]), h[i])
  {
    var before, e := After(h[..i]), h[i];
    LawfulPrefix(maxEntries, h, i);
    GoodWithin(maxEntries, h[..i], e.now);
    assert h[..i + 1] == h[..i] + [e];
    AfterNext(h[..i], e);
    if AcceptedAt(h, i) {
      assert EvictsLawfully(maxEntries, h, i);
      StoreKeeps(before, maxEntries, e.key, e.expiresAt, e.now, e.evicted);
    } else {
      RefusalKeeps(before, e);
    }
  }
}
