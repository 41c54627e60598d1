/** Which WebIDs the profile cache holds (internal/authn/webid_cache.go): after a run of stores
    under a strictly increasing clock, exactly the most recently stored ones. */
module WebIdHistory {

  import opened Maps
  import opened WebIdCache

  /** A successful store. */
  datatype Store = Store(webId: string, at: int)

  /** `after` is a possible content of the cache once the store is done: if the cache was full
      and the WebID is new, an oldest entry is gone. */
  ghost predicate Step(maxSize: nat, before: Fetched, s: Store, after: Fetched) {
    if |before| >= maxSize && s.webId !in before
    then exists key :: IsOldest(before, key) && after == (before - {key})[s.webId := s.at]
    else after == before[s.webId := s.at]
  }

  /** A successful store of the cache object is such a step. */
  lemma StoreIsStep<P>(maxSize: nat, before: map<string, Entry<P>>, key: string, webId: string, e: Entry<P>)
    requires |before| >= maxSize && webId !in before ==> IsOldest(Times(before), key)
    ensures Step(maxSize, Times(before), Store(webId, e.fetchedAt),
      Times((if |before| >= maxSize && webId !in before then before - {key} else before)[webId := e]))
  {
    assert Times(before).Keys == before.Keys;
    if |before| >= maxSize && webId !in before {
      assert IsOldest(Times(before), key);
      assert Times((before - {key})[webId := e]) == (Times(before) - {key})[webId := e.fetchedAt];
    } else {
      assert Times(before[webId := e]) == Times(before)[webId := e.fetchedAt];
    }
  }

  /** The contents after each prefix of the stores, starting from an empty cache. */
  ghost predicate Run(maxSize: nat, h: seq<Store>, states: seq<Fetched>) {
    && |states| == |h| + 1 && states[0] == map[]
    && forall i :: 0 <= i < |h| ==> Step(maxSize, states[i], h[i], states[i + 1])
  }

  ghost predicate StrictClock(h: seq<Store>) {
    forall i, j :: 0 <= i < j < |h| ==> h[i].at < h[j].at
  }

  /** When each WebID of the run was last stored. */
  function LastStored(h: seq<Store>): Fetched {
    if h == [] then map[] else LastStored(h[..|h| - 1])[h[|h| - 1].webId := h[|h| - 1].at]
  }

  /** The cache is the most recent part of all that was stored: it agrees on the times, is as
      large as its capacity allows, and everything left out is older than everything kept. */
  ghost predicate MostRecent(maxSize: nat, cache: Fetched, all: Fetched) {
    && (forall k :: k in cache ==> k in all && cache[k] == all[k])
    && (forall k, j :: k in cache && j in all && j !in cache ==> all[j] < all[k])
    && |cache| == if |all| < maxSize then |all| else maxSize
  }

  ghost predicate DistinctBefore(all: Fetched, at: int) {
    && (forall k :: k in all ==> all[k] < at)
    && (forall k, j :: k in all && j in all && k != j ==> all[k] != all[j])
  }

  lemma PartSize(cache: Fetched, all: Fetched)
    requires forall k :: k in cache ==> k in all && cache[k] == all[k]
    ensures |cache| <= |all|
    ensures |cache| == |all| ==> cache == all
  {
    SubmapSize(cache, all);
  }

  lemma RoomKeepsMostRecent(maxSize: nat, cache: Fetched, all: Fetched, s: Store)
    requires MostRecent(maxSize, cache, all) && DistinctBefore(all, s.at) && (s.webId in cache || |cache| < maxSize)
    ensures MostRecent(maxSize, cache[s.webId := s.at], all[s.webId := s.at])
  {
    PartSize(cache, all);
    AddSize(all, s.webId, s.at);
    AddSize(cache, s.webId, s.at);
  }

  lemma EvictionKeepsMostRecent(maxSize: nat, cache: Fetched, all: Fetched, s: Store, key: string)
    requires 0 < maxSize == |cache| && MostRecent(maxSize, cache, all) && DistinctBefore(all, s.at)
    requires s.webId !in cache && IsOldest(cache, key)
    ensures MostRecent(maxSize, (cache - {key})[s.webId := s.at], all[s.webId := s.at])
  {
    PartSize(cache, all);
    AddSize(all, s.webId, s.at);
    RemoveSize(cache, key);
    AddSize(cache - {key}, s.webId, s.at);
    var after, now := (cache - {key})[s.webId := s.at], all[s.webId := s.at];
    forall k, j | k in after && j in now && j !in after ensures now[j] < now[k] {
      assert j == key || j !in cache;
      assert k != s.webId ==> all[key] < all[k];
    }
  }

  lemma StepKeepsMostRecent(maxSize: nat, cache: Fetched, all: Fetched, s: Store, after: Fetched)
    requires 0 < maxSize && MostRecent(maxSize, cache, all) && DistinctBefore(all, s.at) && Step(maxSize, cache, s, after)
    ensures MostRecent(maxSize, after, all[s.webId := s.at])
  {
    if s.webId in cache || |cache| < maxSize {
      RoomKeepsMostRecent(maxSize, cache, all, s);
    } else {
      var key :| IsOldest(cache, key) && after == (cache - {key})[s.webId := s.at];
      EvictionKeepsMostRecent(maxSize, cache, all, s, key);
    }
  }

  /** In every run of stores under a strictly increasing clock, the cache holds exactly the most
      recently stored WebIDs, each with the time of its last store. */
  lemma {:induction false} CacheIsMostRecent(maxSize: nat, h: seq<Store>, states: seq<Fetched>)
    requires 0 < maxSize && StrictClock(h) && Run(maxSize, h, states)
    ensures MostRecent(maxSize, states[|h|], LastStored(h))
  {
    if h == [] {
    } else {
      var n := |h| - 1;
      assert Run(maxSize, h[..n], states[..n + 1]);
      CacheIsMostRecent(maxSize, h[..n], states[..n + 1]);
      TimesDistinct(h[..n], h[n].at);
      StepKeepsMostRecent(maxSize, states[n], LastStored(h[..n]), h[n], states[n + 1]);
    }
  }

  lemma {:induction false} TimesDistinct(h: seq<Store>, at: int)
    requires StrictClock(h) && forall i :: 0 <= i < |h| ==> h[i].at < at
    ensures DistinctBefore(LastStored(h), at)
  {
    if h == [] {
    } else {
      TimesDistinct(h[..|h| - 1], h[|h| - 1].at);
    }
  }

  /** The WebIDs stored after the last store of the given one. */
  ghost function Later(all: Fetched, webId: string): set<string>
    requires webId in all
  {
    set k | k in all && all[webId] < all[k]
  }

  /** A WebID of the run is in the cache if and only if fewer than the capacity of others were
      stored after it. */
  lemma HeldIffFewLater(maxSize: nat, h: seq<Store>, states: seq<Fetched>, webId: string)
    requires 0 < maxSize && StrictClock(h) && Run(maxSize, h, states) && webId in LastStored(h)
    ensures webId in states[|h|] <==> |Later(LastStored(h), webId)| < maxSize
  {
    var cache, all := states[|h|], LastStored(h);
    CacheIsMostRecent(maxSize, h, states);
    if webId in cache {
      assert Later(all, webId) <= cache.Keys - {webId};
      SubsetSize(Later(all, webId), cache.Keys - {webId});
      assert |cache.Keys - {webId}| == |cache| - 1;
    } else {
      PartSize(cache, all);
      assert cache.Keys <= Later(all, webId);
      SubsetSize(cache.Keys, Later(all, webId));
    }
  }
}
