/** Runs of the cached policy loader from an empty store
    (internal/authz/policy_cached_loader.go). */
module CachedLoaderHistory {

  import opened Wrappers
  import opened Text
  import opened PolicyInput
  import opened PolicySources
  import opened PolicyRecords
  import opened CachedLoader

  function Run(env: Env, cfg: Config, h: seq<Event>): World {
    RunFrom(env, cfg, World(map[], Metrics(0, 0, 0, 0, 0, 0, 0)), h)
  }

  /** What the store holds after the events. */
  function Records(env: Env, cfg: Config, h: seq<Event>): map<string, Record> {
    Run(env, cfg, h).records
  }

  /** The key under which an event stores a load. */
  function StoredKey(env: Env, cfg: Config, e: Event): Option<string> {
    if e.Begin? then None
    else
      var kept :- Kept(env, cfg, e.call);
      Some(kept.cacheKey)
  }

  /** The keys under which the events of a run stored. */
  function StoredKeys(env: Env, cfg: Config, h: seq<Event>): (keys: seq<Option<string>>)
    ensures |keys| == |h| && forall i :: 0 <= i < |h| ==> keys[i] == StoredKey(env, cfg, h[i])
  {
    seq(|h|, i requires 0 <= i < |h| => StoredKey(env, cfg, h[i]))
  }

  /** The last event that stored a load under the key. */
  function Newest(env: Env, cfg: Config, h: seq<Event>, key: string): (r: Option<nat>)
    ensures r.Some? ==> r.value < |h|
  {
    LastIndex(StoredKeys(env, cfg, h), Some(key))
  }

  function LastIndex<T(==)>(s: seq<T>, x: T): (r: Option<nat>)
    ensures r.Some? ==> r.value < |s| && s[r.value] == x && forall j :: r.value < j < |s| ==> s[j] != x
    ensures r.None? ==> forall j :: 0 <= j < |s| ==> s[j] != x
  {
    if s == [] then None
    else if s[|s| - 1] == x then Some(|s| - 1)
    else LastIndex(s[..|s| - 1], x)
  }

  /** It stored under the key, and no later event did. */
  lemma NewestMeaning(env: Env, cfg: Config, h: seq<Event>, key: string, j: nat)
    requires j < |h|
    ensures Newest(env, cfg, h, key) == Some(j) ==> StoredKey(env, cfg, h[j]) == Some(key)
    ensures Newest(env, cfg, h, key).None? || Newest(env, cfg, h, key).value < j ==> StoredKey(env, cfg, h[j]) != Some(key)
  {
    assert StoredKeys(env, cfg, h)[j] == StoredKey(env, cfg, h[j]);
  }

  /** Whatever the order of look-ups and stores, the store holds under each key the record of the last
      event that stored under it. */
  lemma {:induction false} StoreIsNewest(env: Env, cfg: Config, h: seq<Event>, key: string)
    ensures key in Records(env, cfg, h) <==> Newest(env, cfg, h, key).Some?
    ensures key in Records(env, cfg, h) ==>
      Kept(env, cfg, h[Newest(env, cfg, h, key).value].call) == Some(Records(env, cfg, h)[key])
      && Records(env, cfg, h)[key].cacheKey == key
  {
    if h == [] {
    } else {
      StoreIsNewest(env, cfg, h[..|h| - 1], key);
      assert StoredKeys(env, cfg, h)[..|h| - 1] == StoredKeys(env, cfg, h[..|h| - 1]);
      StoreStep(env, cfg, h);
    }
  }

  lemma StoreStep(env: Env, cfg: Config, h: seq<Event>)
    requires h != []
    ensures var front, e := h[..|h| - 1], h[|h| - 1];
      Records(env, cfg, h) == Including(Records(env, cfg, front), if e.End? then Kept(env, cfg, e.call) else None)
  {
  }

  // ---------------------------------------------------------------- what a stored record holds

  lemma KeyTrimmed(env: Env, source: Source)
    requires PrintsHex(env)
    ensures Trim(CacheKey(env, source)) == CacheKey(env, source)
  {
    var key := CacheKey(env, source);
    TrimTrims(key);
    if NormalizeSource(env.lib, source).Some? {
      var hex := env.digest(KeyPreimage(NormalizeSource(env.lib, source).value));
      assert LowerHex(hex) && key == "policy-source:" + hex;
      assert key[|key| - 1] == hex[63];
    }
  }

  lemma KeptHolds(env: Env, cfg: Config, c: Call)
    requires PrintsHex(env) && Kept(env, cfg, c).Some?
    ensures var r := Kept(env, cfg, c).value;
      && r.content == c.outcome.value.loaded.content
      && r.document.sha256 == env.contentDigest(r.content)
      && r.loadedAt == c.storedAt >= 0 && r.expiresAt == ExpiresAt(cfg, c.storedAt)
      && exists s :: r.cacheKey == CacheKey(env, s)
  {
    var loaded := c.outcome.value.loaded;
    RecordHolds(env, loaded, c.storedAt, ExpiresAt(cfg, c.storedAt), "");
    var made := RecordForLoaded(env, loaded, c.storedAt, ExpiresAt(cfg, c.storedAt), "").value;
    assert LowerHex(made.document.sha256);
    NormalizeKeeps(env, made, cfg.storeNow);
  }

  /** A stored record that can be read is served with its content, hash, times and key. */
  lemma ReadHolds(env: Env, cfg: Config, r: Record)
    requires PrintsHex(env)
    requires r.document.sha256 == env.contentDigest(r.content)
    requires r.cacheKey != "" && Trim(r.cacheKey) == r.cacheKey
    requires NormalizeRecord(env, r, cfg.storeNow).Some?
    ensures var n := NormalizeRecord(env, r, cfg.storeNow).value;
      && n.content == r.content && n.document.sha256 == env.contentDigest(r.content)
      && n.loadedAt == r.loadedAt && n.expiresAt == r.expiresAt && n.cacheKey == r.cacheKey
  {
    NormalizeKeeps(env, r, cfg.storeNow);
  }

  // ---------------------------------------------------------------- hits

  predicate Readable(env: Env, cfg: Config, c: Call) {
    Kept(env, cfg, c).Some? && NormalizeRecord(env, Kept(env, cfg, c).value, cfg.storeNow).Some?
  }

  /** The load stored by `stored` is usable by `c`: it was stored at a positive time, and either
      nothing expires or less than the expiry, in whole seconds, has passed. */
  predicate InTime(cfg: Config, stored: Call, c: Call) {
    stored.storedAt > 0 && (cfg.expiry <= 0 || c.now - stored.storedAt < cfg.expiry / SECOND)
  }

  /** What the look-up finds after a run, in terms of the run. */
  lemma LookupFinds(env: Env, cfg: Config, h: seq<Event>, c: Call)
    requires PrintsHex(env)
    ensures var key, found := CacheKey(env, c.source), Looked(env, cfg.storeNow, Records(env, cfg, h), c.lookupCancelled, c.source);
      && (found.Missing? <==> !c.lookupCancelled && key != "" && Newest(env, cfg, h, key).None?)
      && (found.Found? <==>
           !c.lookupCancelled && key != "" && Newest(env, cfg, h, key).Some?
           && Readable(env, cfg, h[Newest(env, cfg, h, key).value].call))
      && (found.Found? ==>
           var stored := h[Newest(env, cfg, h, key).value].call;
           && found.record.content == stored.outcome.value.loaded.content
           && found.record.document.sha256 == env.contentDigest(found.record.content)
           && found.record.loadedAt == stored.storedAt >= 0
           && found.record.expiresAt == ExpiresAt(cfg, stored.storedAt)
           && found.record.cacheKey == key)
  {
    var key := CacheKey(env, c.source);
    StoreIsNewest(env, cfg, h, key);
    if key in Records(env, cfg, h) {
      var stored, r := h[Newest(env, cfg, h, key).value].call, Records(env, cfg, h)[key];
      KeptHolds(env, cfg, stored);
      KeyTrimmed(env, c.source);
      if key != "" && Readable(env, cfg, stored) {
        ReadHolds(env, cfg, r);
      }
    }
  }

  /** A call is served from the cache if and only if it is not cancelled, its source is valid, and
      the last load stored under its key is readable and in time.  It then gets that load's content
      byte for byte, under its own key, with the hash of that content. */
  lemma HitIsNewestLoad(env: Env, cfg: Config, h: seq<Event>, c: Call)
    requires PrintsHex(env)
    ensures var key, verdict := CacheKey(env, c.source), Judged(env, cfg, Records(env, cfg, h), c);
      && (verdict.Serve? <==>
           && !c.lookupCancelled && key != "" && Newest(env, cfg, h, key).Some?
           && Readable(env, cfg, h[Newest(env, cfg, h, key).value].call)
           && InTime(cfg, h[Newest(env, cfg, h, key).value].call, c))
      && (verdict.Serve? ==>
           var answer := Answer(env, cfg, Records(env, cfg, h), c);
           && answer.Some?
           && answer.value.loaded.content == h[Newest(env, cfg, h, key).value].call.outcome.value.loaded.content
           && answer.value.metadata.document.sha256 == env.contentDigest(answer.value.loaded.content)
           && answer.value.metadata.cacheKey == key)
  {
    LookupFinds(env, cfg, h, c);
  }

  // ---------------------------------------------------------------- settled media types

  /** A canonical media type is its own canonical form. */
  ghost predicate Settled(lib: Library) {
    forall s :: lib.mediaType(s).Some? ==>
      var m := lib.mediaType(s).value;
      m != "" && Trim(m) == m && lib.mediaType(m) == Some(m)
  }

  lemma SourceSettled(lib: Library, s: Source)
    requires Settled(lib) && NormalizeSource(lib, s).Some?
    ensures NormalizeSource(lib, NormalizeSource(lib, s).value) == NormalizeSource(lib, s)
  {
    TrimTrims(s.uri);
    TrimTrims(Trim(s.uri));
    TrimTrims(s.contentType);
    TrimTrims(Trim(s.contentType));
  }

  lemma {:induction false} LowerTwice(s: string)
    ensures Lower(Lower(s)) == Lower(s)
  {
    if s == "" {
    } else {
      LowerTwice(s[1..]);
      assert Lower(s)[1..] == Lower(s[1..]);
    }
  }

  lemma DocumentSettled(lib: Library, d: Document)
    requires Settled(lib) && NormalizeDocument(lib, d).Some?
    ensures NormalizeDocument(lib, NormalizeDocument(lib, d).value) == NormalizeDocument(lib, d)
  {
    TrimTrims(d.uri);
    TrimTrims(Trim(d.uri));
    var sha := Lower(Trim(d.sha256));
    TrimTrims(sha);
    LowerTwice(Trim(d.sha256));
  }

  lemma RecordSettled(env: Env, r: Record, now: int)
    requires PrintsHex(env) && Settled(env.lib)
    requires NormalizeRecord(env, r, now).Some?
    ensures NormalizeRecord(env, NormalizeRecord(env, r, now).value, now) == NormalizeRecord(env, r, now)
  {
    var n := NormalizeRecord(env, r, now).value;
    SourceSettled(env.lib, r.source);
    OneDocumentIs(env.lib, r.document);
    OneDocumentIs(env.lib, n.document);
    DocumentSettled(env.lib, r.document);
    KeyTrimmed(env, n.source);
    VersionTrimmed(env, r, now);
  }

  lemma VersionTrimmed(env: Env, r: Record, now: int)
    requires PrintsHex(env)
    requires NormalizeRecord(env, r, now).Some?
    ensures Trim(NormalizeRecord(env, r, now).value.version) == NormalizeRecord(env, r, now).value.version
  {
    var n := NormalizeRecord(env, r, now).value;
    TrimTrims(r.version);
    TrimTrims(n.version);
    if Trim(r.version) == "" {
      VersionHex(env, n.source, n.document, r.loadedAt, r.expiresAt);
    }
  }

  lemma VersionHex(env: Env, s: Source, d: Document, loadedAt: int, expiresAt: int)
    requires PrintsHex(env)
    ensures Trimmed(CacheVersion(env, s, d, loadedAt, expiresAt))
  {
    var v := CacheVersion(env, s, d, loadedAt, expiresAt);
    if v != "" {
      var text := Join(VersionParts(
        NormalizeSource(env.lib, s).value, OneDocument(env.lib, d).value, loadedAt, expiresAt));
      assert LowerHex(env.digest(text)) && v == "sha256:" + env.digest(text);
      assert v[|v| - 1] == env.digest(text)[63];
    }
  }

  // ---------------------------------------------------------------- sources without a content type

  /** The digest keeps the key of the source apart from those of all loads of the run. */
  ghost predicate KeyApart(env: Env, h: seq<Event>, source: Source) {
    forall i :: 0 <= i < |h| && h[i].call.outcome.Some? ==>
      var other := h[i].call.outcome.value.loaded.source;
      NormalizeSource(env.lib, source).Some? && NormalizeSource(env.lib, other).Some? ==>
        Apart(env.digest, KeyPreimage(NormalizeSource(env.lib, source).value),
              KeyPreimage(NormalizeSource(env.lib, other).value))
  }

  /** A record is stored under the key of a source that names a content type. */
  lemma KeptIsTyped(env: Env, cfg: Config, c: Call)
    requires PrintsHex(env) && Settled(env.lib) && Kept(env, cfg, c).Some?
    ensures var n := NormalizeSource(env.lib, c.outcome.value.loaded.source);
      n.Some? && n.value.contentType != "" && Kept(env, cfg, c).value.cacheKey == CacheKey(env, c.outcome.value.loaded.source)
  {
    var made := RecordForLoaded(env, c.outcome.value.loaded, c.storedAt, ExpiresAt(cfg, c.storedAt), "").value;
    SourceSettled(env.lib, c.outcome.value.loaded.source);
    KeyTrimmed(env, made.source);
  }

  /** A source that names no content type is never served from the cache: every call for it that is
      not cancelled loads again. */
  lemma UntypedNeverServed(env: Env, cfg: Config, h: seq<Event>, c: Call)
    requires PrintsHex(env) && Settled(env.lib) && MediaTypesPlain(env.lib) && KeyApart(env, h, c.source)
    requires NormalizeSource(env.lib, c.source).Some? && NormalizeSource(env.lib, c.source).value.contentType == ""
    ensures Judged(env, cfg, Records(env, cfg, h), c) == if c.lookupCancelled then Bypass else Load(None)
  {
    var key := CacheKey(env, c.source);
    LookupFinds(env, cfg, h, c);
    if Newest(env, cfg, h, key).Some? {
      var e := h[Newest(env, cfg, h, key).value];
      KeptIsTyped(env, cfg, e.call);
      CacheKeys(env, c.source, e.call.outcome.value.loaded.source);
      assert false;
    }
  }

  // ---------------------------------------------------------------- counts

  predicate FoundStale(env: Env, cfg: Config, h: seq<Event>, i: nat)
    requires i < |h|
  {
    h[i].Begin? && Judged(env, cfg, Records(env, cfg, h[..i]), h[i].call) == Load(Some(Stale))
  }

  /** The number of calls that found a record stored at time zero. */
  function Stales(env: Env, cfg: Config, h: seq<Event>): nat {
    if h == [] then 0
    else Stales(env, cfg, h[..|h| - 1]) + if FoundStale(env, cfg, h, |h| - 1) then 1 else 0
  }

  function Calls(h: seq<Event>): nat {
    if h == [] then 0 else Calls(h[..|h| - 1]) + if h[|h| - 1].Begin? then 1 else 0
  }

  /** The calls that are loading. */
  function Loading(env: Env, cfg: Config, h: seq<Event>): multiset<Call> {
    if h == [] then multiset{}
    else
      var front, e := h[..|h| - 1], h[|h| - 1];
      var before := Loading(env, cfg, front);
      if e.End? then before - multiset{e.call}
      else if Judged(env, cfg, Records(env, cfg, front), e.call).Load? then before + multiset{e.call}
      else before
  }

  /** Only a call that is loading ends. */
  ghost predicate Lawful(env: Env, cfg: Config, h: seq<Event>) {
    forall i :: 0 <= i < |h| ==> EndsLoading(env, cfg, h, i)
  }

  predicate EndsLoading(env: Env, cfg: Config, h: seq<Event>, i: nat)
    requires i < |h|
  {
    h[i].End? ==> h[i].call in Loading(env, cfg, h[..i])
  }

  lemma LawfulFront(env: Env, cfg: Config, h: seq<Event>)
    requires h != [] && Lawful(env, cfg, h)
    ensures Lawful(env, cfg, h[..|h| - 1])
  {
    var n := |h| - 1;
    forall i | 0 <= i < n ensures EndsLoading(env, cfg, h[..n], i) {
      assert EndsLoading(env, cfg, h, i);
      assert h[..n][..i] == h[..i];
    }
  }

  /** A record is found stale exactly when it was stored at time zero. */
  lemma StaleIff(env: Env, cfg: Config, h: seq<Event>, c: Call)
    requires PrintsHex(env)
    ensures var key := CacheKey(env, c.source);
      Judged(env, cfg, Records(env, cfg, h), c) == Load(Some(Stale)) <==>
        && !c.lookupCancelled && key != "" && Newest(env, cfg, h, key).Some?
        && Readable(env, cfg, h[Newest(env, cfg, h, key).value].call)
        && h[Newest(env, cfg, h, key).value].call.storedAt == 0
  {
    LookupFinds(env, cfg, h, c);
  }

  lemma {:induction false} NoneStale(env: Env, cfg: Config, h: seq<Event>)
    requires PrintsHex(env)
    requires forall i :: 0 <= i < |h| ==> h[i].call.storedAt > 0
    ensures Stales(env, cfg, h) == 0
  {
    if h == [] {
    } else {
      var front := h[..|h| - 1];
      NoneStale(env, cfg, front);
      StaleIff(env, cfg, front, h[|h| - 1].call);
    }
  }

  lemma BeginCounts(m: Metrics, verdict: Verdict)
    ensures var n, stale := LookUpCounted(m, verdict), if verdict == Load(Some(Stale)) then 1 else 0;
      && n.hits + n.misses + n.errors == m.hits + m.misses + m.errors + 1 + stale
      && n.misses == m.misses + stale + (if verdict.Load? then 1 else 0)
      && n.loadSuccesses == m.loadSuccesses && n.loadErrors == m.loadErrors
  {
  }

  lemma EndCounts(m: Metrics, outcome: Option<LoadResult>, stored: bool)
    ensures var n := LoadCounted(m, outcome, stored);
      && n.hits == m.hits && n.misses == m.misses && n.errors == m.errors
      && n.loadSuccesses + n.loadErrors == m.loadSuccesses + m.loadErrors + 1
  {
  }

  lemma LoadingNext(env: Env, cfg: Config, h: seq<Event>)
    requires h != [] && EndsLoading(env, cfg, h, |h| - 1)
    ensures var front, e := h[..|h| - 1], h[|h| - 1];
      |Loading(env, cfg, h)| == |Loading(env, cfg, front)| +
        if e.End? then -1 else if Judged(env, cfg, Records(env, cfg, front), e.call).Load? then 1 else 0
  {
  }

  /** However calls overlap, every call is a hit, a miss or a cache error, and every miss is a load
      that succeeded, failed or is under way, except that finding a stale record counts one miss
      more. */
  lemma {:induction false} CountsBalance(env: Env, cfg: Config, h: seq<Event>)
    requires Lawful(env, cfg, h)
    ensures var m := Run(env, cfg, h).metrics;
      && m.hits + m.misses + m.errors == Calls(h) + Stales(env, cfg, h)
      && m.misses == m.loadSuccesses + m.loadErrors + |Loading(env, cfg, h)| + Stales(env, cfg, h)
  {
    if h == [] {
    } else {
      var front, e := h[..|h| - 1], h[|h| - 1];
      LawfulFront(env, cfg, h);
      CountsBalance(env, cfg, front);
      LoadingNext(env, cfg, h);
      BeginCounts(Run(env, cfg, front).metrics, Judged(env, cfg, Records(env, cfg, front), e.call));
      EndCounts(Run(env, cfg, front).metrics, e.call.outcome, Kept(env, cfg, e.call).Some?);
    }
  }

  /** Once no call is loading, hits and misses add up to the calls, and misses to the loads, if and
      only if there was no cache error and no stale record was found; with positive store times only
      the errors matter. */
  lemma CountsIff(env: Env, cfg: Config, h: seq<Event>)
    requires Lawful(env, cfg, h) && Loading(env, cfg, h) == multiset{}
    ensures var m := Run(env, cfg, h).metrics;
      (m.hits + m.misses == Calls(h) && m.misses == m.loadSuccesses + m.loadErrors)
        <==> m.errors == 0 && Stales(env, cfg, h) == 0
    ensures PrintsHex(env) && (forall i :: 0 <= i < |h| ==> h[i].call.storedAt > 0) ==>
      var m := Run(env, cfg, h).metrics;
      && m.misses == m.loadSuccesses + m.loadErrors
      && (m.hits + m.misses == Calls(h) <==> m.errors == 0)
  {
    CountsBalance(env, cfg, h);
    if PrintsHex(env) && (forall i :: 0 <= i < |h| ==> h[i].call.storedAt > 0) {
      NoneStale(env, cfg, h);
    }
  }

  /** How often a look-up counts a miss. */
  function Missed(verdict: Verdict): nat {
    if verdict == Load(Some(Stale)) then 2 else if verdict.Load? then 1 else 0
  }

  lemma MissesNext(env: Env, cfg: Config, h: seq<Event>, e: Event)
    ensures Run(env, cfg, h + [e]).metrics.misses == Run(env, cfg, h).metrics.misses
      + (if e.Begin? then Missed(Judged(env, cfg, Records(env, cfg, h), e.call)) else 0)
  {
    assert (h + [e])[..|h|] == h;
  }

  lemma NothingFound(env: Env, cfg: Config, c: Call)
    requires !c.lookupCancelled && CacheKey(env, c.source) != ""
    ensures Judged(env, cfg, Records(env, cfg, []), c) == Load(None)
  {
  }

  lemma StaleFound(env: Env, cfg: Config, c: Call, h: seq<Event>)
    requires PrintsHex(env) && Readable(env, cfg, c) && c.storedAt == 0 && !c.lookupCancelled
    requires CacheKey(env, c.source) == Kept(env, cfg, c).value.cacheKey != ""
    requires h != [] && h[|h| - 1] == End(c)
    ensures Judged(env, cfg, Records(env, cfg, h), c) == Load(Some(Stale))
  {
    var key := CacheKey(env, c.source);
    assert StoredKeys(env, cfg, h)[|h| - 1] == Some(key);
    StaleIff(env, cfg, h, c);
  }

  /** A stale record does occur: a load stored at time zero and asked for again. */
  lemma StaleCountsTwice(env: Env, cfg: Config, c: Call)
    requires PrintsHex(env) && Readable(env, cfg, c) && c.storedAt == 0 && !c.lookupCancelled
    requires CacheKey(env, c.source) == Kept(env, cfg, c).value.cacheKey != ""
    ensures Run(env, cfg, [Begin(c), End(c), Begin(c)]).metrics.misses == 3
  {
    var one, two := [Begin(c)], [Begin(c), End(c)];
    assert [] + one == one && one + [End(c)] == two && two + [Begin(c)] == [Begin(c), End(c), Begin(c)];
    NothingFound(env, cfg, c);
    StaleFound(env, cfg, c, two);
    MissesNext(env, cfg, [], Begin(c));
    MissesNext(env, cfg, one, End(c));
    MissesNext(env, cfg, two, Begin(c));
  }

  // ---------------------------------------------------------------- settled hits

  /** With settled media types every stored load is readable, so a call is served exactly when the
      last load under its key is in time, and the cache fails only on cancelled calls and invalid
      sources. */
  lemma SettledHits(env: Env, cfg: Config, h: seq<Event>, c: Call)
    requires PrintsHex(env) && Settled(env.lib)
    ensures var key, verdict := CacheKey(env, c.source), Judged(env, cfg, Records(env, cfg, h), c);
      && (verdict.Bypass? <==> c.lookupCancelled || key == "")
      && (verdict.Serve? <==>
           && !verdict.Bypass? && Newest(env, cfg, h, key).Some?
           && InTime(cfg, h[Newest(env, cfg, h, key).value].call, c))
  {
    var key := CacheKey(env, c.source);
    LookupFinds(env, cfg, h, c);
    StoreIsNewest(env, cfg, h, key);
    if Newest(env, cfg, h, key).Some? {
      KeptReadable(env, cfg, h[Newest(env, cfg, h, key).value].call);
    }
  }

  lemma KeptReadable(env: Env, cfg: Config, c: Call)
    requires PrintsHex(env) && Settled(env.lib) && Kept(env, cfg, c).Some?
    ensures Readable(env, cfg, c)
  {
    var made := RecordForLoaded(env, c.outcome.value.loaded, c.storedAt, ExpiresAt(cfg, c.storedAt), "").value;
    RecordSettled(env, made, cfg.storeNow);
  }
}
