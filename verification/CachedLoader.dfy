/** The in-memory store of cache records (internal/authz/policy_refresh.go) and the policy loader
    that reads through it (internal/authz/policy_cached_loader.go). */
module CachedLoader {

  import opened Wrappers
  import opened PolicySources
  import opened PolicyRecords

  const SECOND := 1_000_000_000

  /** The expiry in nanoseconds, and the time the store was made with. */
  datatype Config = Config(expiry: int, storeNow: int)

  datatype LoadResult = LoadResult(loaded: Loaded, metadata: Record)

  /** One call: what is asked for, what the clock and the context say at the look-up and at the
      store, and what the underlying loader answers if it is asked. */
  datatype Call = Call(
    source: Source, lookupCancelled: bool, now: int, outcome: Option<LoadResult>,
    storeCancelled: bool, storedAt: int)

  datatype Metrics = Metrics(
    hits: nat, misses: nat, expiries: nat, errors: nat, storeErrors: nat, loadSuccesses: nat, loadErrors: nat)

  datatype World = World(records: map<string, Record>, metrics: Metrics)

  // ---------------------------------------------------------------- the store

  datatype Lookup = Failed | Missing | Found(record: Record)

  function Looked(env: Env, storeNow: int, records: map<string, Record>, cancelled: bool, source: Source): Lookup {
    var key := CacheKey(env, source);
    if cancelled || key == "" then Failed
    else if key !in records then Missing
    else
      match NormalizeRecord(env, records[key], storeNow)
      case None => Failed
      case Some(r) => Found(r)
  }

  class Store {
    const env: Env
    const storeNow: int
    var records: map<string, Record>

    constructor (env: Env, storeNow: int)
      ensures this.env == env && this.storeNow == storeNow && records == map[]
    {
      this.env, this.storeNow, records := env, storeNow, map[];
    }

    method GetPolicyCacheRecord(cancelled: bool, source: Source) returns (r: Lookup)
      ensures r == Looked(env, storeNow, records, cancelled, source)
    {
      if cancelled {
        return Failed;
      }
      var key := CacheKey(env, source);
      if key == "" {
        return Failed;
      }
      if key !in records {
        return Missing;
      }
      var normalized := NormalizeRecord(env, records[key], storeNow);
      r := if normalized.Some? then Found(normalized.value) else Failed;
    }

    method PutPolicyCacheRecord(cancelled: bool, record: Record) returns (ok: bool)
      modifies this
      ensures ok <==> !cancelled && NormalizeRecord(env, record, storeNow).Some?
      ensures !ok ==> records == old(records)
      ensures ok ==>
        var n := NormalizeRecord(env, record, storeNow).value;
        records == old(records)[n.cacheKey := n]
    {
      if cancelled {
        return false;
      }
      var normalized := NormalizeRecord(env, record, storeNow);
      if normalized.None? {
        return false;
      }
      records := records[normalized.value.cacheKey := normalized.value];
      ok := true;
    }
  }

  // ---------------------------------------------------------------- one call

  /** What a look-up decides: serve the record, go past the cache, or load, with the state of the
      record that was found and could not be served. */
  datatype Verdict = Serve(record: Record) | Bypass | Load(found: Option<State>)

  function Judged(env: Env, cfg: Config, records: map<string, Record>, c: Call): Verdict {
    match Looked(env, cfg.storeNow, records, c.lookupCancelled, c.source)
    case Failed => Bypass
    case Missing => Load(None)
    case Found(r) =>
      var state := StateAt(r.loadedAt, r.expiresAt, c.now);
      if state == Fresh then Serve(r) else Load(Some(state))
  }

  function ExpiresAt(cfg: Config, storedAt: int): int {
    if cfg.expiry > 0 then storedAt + cfg.expiry / SECOND else 0
  }

  /** The record a successful load leaves in the store; none when it cannot be stored. */
  function Kept(env: Env, cfg: Config, c: Call): Option<Record> {
    var outcome :- c.outcome;
    var record :- RecordForLoaded(env, outcome.loaded, c.storedAt, ExpiresAt(cfg, c.storedAt), "");
    if c.storeCancelled then None else NormalizeRecord(env, record, cfg.storeNow)
  }

  lemma KeptIs(env: Env, cfg: Config, c: Call, record: Option<Record>)
    requires c.outcome.Some?
    requires record == RecordForLoaded(env, c.outcome.value.loaded, c.storedAt, ExpiresAt(cfg, c.storedAt), "")
    ensures Kept(env, cfg, c) ==
      if record.None? || c.storeCancelled then None else NormalizeRecord(env, record.value, cfg.storeNow)
  {
  }

  function Answer(env: Env, cfg: Config, records: map<string, Record>, c: Call): Option<LoadResult> {
    match Judged(env, cfg, records, c)
    case Serve(r) => Some(LoadResult(Loaded(r.source, r.content), r))
    case Bypass => c.outcome
    case Load(_) => c.outcome
  }

  /** The counts after the look-up; a load to come is a miss. */
  function LookUpCounted(m: Metrics, verdict: Verdict): Metrics {
    match verdict
    case Serve(_) => m.(hits := m.hits + 1)
    case Bypass => m.(errors := m.errors + 1)
    case Load(Some(Expired)) => m.(expiries := m.expiries + 1, misses := m.misses + 1)
    case Load(Some(Stale)) => m.(misses := m.misses + 2)
    case Load(_) => m.(misses := m.misses + 1)
  }

  /** The counts after a load. */
  function LoadCounted(m: Metrics, outcome: Option<LoadResult>, stored: bool): Metrics {
    if outcome.None? then m.(loadErrors := m.loadErrors + 1)
    else m.(loadSuccesses := m.loadSuccesses + 1, storeErrors := m.storeErrors + (if stored then 0 else 1))
  }

  function Including(records: map<string, Record>, added: Option<Record>): map<string, Record> {
    if added.Some? then records[added.value.cacheKey := added.value] else records
  }

  /** The two parts of a call: the look-up, and what follows the load if the look-up asks for one.  No
      lock is held from the one to the other. */
  datatype Event = Begin(call: Call) | End(call: Call)

  function Step(env: Env, cfg: Config, w: World, e: Event): World {
    match e
    case Begin(c) => w.(metrics := LookUpCounted(w.metrics, Judged(env, cfg, w.records, c)))
    case End(c) =>
      World(Including(w.records, Kept(env, cfg, c)), LoadCounted(w.metrics, c.outcome, Kept(env, cfg, c).Some?))
  }

  function RunFrom(env: Env, cfg: Config, w: World, h: seq<Event>): World {
    if h == [] then w else Step(env, cfg, RunFrom(env, cfg, w, h[..|h| - 1]), h[|h| - 1])
  }

  class CachedPolicyLoader {
    const env: Env
    const expiry: int
    const store: Store
    var hits: nat
    var misses: nat
    var expiries: nat
    var errors: nat
    var storeErrors: nat
    var loadSuccesses: nat
    var loadErrors: nat

    ghost predicate Valid()
      reads this
    {
      env == store.env
    }

    ghost function Cfg(): Config
      reads this
    {
      Config(expiry, store.storeNow)
    }

    ghost function Counters(): Metrics
      reads this
    {
      Metrics(hits, misses, expiries, errors, storeErrors, loadSuccesses, loadErrors)
    }

    ghost function Abstract(): World
      reads this, store
    {
      World(store.records, Counters())
    }

    constructor (store: Store, configured: int)
      ensures Valid() && this.store == store && env == store.env
      ensures expiry == if configured == 0 then 300 * SECOND else configured
      ensures Counters() == Metrics(0, 0, 0, 0, 0, 0, 0)
    {
      this.store, env := store, store.env;
      expiry := if configured == 0 then 300 * SECOND else configured;
      hits, misses, expiries, errors, storeErrors, loadSuccesses, loadErrors := 0, 0, 0, 0, 0, 0, 0;
    }

    method StoreInCache(c: Call) returns (ok: bool)
      requires Valid() && c.outcome.Some?
      modifies store
      ensures ok <==> Kept(env, Cfg(), c).Some?
      ensures store.records == Including(old(store.records), Kept(env, Cfg(), c))
    {
      var expiresAt := 0;
      if expiry > 0 {
        expiresAt := c.storedAt + expiry / SECOND;
      }
      var record := RecordForLoaded(env, c.outcome.value.loaded, c.storedAt, expiresAt, "");
      KeptIs(env, Cfg(), c, record);
      if record.None? {
        return false;
      }
      ok := store.PutPolicyCacheRecord(c.storeCancelled, record.value);
    }

    /** Counts and stores what the underlying loader returned. */
    method End(c: Call) returns (r: Option<LoadResult>)
      requires Valid()
      modifies this, store
      ensures Valid() && Abstract() == Step(env, Cfg(), old(Abstract()), Event.End(c))
      ensures r == c.outcome
    {
      if c.outcome.None? {
        loadErrors := loadErrors + 1;
        return None;
      }
      var stored := StoreInCache(c);
      if !stored {
        storeErrors := storeErrors + 1;
      }
      loadSuccesses := loadSuccesses + 1;
      r := c.outcome;
    }

    /** Decides from the store: counts a hit, an error, or the miss and what was found. */
    method Begin(c: Call) returns (cached: Option<LoadResult>, load: bool)
      requires Valid()
      modifies this
      ensures Valid()
      ensures var verdict := Judged(env, Cfg(), store.records, c);
        && load == verdict.Load?
        && Counters() == LookUpCounted(old(Counters()), verdict)
        && (verdict.Serve? ==> cached == Some(LoadResult(Loaded(verdict.record.source, verdict.record.content), verdict.record)))
        && (verdict.Bypass? ==> cached == c.outcome)
    {
      cached, load := None, false;
      var cacheKey := CacheKey(env, c.source);
      if cacheKey == "" {
        errors := errors + 1;
        return c.outcome, false;
      }
      var found := store.GetPolicyCacheRecord(c.lookupCancelled, c.source);
      if found.Failed? {
        errors := errors + 1;
        return c.outcome, false;
      }
      if found.Found? {
        var state := StateAt(found.record.loadedAt, found.record.expiresAt, c.now);
        if state == Fresh {
          hits := hits + 1;
          return Some(LoadResult(Loaded(found.record.source, found.record.content), found.record)), false;
        }
        if state == Expired {
          expiries := expiries + 1;
        } else {
          misses := misses + 1;
        }
      }
      misses := misses + 1;
      load := true;
    }

    /** Any one event. */
    method Perform(e: Event)
      requires Valid()
      modifies this, store
      ensures Valid() && Abstract() == Step(env, Cfg(), old(Abstract()), e)
    {
      match e
      case Begin(c) => var _, _ := Begin(c);
      case End(c) => var _ := End(c);
    }

    method PerformAll(h: seq<Event>)
      requires Valid()
      modifies this, store
      ensures Valid() && Abstract() == RunFrom(env, Cfg(), old(Abstract()), h)
    {
      for i := 0 to |h|
        invariant Valid() && Abstract() == RunFrom(env, Cfg(), old(Abstract()), h[..i])
      {
        Perform(h[i]);
        assert h[..i + 1][..i] == h[..i];
      }
      assert h[..|h|] == h;
    }

    /** A call, and the parts of other calls that come while it loads. */
    method LoadPolicySource(c: Call, others: seq<Event>) returns (r: Option<LoadResult>)
      requires Valid()
      modifies this, store
      ensures Valid()
      ensures var before := old(Abstract());
        var begun := Step(env, Cfg(), before, Event.Begin(c));
        && r == Answer(env, Cfg(), before.records, c)
        && Abstract() == if Judged(env, Cfg(), before.records, c).Load?
                         then Step(env, Cfg(), RunFrom(env, Cfg(), begun, others), Event.End(c)) else begun
    {
      var load;
      r, load := Begin(c);
      if load {
        PerformAll(others);
        r := End(c);
      }
    }
  }
}
