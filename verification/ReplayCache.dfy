/** The replay cache for proofs of possession (internal/authn/replay_cache.go): keys are kept
    until they expire, expired keys are purged on every store, and a full cache evicts keys of
    its own choosing. */
module ReplayCache {

  import opened Maps

  const MINUTE: int := 60_000_000_000
  const DEFAULT_MAX_ENTRIES: nat := 10000

  type Entries = map<string, int>

  /** The entries that have not expired. */
  function Live(entries: Entries, now: int): Entries {
    map k | k in entries && entries[k] > now :: entries[k]
  }

  /** An expiry in the past is replaced by one minute from now. */
  function Recorded(expiresAt: int, now: int): int {
    if expiresAt > now then expiresAt else now + MINUTE
  }

  /** How many entries a full cache gives up. */
  function EvictionSize(maxEntries: nat): nat {
    (maxEntries + 9) / 10
  }

  predicate Accepts(entries: Entries, key: string, now: int) {
    key != "" && key !in Live(entries, now)
  }

  /** The entries after a store that evicted the given keys. */
  function AfterStore(entries: Entries, key: string, expiresAt: int, now: int, evicted: set<string>): Entries {
    if key == "" then entries
    else if key in Live(entries, now) then Live(entries, now)
    else (Live(entries, now) - evicted)[key := Recorded(expiresAt, now)]
  }

  /** What a store may evict: nothing while there is room, and otherwise a tenth of the
      capacity, rounded up, chosen freely. */
  ghost predicate MayEvict(entries: Entries, maxEntries: nat, key: string, now: int, evicted: set<string>) {
    if Accepts(entries, key, now) && |Live(entries, now)| >= maxEntries
    then evicted <= Live(entries, now).Keys && |evicted| == EvictionSize(maxEntries)
    else evicted == {}
  }

  class Cache {
    const maxEntries: nat
    var entries: Entries

    ghost predicate Valid()
      reads this
    {
      0 < maxEntries && |entries| <= maxEntries
    }

    constructor (configured: int)
      ensures Valid() && entries == map[]
      ensures maxEntries == if configured <= 0 then DEFAULT_MAX_ENTRIES else configured
    {
      maxEntries := if configured <= 0 then DEFAULT_MAX_ENTRIES else configured;
      entries := map[];
    }

    /** Removes the expired entries, in any order, and counts them. */
    method Purge(now: int) returns (count: nat)
      modifies `entries
      ensures entries == Live(old(entries), now)
      ensures count == |old(entries)| - |entries|
    {
      var rest := entries.Keys;
      count := 0;
      while rest != {}
        invariant rest <= old(entries).Keys && entries.Keys <= old(entries).Keys
        invariant forall k :: k in rest ==> k in entries
        invariant forall k :: k in entries ==> entries[k] == old(entries)[k]
        invariant forall k :: k in old(entries) && k !in rest ==> (k in entries <==> old(entries)[k] > now)
        invariant count + |entries| == |old(entries)|
        decreases rest
      {
        var k :| k in rest;
        if !(entries[k] > now) {
          RemoveSize(entries, k);
          entries := entries - {k};
          count := count + 1;
        }
        rest := rest - {k};
      }
      assert entries == Live(old(entries), now);
    }

    method Cleanup(now: int) returns (count: nat)
      requires Valid()
      modifies `entries
      ensures Valid() && entries == Live(old(entries), now)
      ensures count == |old(entries)| - |entries|
    {
      count := Purge(now);
    }

    method Size() returns (n: nat)
      ensures n == |entries|
    {
      n := |entries|;
    }

    /** Records a key until it expires; refuses one that is recorded and has not expired. */
    method Store(key: string, expiresAt: int, now: int) returns (accepted: bool, ghost evicted: set<string>)
      requires Valid()
      modifies `entries
      ensures Valid()
      ensures accepted == Accepts(old(entries), key, now)
      ensures MayEvict(old(entries), maxEntries, key, now, evicted)
      ensures entries == AfterStore(old(entries), key, expiresAt, now, evicted)
    {
      evicted := {};
      if key == "" {
        return false, {};
      }
      var purged := Purge(now);
      if key in entries && entries[key] > now {
        return false, {};
      }
      var expiry := expiresAt;
      if !(expiry > now) {
        expiry := now + MINUTE;
      }
      if maxEntries > 0 && |entries| >= maxEntries {
        var numToEvict := (maxEntries + 9) / 10;
        var expired := set k | k in entries && !(entries[k] > now);
        if expired != {} {
          assert false;   // the purge above has left nothing expired
        }
        evicted := EvictArbitrary(numToEvict);
      }
      AddSize(entries, key, expiry);
      entries := entries[key := expiry];
      return true, evicted;
    }

    method EvictArbitrary(n: nat) returns (ghost evicted: set<string>)
      requires 0 < n <= |entries|
      modifies `entries
      ensures evicted <= old(entries).Keys && |evicted| == n
      ensures entries == old(entries) - evicted && |entries| == |old(entries)| - n
    {
      var count := 0;
      evicted := {};
      while count < n
        invariant 0 <= count <= n
        invariant evicted <= old(entries).Keys && |evicted| == count
        invariant entries == old(entries) - evicted && |entries| == |old(entries)| - count
      {
        SomeKey(entries);
        var k :| k in entries;
        RemoveSize(entries, k);
        entries := entries - {k};
        evicted := evicted + {k};
        count := count + 1;
      }
    }
  }

  lemma SomeKey(m: Entries)
    requires |m| > 0
    ensures exists k :: k in m
  {
    assert m.Keys != {};
  }
}
