/** The WebID profile cache (internal/authn/webid_cache.go): entries with a time to live; a new
    entry in a full cache evicts the one fetched longest ago. */
module WebIdCache {

  import opened Wrappers
  import opened Maps

  datatype Entry<P> = Entry(profile: P, fetchedAt: int, expiresAt: int, issuer: string, assurance: string)

  /** The validity checks on the arguments. */
  datatype Checks = Checks(webId: string -> bool, issuer: string -> bool, assurance: string -> bool)

  /** When each WebID was fetched. */
  type Fetched = map<string, int>

  function Times<P>(entries: map<string, Entry<P>>): Fetched {
    map k | k in entries :: entries[k].fetchedAt
  }

  /** A key whose entry was fetched no later than any other. */
  ghost predicate IsOldest(m: Fetched, key: string) {
    key in m && forall k :: k in m ==> m[key] <= m[k]
  }

  class Cache<P> {
    const checks: Checks
    const maxSize: nat
    var entries: map<string, Entry<P>>
    var closed: bool
    var evictionCount: nat
    var hitCount: nat
    var missCount: nat

    ghost predicate Valid()
      reads this
    {
      0 < maxSize && |entries| <= maxSize && "" !in entries && !checks.webId("")
    }

    constructor (checks: Checks, configured: int)
      requires !checks.webId("")
      ensures Valid() && entries == map[] && !closed && this.checks == checks
      ensures maxSize == if configured <= 0 then 1000 else configured
      ensures evictionCount == hitCount == missCount == 0
    {
      this.checks := checks;
      maxSize := if configured <= 0 then 1000 else configured;
      entries, closed, evictionCount, hitCount, missCount := map[], false, 0, 0, 0;
    }

    /** Scans the map in any order, keeping the oldest key seen so far. */
    method EvictOldest() returns (ghost evicted: string)
      requires Valid() && entries != map[]
      modifies `entries
      ensures IsOldest(Times(old(entries)), evicted) && entries == old(entries) - {evicted}
    {
      var oldest, oldestTime := "", 0;
      var rest := entries.Keys;
      while rest != {}
        invariant rest <= entries.Keys
        invariant oldest == "" <==> rest == entries.Keys
        invariant oldest != "" ==> oldest in entries && entries[oldest].fetchedAt == oldestTime
        invariant oldest != "" ==> forall k :: k in entries && k !in rest ==> oldestTime <= entries[k].fetchedAt
        decreases rest
      {
        var k :| k in rest;
        if oldest == "" || entries[k].fetchedAt < oldestTime {
          oldest, oldestTime := k, entries[k].fetchedAt;
        }
        rest := rest - {k};
      }
      evicted := oldest;
      entries := entries - {oldest};
    }

    /** Stores a profile; refuses invalid arguments and a closed cache.  The clock is read twice, for
        the time of the fetch and for the time to live. */
    method SetWithTtl(webId: string, profile: Option<P>, issuer: string, assurance: string, ttl: int, now: int, later: int)
      returns (ok: bool, ghost evicted: Option<string>)
      requires Valid()
      modifies `entries, `evictionCount
      ensures Valid()
      ensures ok <==>
        && checks.webId(webId) && profile.Some? && checks.issuer(issuer) && checks.assurance(assurance)
        && ttl > 0 && !closed
      ensures !ok ==> entries == old(entries) && evicted == None
      ensures ok ==> evicted.Some? == (|old(entries)| >= maxSize && webId !in old(entries))
      ensures evicted.Some? ==> IsOldest(Times(old(entries)), evicted.value)
      ensures ok ==>
        entries == (if evicted.Some? then old(entries) - {evicted.value} else old(entries))
          [webId := Entry(profile.value, now, later + ttl, issuer, assurance)]
      ensures evictionCount == old(evictionCount) + (if evicted.Some? then 1 else 0)
    {
      evicted := None;
      if !checks.webId(webId) || profile.None? || !checks.issuer(issuer) || !checks.assurance(assurance) || ttl <= 0 || closed {
        return false, None;
      }
      if |entries| >= maxSize && webId !in entries {
        ghost var key := EvictOldest();
        RemoveSize(old(entries), key);
        evicted := Some(key);
        evictionCount := evictionCount + 1;
      }
      AddSize(entries, webId, Entry(profile.value, now, later + ttl, issuer, assurance));
      entries := entries[webId := Entry(profile.value, now, later + ttl, issuer, assurance)];
      ok := true;
    }

    /** Finds an entry that has not expired. */
    method Get(webId: string, now: int) returns (found: Option<P>)
      modifies `hitCount, `missCount
      ensures found == if checks.webId(webId) && !closed && webId in entries && now <= entries[webId].expiresAt
                       then Some(entries[webId].profile) else None
      ensures hitCount == old(hitCount) + (if found.Some? then 1 else 0)
      ensures missCount == old(missCount) + (if found.None? && (!checks.webId(webId) || !closed) then 1 else 0)
    {
      if !checks.webId(webId) {
        missCount := missCount + 1;
        return None;
      }
      if closed {
        return None;
      }
      if webId !in entries {
        missCount := missCount + 1;
        return None;
      }
      if now > entries[webId].expiresAt {
        missCount := missCount + 1;
        return None;
      }
      hitCount := hitCount + 1;
      return Some(entries[webId].profile);
    }

    /** Removes what has expired, visiting the entries in any order. */
    method CleanupExpired(now: int) returns (removed: nat)
      requires Valid()
      modifies `entries
      ensures Valid()
      ensures entries == map k | k in old(entries) && now <= old(entries)[k].expiresAt :: old(entries)[k]
      ensures removed == |old(entries)| - |entries|
    {
      removed := 0;
      var rest := entries.Keys;
      while rest != {}
        invariant rest <= entries.Keys <= old(entries).Keys
        invariant forall k :: k in entries ==> entries[k] == old(entries)[k]
        invariant forall k :: k in old(entries) && k !in rest ==>
          (k in entries <==> now <= old(entries)[k].expiresAt)
        invariant removed == |old(entries)| - |entries|
        decreases rest
      {
        var k :| k in rest;
        if now > entries[k].expiresAt {
          RemoveSize(entries, k);
          entries := entries - {k};
          removed := removed + 1;
        }
        rest := rest - {k};
      }
    }

    method Invalidate(webId: string)
      requires Valid()
      modifies `entries
      ensures Valid()
      ensures entries == if checks.webId(webId) then old(entries) - {webId} else old(entries)
    {
      if checks.webId(webId) && webId in entries {
        RemoveSize(entries, webId);
        entries := entries - {webId};
      }
    }
  }
}
