/** The tracker of DPoP keys (internal/authn/dpop_key_rotation.go): known keys, and the two
    indexes between keys and WebIDs. */
module KeyTracker {

  import opened Wrappers

  datatype KeyInfo = KeyInfo(
    keyType: string,
    algorithm: string,
    firstSeen: int,
    lastSeen: int,
    lastUsed: Option<int>,
    useCount: nat,
    active: bool)

  datatype Options = Options(maxKeys: int, keyExpiration: int)

  datatype State = State(
    keys: map<string, KeyInfo>,
    webIdToKeys: map<string, set<string>>,
    keyToWebId: map<string, string>)

  const EMPTY: State := State(map[], map[], map[])

  // ---------------------------------------------------------------- eviction

  /** Inactive and not seen for longer than the expiration. */
  predicate Stale(o: Options, info: KeyInfo, now: int) {
    !info.active && now - info.lastSeen > o.keyExpiration
  }

  function StaleKeys(o: Options, keys: map<string, KeyInfo>, now: int): set<string> {
    set k | k in keys && Stale(o, keys[k], now)
  }

  /** The bucket of a WebID without the given keys that are bound to it. */
  function BucketWithout(s: State, w: string, gone: set<string>): set<string>
    requires w in s.webIdToKeys
  {
    set k | k in s.webIdToKeys[w] && !(k in gone && k in s.keyToWebId && s.keyToWebId[k] == w)
  }

  /** The state without the given keys; buckets that this empties are dropped. */
  function Without(s: State, gone: set<string>): State {
    State(
      s.keys - gone,
      map w | w in s.webIdToKeys && BucketWithout(s, w, gone) != {} :: BucketWithout(s, w, gone),
      s.keyToWebId - gone)
  }

  /** The buckets after one key leaves the bucket it is bound to. */
  function BucketsWithoutKey(t: State, k: string): map<string, set<string>> {
    if k in t.keyToWebId && t.keyToWebId[k] in t.webIdToKeys then
      var w := t.keyToWebId[k];
      if t.webIdToKeys[w] - {k} == {} then t.webIdToKeys - {w} else t.webIdToKeys[w := t.webIdToKeys[w] - {k}]
    else t.webIdToKeys
  }

  function WithoutKey(t: State, k: string): State {
    State(t.keys - {k}, BucketsWithoutKey(t, k), t.keyToWebId - {k})
  }

  function Evicted(o: Options, s: State, now: int): State {
    Without(s, StaleKeys(o, s.keys, now))
  }

  // ---------------------------------------------------------------- steps

  function NewInfo(keyType: string, algorithm: string, now: int): KeyInfo {
    KeyInfo(keyType, algorithm, now, now, None, 0, true)
  }

  predicate Full(o: Options, s: State) {
    o.maxKeys > 0 && |s.keys| >= o.maxKeys
  }

  /** The state in which a new key finds, or does not find, room. */
  function RoomMade(o: Options, s: State, now: int): State {
    if Full(o, s) then Evicted(o, s, now) else s
  }

  predicate Registers(o: Options, s: State, key: string, evictAt: int) {
    key != "" && (key in s.keys || !Full(o, RoomMade(o, s, evictAt)))
  }

  /** The clock is read at the start and, in a full tracker, again for the eviction. */
  function Registered(o: Options, s: State, key: string, keyType: string, algorithm: string, now: int, evictAt: int): State {
    if key == "" then s
    else if key in s.keys then
      s.(keys := s.keys[key := s.keys[key].(keyType := keyType, algorithm := algorithm, lastSeen := now, active := true)])
    else
      var room := RoomMade(o, s, evictAt);
      if Full(o, room) then room else room.(keys := room.keys[key := NewInfo(keyType, algorithm, now)])
  }

  function Associated(s: State, key: string, webId: string): State {
    s.(webIdToKeys := s.webIdToKeys[webId := (if webId in s.webIdToKeys then s.webIdToKeys[webId] else {}) + {key}],
       keyToWebId := s.keyToWebId[key := webId])
  }

  function Used(s: State, key: string, webId: string, now: int): State {
    if key !in s.keys then s
    else
      var info := s.keys[key];
      var t := s.(keys := s.keys[key := info.(lastUsed := Some(now), useCount := info.useCount + 1, active := true)]);
      if webId != "" then Associated(t, key, webId) else t
  }

  function WebIdOf(s: State, key: string): string {
    if key in s.keyToWebId then s.keyToWebId[key] else ""
  }

  predicate Rotates(s: State, oldKey: string, newKey: string) {
    && oldKey != newKey && oldKey in s.keys && newKey in s.keys
    && WebIdOf(s, oldKey) == WebIdOf(s, newKey)
  }

  function Rotated(s: State, oldKey: string, newKey: string, now: int): State {
    if !Rotates(s, oldKey, newKey) then s
    else
      s.(keys := s.keys[oldKey := s.keys[oldKey].(active := false, lastSeen := now)]
                       [newKey := s.keys[newKey].(active := true, lastSeen := now, lastUsed := Some(now))])
  }

  /** A check for rotation registers a new key that is not tracked yet. */
  predicate WantsRegistration(s: State, oldKey: string, newKey: string) {
    oldKey != newKey && oldKey in s.keys && newKey !in s.keys
  }

  /** Each key is last seen when the clock was read for it. */
  function Deactivated(keys: map<string, KeyInfo>, which: set<string>, clock: string -> int): map<string, KeyInfo> {
    map k | k in keys :: if k in which then keys[k].(active := false, lastSeen := clock(k)) else keys[k]
  }

  function Invalidated(s: State, key: string, now: int): State {
    s.(keys := Deactivated(s.keys, {key}, _ => now))
  }

  function InvalidatedByWebId(s: State, webId: string, clock: string -> int): State {
    if webId !in s.webIdToKeys then s
    else s.(keys := Deactivated(s.keys, s.webIdToKeys[webId], clock), webIdToKeys := s.webIdToKeys - {webId})
  }

  /** What happens under one hold of the lock.  Registration with a WebID is a registration followed,
      if it succeeds, by a binding; a check for rotation that misses the new key is followed by such
      a registration.  Other calls may come in between. */
  datatype Section =
    | RegisterKey(key: string, keyType: string, algorithm: string, evictAt: int)
    | Bind(key: string, webId: string)
    | RecordKeyUsage(key: string, webId: string)
    | RotateKeys(oldKey: string, newKey: string)
    | InvalidateKey(key: string)
    | InvalidateKeysByWebId(webId: string, clock: string -> int)
    | Cleanup
    | Clear

  /** A section and the time it runs. */
  datatype Event = Event(section: Section, now: int)

  function Step(o: Options, s: State, e: Event): State {
    match e.section
    case RegisterKey(key, keyType, algorithm, evictAt) => Registered(o, s, key, keyType, algorithm, e.now, evictAt)
    case Bind(key, webId) => Associated(s, key, webId)
    case RecordKeyUsage(key, webId) => Used(s, key, webId, e.now)
    case RotateKeys(oldKey, newKey) => Rotated(s, oldKey, newKey, e.now)
    case InvalidateKey(key) => Invalidated(s, key, e.now)
    case InvalidateKeysByWebId(webId, clock) => InvalidatedByWebId(s, webId, clock)
    case Cleanup => Evicted(o, s, e.now)
    case Clear => EMPTY
  }

  function RunFrom(o: Options, s: State, h: seq<Event>): State {
    if |h| == 0 then s else Step(o, RunFrom(o, s, h[..|h| - 1]), h[|h| - 1])
  }

  /** Registration with a WebID, the calls `others` coming between its two parts. */
  function RegisteredAcross(o: Options, s: State, e: Event, webId: string, others: seq<Event>): State
    requires e.section.RegisterKey?
  {
    var r := Step(o, s, e);
    if Registers(o, s, e.section.key, e.section.evictAt) then Associated(RunFrom(o, r, others), e.section.key, webId) else r
  }

  // ---------------------------------------------------------------- the object

  ghost predicate NoEmptyBucket(s: State) {
    forall w :: w in s.webIdToKeys ==> s.webIdToKeys[w] != {}
  }

  lemma EvictedBuckets(o: Options, s: State, now: int)
    requires NoEmptyBucket(s)
    ensures NoEmptyBucket(Evicted(o, s, now))
  {
  }

  lemma RegisteredBuckets(o: Options, s: State, key: string, keyType: string, algorithm: string, now: int, evictAt: int)
    requires NoEmptyBucket(s)
    ensures NoEmptyBucket(Registered(o, s, key, keyType, algorithm, now, evictAt))
  {
    EvictedBuckets(o, s, evictAt);
  }

  lemma AssociatedBuckets(s: State, key: string, webId: string)
    requires NoEmptyBucket(s)
    ensures NoEmptyBucket(Associated(s, key, webId))
  {
  }

  lemma UsedBuckets(s: State, key: string, webId: string, now: int)
    requires NoEmptyBucket(s)
    ensures NoEmptyBucket(Used(s, key, webId, now))
  {
    if key in s.keys && webId != "" {
      AssociatedBuckets(Used(s, key, "", now), key, webId);
    }
  }

  lemma StepBuckets(o: Options, s: State, e: Event)
    requires NoEmptyBucket(s)
    ensures NoEmptyBucket(Step(o, s, e))
  {
    match e.section
    case RegisterKey(key, keyType, algorithm, evictAt) => RegisteredBuckets(o, s, key, keyType, algorithm, e.now, evictAt);
    case Bind(key, webId) => AssociatedBuckets(s, key, webId);
    case RecordKeyUsage(key, webId) => UsedBuckets(s, key, webId, e.now);
    case RotateKeys(oldKey, newKey) =>
    case InvalidateKey(key) =>
    case InvalidateKeysByWebId(webId, clock) =>
    case Cleanup => EvictedBuckets(o, s, e.now);
    case Clear =>
  }

  class Tracker {
    const options: Options
    var keys: map<string, KeyInfo>
    var webIdToKeys: map<string, set<string>>
    var keyToWebId: map<string, string>

    function Abstract(): State
      reads this
    {
      State(keys, webIdToKeys, keyToWebId)
    }

    constructor (o: Options)
      ensures options == o && Abstract() == EMPTY
    {
      options, keys, webIdToKeys, keyToWebId := o, map[], map[], map[];
    }

    method Remove(k: string)
      modifies this
      ensures Abstract() == WithoutKey(old(Abstract()), k)
    {
      keys := keys - {k};
      if k in keyToWebId {
        var w := keyToWebId[k];
        if w in webIdToKeys {
          webIdToKeys := webIdToKeys[w := webIdToKeys[w] - {k}];
          if webIdToKeys[w] == {} {
            webIdToKeys := webIdToKeys - {w};
          }
        }
        keyToWebId := keyToWebId - {k};
      }
    }

    /** Goes over the keys in any order and removes the stale ones from all three maps. */
    method EvictInactiveKeys(now: int)
      requires NoEmptyBucket(Abstract())
      modifies this
      ensures Abstract() == Evicted(options, old(Abstract()), now)
    {
      var rest := keys.Keys;
      ghost var s, gone := Abstract(), {};
      assert Abstract() == Without(s, gone) by { WithoutNone(s); }
      while rest != {}
        invariant rest <= s.keys.Keys
        invariant gone == (set k | k in s.keys && k !in rest && Stale(options, s.keys[k], now))
        invariant Abstract() == Without(s, gone)
        decreases rest
      {
        var k :| k in rest;
        if !keys[k].active && now - keys[k].lastSeen > options.keyExpiration {
          Remove(k);
          WithoutOneMore(s, gone, k);
          gone := gone + {k};
        }
        rest := rest - {k};
      }
      assert gone == StaleKeys(options, s.keys, now);
    }

    method RegisterKey(key: string, keyType: string, algorithm: string, now: int, evictAt: int) returns (ok: bool)
      requires NoEmptyBucket(Abstract())
      modifies this
      ensures ok == Registers(options, old(Abstract()), key, evictAt)
      ensures Abstract() == Registered(options, old(Abstract()), key, keyType, algorithm, now, evictAt)
    {
      if key == "" {
        return false;
      }
      if key in keys {
        keys := keys[key := keys[key].(keyType := keyType, algorithm := algorithm, lastSeen := now, active := true)];
        return true;
      }
      if options.maxKeys > 0 && |keys| >= options.maxKeys {
        EvictInactiveKeys(evictAt);
        if |keys| >= options.maxKeys {
          return false;
        }
      }
      keys := keys[key := NewInfo(keyType, algorithm, now)];
      return true;
    }

    method Associate(key: string, webId: string)
      modifies `webIdToKeys, `keyToWebId
      ensures Abstract() == Associated(old(Abstract()), key, webId)
    {
      if webId !in webIdToKeys {
        webIdToKeys := webIdToKeys[webId := {}];
      }
      webIdToKeys := webIdToKeys[webId := webIdToKeys[webId] + {key}];
      keyToWebId := keyToWebId[key := webId];
    }

    method RecordKeyUsage(key: string, webId: string, now: int) returns (ok: bool)
      modifies this
      ensures ok == (key in old(keys))
      ensures Abstract() == Used(old(Abstract()), key, webId, now)
    {
      if key !in keys {
        return false;
      }
      keys := keys[key := keys[key].(lastUsed := Some(now), useCount := keys[key].useCount + 1, active := true)];
      if webId != "" {
        Associate(key, webId);
      }
      return true;
    }

    /** The part of a check that holds the lock. */
    method RotateKeys(oldKey: string, newKey: string, now: int) returns (rotated: bool, missing: bool)
      modifies `keys
      ensures rotated == Rotates(old(Abstract()), oldKey, newKey)
      ensures missing == WantsRegistration(old(Abstract()), oldKey, newKey)
      ensures Abstract() == Rotated(old(Abstract()), oldKey, newKey, now)
    {
      if oldKey == newKey || oldKey !in keys {
        return false, false;
      }
      if newKey !in keys {
        return false, true;
      }
      var oldWebId := if oldKey in keyToWebId then keyToWebId[oldKey] else "";
      var newWebId := if newKey in keyToWebId then keyToWebId[newKey] else "";
      if oldWebId != newWebId {
        return false, false;
      }
      keys := keys[oldKey := keys[oldKey].(active := false, lastSeen := now)];
      keys := keys[newKey := keys[newKey].(active := true, lastSeen := now, lastUsed := Some(now))];
      return true, false;
    }

    method InvalidateKey(key: string, now: int)
      modifies `keys
      ensures Abstract() == Invalidated(old(Abstract()), key, now)
    {
      if key in keys {
        keys := keys[key := keys[key].(active := false, lastSeen := now)];
      }
    }

    method Clear()
      modifies this
      ensures Abstract() == EMPTY
    {
      keys, webIdToKeys, keyToWebId := map[], map[], map[];
    }

    method InvalidateKeysByWebId(webId: string, clock: string -> int)
      modifies `keys, `webIdToKeys
      ensures Abstract() == InvalidatedByWebId(old(Abstract()), webId, clock)
    {
      if webId in webIdToKeys {
        var rest := webIdToKeys[webId];
        ghost var done := {};
        assert keys == Deactivated(old(keys), done, clock);
        while rest != {}
          invariant webIdToKeys == old(webIdToKeys)
          invariant rest <= webIdToKeys[webId] && done == webIdToKeys[webId] - rest
          invariant keys == Deactivated(old(keys), done, clock)
          decreases rest
        {
          var k :| k in rest;
          if k in keys {
            keys := keys[k := keys[k].(active := false, lastSeen := clock(k))];
          }
          rest := rest - {k};
          done := done + {k};
          assert keys == Deactivated(old(keys), done, clock);
        }
        assert done == webIdToKeys[webId];
        webIdToKeys := webIdToKeys - {webId};
      }
    }

    /** Any one section. */
    method Perform(e: Event)
      requires NoEmptyBucket(Abstract())
      modifies this
      ensures NoEmptyBucket(Abstract()) && Abstract() == Step(options, old(Abstract()), e)
    {
      StepBuckets(options, Abstract(), e);
      match e.section
      case RegisterKey(key, keyType, algorithm, evictAt) => var _ := RegisterKey(key, keyType, algorithm, e.now, evictAt);
      case Bind(key, webId) => Associate(key, webId);
      case RecordKeyUsage(key, webId) => var _ := RecordKeyUsage(key, webId, e.now);
      case RotateKeys(oldKey, newKey) => var _, _ := RotateKeys(oldKey, newKey, e.now);
      case InvalidateKey(key) => InvalidateKey(key, e.now);
      case InvalidateKeysByWebId(webId, clock) => InvalidateKeysByWebId(webId, clock);
      case Cleanup => EvictInactiveKeys(e.now);
      case Clear => Clear();
    }

    method PerformAll(h: seq<Event>)
      requires NoEmptyBucket(Abstract())
      modifies this
      ensures NoEmptyBucket(Abstract()) && Abstract() == RunFrom(options, old(Abstract()), h)
    {
      for i := 0 to |h|
        invariant NoEmptyBucket(Abstract()) && Abstract() == RunFrom(options, old(Abstract()), h[..i])
      {
        Perform(h[i]);
        assert h[..i + 1][..i] == h[..i];
      }
      assert h[..|h|] == h;
    }

    /** The lock is let go between the two parts; `others` are the calls that come in between. */
    method RegisterKeyWithWebId(
        key: string, keyType: string, algorithm: string, webId: string, now: int, evictAt: int, others: seq<Event>)
      returns (ok: bool)
      requires NoEmptyBucket(Abstract())
      modifies this
      ensures ok == Registers(options, old(Abstract()), key, evictAt)
      ensures Abstract() == RegisteredAcross(
        options, old(Abstract()), Event(Section.RegisterKey(key, keyType, algorithm, evictAt), now), webId, others)
    {
      StepBuckets(options, Abstract(), Event(Section.RegisterKey(key, keyType, algorithm, evictAt), now));
      ok := RegisterKey(key, keyType, algorithm, now, evictAt);
      if ok {
        PerformAll(others);
        Associate(key, webId);
      }
    }

    /** The lock is let go before a new key is registered, at time `later`; `before` are the calls
        that come before it and `others` those between its two parts. */
    method CheckKeyRotation(
        oldKey: string, newKey: string, webId: string, newType: string, now: int, later: int, evictAt: int,
        before: seq<Event>, others: seq<Event>)
      returns (rotated: bool)
      requires NoEmptyBucket(Abstract())
      modifies this
      ensures rotated == Rotates(old(Abstract()), oldKey, newKey)
      ensures Abstract() ==
        if WantsRegistration(old(Abstract()), oldKey, newKey)
        then RegisteredAcross(options, RunFrom(options, old(Abstract()), before),
                              Event(Section.RegisterKey(newKey, newType, "", evictAt), later), webId, others)
        else Rotated(old(Abstract()), oldKey, newKey, now)
    {
      var missing;
      rotated, missing := RotateKeys(oldKey, newKey, now);
      if missing {
        PerformAll(before);
        var _ := RegisterKeyWithWebId(newKey, newType, "", webId, later, evictAt, others);
      }
    }
  }

  lemma WithoutNone(s: State)
    requires NoEmptyBucket(s)
    ensures Without(s, {}) == s
  {
    forall w | w in s.webIdToKeys ensures BucketWithout(s, w, {}) == s.webIdToKeys[w] {}
  }

  lemma BucketWithoutOneMore(s: State, gone: set<string>, k: string, w: string)
    requires w in s.webIdToKeys && k !in gone
    ensures BucketWithout(s, w, gone + {k})
         == if k in s.keyToWebId && s.keyToWebId[k] == w then BucketWithout(s, w, gone) - {k} else BucketWithout(s, w, gone)
  {
  }

  lemma BucketsOneMore(s: State, gone: set<string>, k: string)
    requires k !in gone
    ensures Without(s, gone + {k}).webIdToKeys == BucketsWithoutKey(Without(s, gone), k)
  {
    var t, all := Without(s, gone), gone + {k};
    var m, n := Without(s, all).webIdToKeys, BucketsWithoutKey(t, k);
    forall w | w in s.webIdToKeys
      ensures w in m <==> w in n
      ensures w in m ==> m[w] == n[w]
    {
      BucketWithoutOneMore(s, gone, k, w);
    }
  }

  /** Removing one more key from a state from which others were removed. */
  lemma WithoutOneMore(s: State, gone: set<string>, k: string)
    requires k !in gone
    ensures Without(s, gone + {k}) == WithoutKey(Without(s, gone), k)
  {
    var t, all := Without(s, gone), gone + {k};
    BucketsOneMore(s, gone, k);
    assert s.keys - all == t.keys - {k};
    assert s.keyToWebId - all == t.keyToWebId - {k};
  }
}
