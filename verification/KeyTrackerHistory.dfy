/** The DPoP key tracker over whole runs (internal/authn/dpop_key_rotation.go). */
module KeyTrackerHistory {

  import opened Wrappers
  import opened Maps
  import opened KeyTracker

  function Run(o: Options, h: seq<Event>): State {
    if |h| == 0 then EMPTY else Step(o, Run(o, h[..|h| - 1]), h[|h| - 1])
  }

  /** Sections after a run extend it. */
  lemma {:induction false} RunFromRun(o: Options, h: seq<Event>, t: seq<Event>)
    ensures RunFrom(o, Run(o, h), t) == Run(o, h + t)
  {
    if |t| == 0 {
      assert h + t == h;
    } else {
      RunFromRun(o, h, t[..|t| - 1]);
      assert (h + t)[..|h + t| - 1] == h + t[..|t| - 1];
    }
  }

  // ---------------------------------------------------------------- what every run keeps

  ghost predicate WithinLimit(o: Options, s: State) {
    o.maxKeys > 0 ==> |s.keys| <= o.maxKeys
  }

  ghost predicate Sound(o: Options, s: State) {
    WithinLimit(o, s) && NoEmptyBucket(s)
  }

  /** Changing the information on tracked keys does not change their number. */
  lemma InfoWithin(o: Options, s: State, keys: map<string, KeyInfo>)
    requires WithinLimit(o, s) && keys.Keys == s.keys.Keys
    ensures WithinLimit(o, s.(keys := keys))
  {
    SubmapSize(keys, s.keys);
  }

  lemma AddWithin(o: Options, s: State, key: string, info: KeyInfo)
    requires WithinLimit(o, s) && !Full(o, s)
    ensures WithinLimit(o, s.(keys := s.keys[key := info]))
  {
    assert s.keys[key := info].Keys == s.keys.Keys + {key};
  }

  lemma WithoutWithin(o: Options, s: State, gone: set<string>)
    requires WithinLimit(o, s)
    ensures WithinLimit(o, Without(s, gone))
  {
    SubmapSize(Without(s, gone).keys, s.keys);
  }

  lemma EvictedWithin(o: Options, s: State, now: int)
    requires WithinLimit(o, s)
    ensures WithinLimit(o, Evicted(o, s, now))
  {
    WithoutWithin(o, s, StaleKeys(o, s.keys, now));
  }

  lemma RoomWithin(o: Options, s: State, now: int)
    requires WithinLimit(o, s)
    ensures WithinLimit(o, RoomMade(o, s, now))
  {
    if Full(o, s) {
      EvictedWithin(o, s, now);
    }
  }

  lemma RegisteredWithin(o: Options, s: State, key: string, keyType: string, algorithm: string, now: int, evictAt: int)
    requires WithinLimit(o, s)
    ensures WithinLimit(o, Registered(o, s, key, keyType, algorithm, now, evictAt))
  {
    if key in s.keys {
      InfoWithin(o, s, s.keys[key := s.keys[key].(keyType := keyType, algorithm := algorithm, lastSeen := now, active := true)]);
    } else if Registers(o, s, key, evictAt) {
      RoomWithin(o, s, evictAt);
      AddWithin(o, RoomMade(o, s, evictAt), key, NewInfo(keyType, algorithm, now));
    } else {
      RoomWithin(o, s, evictAt);
    }
  }

  lemma RotatedWithin(o: Options, s: State, oldKey: string, newKey: string, now: int)
    requires WithinLimit(o, s)
    ensures WithinLimit(o, Rotated(s, oldKey, newKey, now))
  {
    InfoWithin(o, s, Rotated(s, oldKey, newKey, now).keys);
  }

  lemma InvalidatedWithin(o: Options, s: State, key: string, now: int)
    requires WithinLimit(o, s)
    ensures WithinLimit(o, Invalidated(s, key, now))
  {
    InfoWithin(o, s, Invalidated(s, key, now).keys);
  }

  lemma InvalidatedByWebIdWithin(o: Options, s: State, webId: string, clock: string -> int)
    requires WithinLimit(o, s)
    ensures WithinLimit(o, InvalidatedByWebId(s, webId, clock))
  {
    InfoWithin(o, s, InvalidatedByWebId(s, webId, clock).keys);
  }

  lemma UsedWithin(o: Options, s: State, key: string, webId: string, now: int)
    requires WithinLimit(o, s)
    ensures WithinLimit(o, Used(s, key, webId, now))
  {
    if key in s.keys {
      InfoWithin(o, s, Used(s, key, "", now).keys);
    }
  }

  lemma StepWithin(o: Options, s: State, e: Event)
    requires WithinLimit(o, s)
    ensures WithinLimit(o, Step(o, s, e))
  {
    match e.section
    case RegisterKey(key, keyType, algorithm, evictAt) => RegisteredWithin(o, s, key, keyType, algorithm, e.now, evictAt);
    case Bind(key, webId) =>
    case RecordKeyUsage(key, webId) => UsedWithin(o, s, key, webId, e.now);
    case RotateKeys(oldKey, newKey) => RotatedWithin(o, s, oldKey, newKey, e.now);
    case InvalidateKey(key) => InvalidatedWithin(o, s, key, e.now);
    case InvalidateKeysByWebId(webId, clock) => InvalidatedByWebIdWithin(o, s, webId, clock);
    case Cleanup => EvictedWithin(o, s, e.now);
    case Clear =>
  }

  lemma StepSound(o: Options, s: State, e: Event)
    requires Sound(o, s)
    ensures Sound(o, Step(o, s, e))
  {
    StepWithin(o, s, e);
    StepBuckets(o, s, e);
  }

  /** In every run, however the parts of calls are interleaved, the number of tracked keys stays
      within a positive limit and no WebID has an empty bucket. */
  lemma {:induction false} RunSound(o: Options, h: seq<Event>)
    ensures Sound(o, Run(o, h))
  {
    if |h| == 0 {
    } else {
      RunSound(o, h[..|h| - 1]);
      StepSound(o, Run(o, h[..|h| - 1]), h[|h| - 1]);
    }
  }

  // ---------------------------------------------------------------- bound keys are tracked

  ghost predicate BoundAreTracked(s: State) {
    forall k :: k in s.keyToWebId ==> k in s.keys
  }

  /** A section keeps every bound key tracked if and only if it does not bind a key that is not
      tracked. */
  lemma StepTracksIff(o: Options, s: State, e: Event)
    requires BoundAreTracked(s)
    ensures BoundAreTracked(Step(o, s, e)) <==> (e.section.Bind? ==> e.section.key in s.keys)
  {
    if e.section.Bind? {
      assert e.section.key in Step(o, s, e).keyToWebId;
    }
  }

  ghost predicate TracksThroughout(o: Options, h: seq<Event>) {
    forall n :: 0 <= n <= |h| ==> BoundAreTracked(Run(o, h[..n]))
  }

  ghost predicate BindsTracked(o: Options, h: seq<Event>) {
    forall i :: 0 <= i < |h| ==> (h[i].section.Bind? ==> h[i].section.key in Run(o, h[..i]).keys)
  }

  lemma RunNext(o: Options, h: seq<Event>, n: nat)
    requires n < |h|
    ensures Run(o, h[..n + 1]) == Step(o, Run(o, h[..n]), h[n])
  {
    assert h[..n + 1][..n] == h[..n];
  }

  lemma {:induction false} TrackedUpTo(o: Options, h: seq<Event>, n: nat)
    requires BindsTracked(o, h) && n <= |h|
    ensures BoundAreTracked(Run(o, h[..n]))
  {
    if n == 0 {
      assert h[..0] == [];
    } else {
      TrackedUpTo(o, h, n - 1);
      RunNext(o, h, n - 1);
      StepTracksIff(o, Run(o, h[..n - 1]), h[n - 1]);
    }
  }

  /** In every run, however interleaved, every bound key is tracked throughout if and only if every
      binding finds its key tracked. */
  lemma TracksThroughoutIff(o: Options, h: seq<Event>)
    ensures TracksThroughout(o, h) <==> BindsTracked(o, h)
  {
    if BindsTracked(o, h) {
      forall n | 0 <= n <= |h| ensures BoundAreTracked(Run(o, h[..n])) {
        TrackedUpTo(o, h, n);
      }
    }
    if TracksThroughout(o, h) {
      forall i | 0 <= i < |h| ensures h[i].section.Bind? ==> h[i].section.key in Run(o, h[..i]).keys {
        assert BoundAreTracked(Run(o, h[..i])) && BoundAreTracked(Run(o, h[..i + 1]));
        RunNext(o, h, i);
        StepTracksIff(o, Run(o, h[..i]), h[i]);
      }
    }
  }

  /** The section before section `i` is a successful registration of the key `i` binds. */
  ghost predicate FollowsRegistration(o: Options, h: seq<Event>, i: nat)
    requires i < |h| && h[i].section.Bind?
  {
    && i > 0
    && h[i - 1].section.RegisterKey?
    && h[i - 1].section.key == h[i].section.key
    && Registers(o, Run(o, h[..i - 1]), h[i].section.key, h[i - 1].section.evictAt)
  }

  /** Every binding comes right after the successful registration of its key, as when calls do not
      overlap. */
  ghost predicate Uninterrupted(o: Options, h: seq<Event>) {
    forall i :: 0 <= i < |h| && h[i].section.Bind? ==> FollowsRegistration(o, h, i)
  }

  lemma RegisteredIsTracked(o: Options, s: State, key: string, keyType: string, algorithm: string, now: int, evictAt: int)
    requires Registers(o, s, key, evictAt)
    ensures key in Registered(o, s, key, keyType, algorithm, now, evictAt).keys
  {
  }

  lemma FollowingTracked(o: Options, h: seq<Event>, i: nat)
    requires i < |h| && h[i].section.Bind? && FollowsRegistration(o, h, i)
    ensures h[i].section.key in Run(o, h[..i]).keys
  {
    var now, before := h[i - 1].now, h[i - 1].section;
    RunNext(o, h, i - 1);
    RegisteredIsTracked(o, Run(o, h[..i - 1]), before.key, before.keyType, before.algorithm, now, before.evictAt);
  }

  /** In every run of calls that do not overlap, every bound key is tracked. */
  lemma UninterruptedTracks(o: Options, h: seq<Event>)
    requires Uninterrupted(o, h)
    ensures TracksThroughout(o, h)
  {
    forall i | 0 <= i < |h| ensures h[i].section.Bind? ==> h[i].section.key in Run(o, h[..i]).keys {
      if h[i].section.Bind? {
        FollowingTracked(o, h, i);
      }
    }
    TracksThroughoutIff(o, h);
  }

  /** Overlapping calls can break it: a clear between the two parts of a registration leaves a bound
      key that is not tracked. */
  lemma ClearBetweenParts(o: Options, key: string, webId: string, now: int)
    ensures !BoundAreTracked(Run(o, [Event(RegisterKey(key, "", "", now), now), Event(Clear, now), Event(Bind(key, webId), now)]))
  {
    var h := [Event(RegisterKey(key, "", "", now), now), Event(Clear, now), Event(Bind(key, webId), now)];
    assert h[..3] == h && h[..2][..1] == h[..1];
    RunNext(o, h, 1);
    RunNext(o, h, 2);
    assert key in Run(o, h).keyToWebId && key !in Run(o, h).keys;
  }

  // ---------------------------------------------------------------- the indexes

  /** The two indexes say the same. */
  ghost predicate Inverse(s: State) {
    forall k, w :: (w in s.webIdToKeys && k in s.webIdToKeys[w]) <==> (k in s.keyToWebId && s.keyToWebId[k] == w)
  }

  /** Binding a key keeps the indexes inverse if and only if it is unbound or bound to the same
      WebID already. */
  lemma AssociateInverseIff(s: State, key: string, webId: string)
    requires Inverse(s)
    ensures Inverse(Associated(s, key, webId)) <==> (key in s.keyToWebId ==> s.keyToWebId[key] == webId)
  {
    var t := Associated(s, key, webId);
    if key in s.keyToWebId && s.keyToWebId[key] != webId {
      var before := s.keyToWebId[key];
      assert before in s.webIdToKeys && key in s.webIdToKeys[before];
      assert before in t.webIdToKeys && key in t.webIdToKeys[before] && t.keyToWebId[key] != before;
    }
  }

  /** Invalidating all keys of a WebID keeps them inverse if and only if it has none. */
  lemma InvalidateInverseIff(s: State, webId: string, clock: string -> int)
    requires Inverse(s) && NoEmptyBucket(s)
    ensures Inverse(InvalidatedByWebId(s, webId, clock)) <==> webId !in s.webIdToKeys
  {
    if webId in s.webIdToKeys {
      var k :| k in s.webIdToKeys[webId];
      var t := InvalidatedByWebId(s, webId, clock);
      assert k in t.keyToWebId && t.keyToWebId[k] == webId && webId !in t.webIdToKeys;
    }
  }

  /** Eviction keeps the indexes inverse. */
  lemma WithoutInverse(s: State, gone: set<string>)
    requires Inverse(s)
    ensures Inverse(Without(s, gone))
  {
    var t := Without(s, gone);
    forall k, w ensures (w in t.webIdToKeys && k in t.webIdToKeys[w]) <==> (k in t.keyToWebId && t.keyToWebId[k] == w) {
      if k in s.keyToWebId && s.keyToWebId[k] == w && k !in gone {
        assert w in s.webIdToKeys && k in BucketWithout(s, w, gone);
      }
    }
  }

  /** Eviction removes exactly the inactive keys that are past their expiration. */
  lemma EvictionRemoves(o: Options, s: State, now: int, key: string)
    ensures key in s.keys && key !in Evicted(o, s, now).keys <==>
      key in s.keys && !s.keys[key].active && now - s.keys[key].lastSeen > o.keyExpiration
    ensures key in Evicted(o, s, now).keys ==> Evicted(o, s, now).keys[key] == s.keys[key]
  {
  }

  /** The binding that a section makes, if any. */
  function Binds(s: State, e: Event): Option<(string, string)> {
    match e.section
    case Bind(key, webId) => Some((key, webId))
    case RecordKeyUsage(key, webId) => if key in s.keys && webId != "" then Some((key, webId)) else None
    case _ => None
  }

  /** The section neither binds a key that is bound to another WebID nor invalidates the keys of a
      WebID that has some. */
  ghost predicate Faithful(s: State, e: Event) {
    && (var b := Binds(s, e); b.Some? && b.value.0 in s.keyToWebId ==> s.keyToWebId[b.value.0] == b.value.1)
    && (e.section.InvalidateKeysByWebId? ==> e.section.webId !in s.webIdToKeys)
  }

  lemma SameIndexes(s: State, t: State)
    requires s.webIdToKeys == t.webIdToKeys && s.keyToWebId == t.keyToWebId
    ensures Inverse(s) <==> Inverse(t)
  {
  }

  lemma RegisteredInverse(o: Options, s: State, key: string, keyType: string, algorithm: string, now: int, evictAt: int)
    requires Inverse(s)
    ensures Inverse(Registered(o, s, key, keyType, algorithm, now, evictAt))
  {
    var room := RoomMade(o, s, evictAt);
    if Full(o, s) {
      WithoutInverse(s, StaleKeys(o, s.keys, evictAt));
    }
    SameIndexes(if key == "" || key in s.keys then s else room, Registered(o, s, key, keyType, algorithm, now, evictAt));
  }

  lemma UsedInverseIff(s: State, e: Event)
    requires Inverse(s) && e.section.RecordKeyUsage?
    ensures Inverse(Used(s, e.section.key, e.section.webId, e.now)) <==> Faithful(s, e)
  {
    var key, webId := e.section.key, e.section.webId;
    var seen := Used(s, key, "", e.now);
    SameIndexes(s, seen);
    if key in s.keys && webId != "" {
      AssociateInverseIff(seen, key, webId);
    }
  }

  /** A section keeps the indexes inverse if and only if it is faithful. */
  lemma StepInverseIff(o: Options, s: State, e: Event)
    requires Inverse(s) && NoEmptyBucket(s)
    ensures Inverse(Step(o, s, e)) <==> Faithful(s, e)
  {
    match e.section
    case RegisterKey(key, keyType, algorithm, evictAt) => RegisteredInverse(o, s, key, keyType, algorithm, e.now, evictAt);
    case Bind(key, webId) => AssociateInverseIff(s, key, webId);
    case RecordKeyUsage(key, webId) => UsedInverseIff(s, e);
    case RotateKeys(oldKey, newKey) => SameIndexes(s, Step(o, s, e));
    case InvalidateKey(key) => SameIndexes(s, Step(o, s, e));
    case InvalidateKeysByWebId(webId, clock) => InvalidateInverseIff(s, webId, clock);
    case Cleanup => WithoutInverse(s, StaleKeys(o, s.keys, e.now));
    case Clear =>
  }

  ghost predicate InverseThroughout(o: Options, h: seq<Event>) {
    forall n :: 0 <= n <= |h| ==> Inverse(Run(o, h[..n]))
  }

  ghost predicate AllFaithful(o: Options, h: seq<Event>) {
    forall i :: 0 <= i < |h| ==> Faithful(Run(o, h[..i]), h[i])
  }

  lemma {:induction false} InverseUpTo(o: Options, h: seq<Event>, n: nat)
    requires AllFaithful(o, h) && n <= |h|
    ensures Inverse(Run(o, h[..n]))
  {
    if n == 0 {
      assert h[..0] == [];
    } else {
      InverseUpTo(o, h, n - 1);
      RunSound(o, h[..n - 1]);
      RunNext(o, h, n - 1);
      StepInverseIff(o, Run(o, h[..n - 1]), h[n - 1]);
    }
  }

  /** In every run, however interleaved and through evictions, the two indexes are exact inverses
      throughout if and only if every section is faithful. */
  lemma InverseThroughoutIff(o: Options, h: seq<Event>)
    ensures InverseThroughout(o, h) <==> AllFaithful(o, h)
  {
    if AllFaithful(o, h) {
      forall n | 0 <= n <= |h| ensures Inverse(Run(o, h[..n])) {
        InverseUpTo(o, h, n);
      }
    }
    if InverseThroughout(o, h) {
      forall i | 0 <= i < |h| ensures Faithful(Run(o, h[..i]), h[i]) {
        assert Inverse(Run(o, h[..i])) && Inverse(Run(o, h[..i + 1]));
        RunSound(o, h[..i]);
        RunNext(o, h, i);
        StepInverseIff(o, Run(o, h[..i]), h[i]);
      }
    }
  }

  function Bound(key: string, webId: string, now: int): seq<Event> {
    [Event(RegisterKey(key, "", "", now), now), Event(Bind(key, webId), now)]
  }

  lemma AfterBound(o: Options, key: string, webId: string, now: int)
    requires key != ""
    ensures Run(o, Bound(key, webId, now)) == State(map[key := NewInfo("", "", now)], map[webId := {key}], map[key := webId])
  {
    var h := Bound(key, webId, now);
    assert h[..2] == h && h[..0] == [];
    RunNext(o, h, 0);
    RunNext(o, h, 1);
  }

  /** They do break: a key registered with one WebID and then used with another stays in the bucket
      of the first. */
  lemma RebindBreaks(o: Options, key: string, before: string, after: string, now: int)
    requires key != "" && after != "" && before != after
    ensures Inverse(Run(o, Bound(key, before, now)))
    ensures !Inverse(Run(o, Bound(key, before, now) + [Event(RecordKeyUsage(key, after), now)]))
  {
    var h, e := Bound(key, before, now), Event(RecordKeyUsage(key, after), now);
    AfterBound(o, key, before, now);
    RunFromRun(o, h, [e]);
    UsedInverseIff(Run(o, h), e);
  }

  /** So does invalidating a WebID as a whole: its key stays bound. */
  lemma InvalidationBreaks(o: Options, key: string, webId: string, now: int, clock: string -> int)
    requires key != ""
    ensures Inverse(Run(o, Bound(key, webId, now)))
    ensures !Inverse(Run(o, Bound(key, webId, now) + [Event(InvalidateKeysByWebId(webId, clock), now)]))
  {
    var h, e := Bound(key, webId, now), Event(InvalidateKeysByWebId(webId, clock), now);
    AfterBound(o, key, webId, now);
    RunFromRun(o, h, [e]);
    InvalidateInverseIff(Run(o, h), webId, clock);
  }
}
