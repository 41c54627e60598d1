/** What the DPoP key tracker knows of a key, told by the events of its history
    (internal/authn/dpop_key_rotation.go). */
module KeyTrackerEvents {

  import opened Wrappers
  import opened KeyTracker
  import opened KeyTrackerHistory

  type When = (Options, State, Event, string) -> bool

  /** The event at index `i` is of the kind, for the key. */
  predicate Happens(p: When, o: Options, h: seq<Event>, i: nat, k: string)
    requires i < |h|
  {
    p(o, Run(o, h[..i]), h[i], k)
  }

  /** The event at index `i` is of the first kind and none after it is of the second. */
  ghost predicate SinceAt(p: When, q: When, o: Options, h: seq<Event>, k: string, i: nat) {
    i < |h| && Happens(p, o, h, i, k) && forall j :: i < j < |h| ==> !Happens(q, o, h, j, k)
  }

  /** Some event of the first kind was not followed by one of the second. */
  ghost predicate Since(p: When, q: When, o: Options, h: seq<Event>, k: string) {
    exists i: nat :: SinceAt(p, q, o, h, k, i)
  }

  /** The last event of the kind. */
  ghost predicate LastOf(p: When, o: Options, h: seq<Event>, k: string, i: nat) {
    SinceAt(p, p, o, h, k, i)
  }

  lemma HappensBefore(p: When, o: Options, h: seq<Event>, n: nat, i: nat, k: string)
    requires i < n <= |h|
    ensures Happens(p, o, h[..n], i, k) == Happens(p, o, h, i, k)
  {
    assert h[..n][..i] == h[..i];
  }

  lemma SinceAtNext(p: When, q: When, o: Options, h: seq<Event>, k: string, i: nat)
    requires h != [] && i < |h| - 1
    ensures SinceAt(p, q, o, h, k, i) <==> SinceAt(p, q, o, h[..|h| - 1], k, i) && !Happens(q, o, h, |h| - 1, k)
  {
    var n := |h| - 1;
    HappensBefore(p, o, h, n, i, k);
    forall j | i < j < n ensures Happens(q, o, h[..n], j, k) == Happens(q, o, h, j, k) {
      HappensBefore(q, o, h, n, j, k);
    }
  }

  lemma SinceLast(p: When, q: When, o: Options, h: seq<Event>, k: string)
    requires h != []
    ensures var n := |h| - 1;
      Since(p, q, o, h, k) <==> Happens(p, o, h, n, k) || (Since(p, q, o, h[..n], k) && !Happens(q, o, h, n, k))
  {
    var n := |h| - 1;
    if Happens(p, o, h, n, k) {
      assert SinceAt(p, q, o, h, k, n);
    } else {
      if i: nat :| SinceAt(p, q, o, h, k, i) {
        SinceAtNext(p, q, o, h, k, i);
      }
      if i: nat :| SinceAt(p, q, o, h[..n], k, i) {
        SinceAtNext(p, q, o, h, k, i);
      }
    }
  }

  lemma LastOfNext(p: When, o: Options, h: seq<Event>, k: string, i: nat)
    requires h != [] && i < |h| - 1 && !Happens(p, o, h, |h| - 1, k) && LastOf(p, o, h[..|h| - 1], k, i)
    ensures LastOf(p, o, h, k, i)
  {
    SinceAtNext(p, p, o, h, k, i);
  }

  // ---------------------------------------------------------------- kinds of events

  /** When the event evicts what is stale: a cleanup, or the registration of a new key in a full
      tracker. */
  function EvictionTime(o: Options, s: State, e: Event): Option<int> {
    match e.section
    case Cleanup => Some(e.now)
    case RegisterKey(key, _, _, evictAt) =>
      if key != "" && key !in s.keys && o.maxKeys > 0 && |s.keys| >= o.maxKeys then Some(evictAt) else None
    case _ => None
  }

  /** The event evicts the key: it is inactive and was not seen for longer than the expiration. */
  predicate Evicts(o: Options, s: State, e: Event, k: string) {
    && EvictionTime(o, s, e).Some? && k in s.keys
    && !s.keys[k].active && EvictionTime(o, s, e).value - s.keys[k].lastSeen > o.keyExpiration
  }

  predicate Forgets(o: Options, s: State, e: Event, k: string) {
    e.section.Clear? || Evicts(o, s, e, k)
  }

  /** The keys that the event does not evict. */
  function Staying(o: Options, s: State, e: Event): set<string> {
    set x | x in s.keys && !Evicts(o, s, e, x)
  }

  /** A registration of the key that succeeds: it is tracked, or there is no limit, or the keys that
      stay are fewer than the limit. */
  predicate RegistersKey(o: Options, s: State, e: Event, k: string) {
    && e.section.RegisterKey? && e.section.key == k && k != ""
    && (k in s.keys || o.maxKeys <= 0 || |Staying(o, s, e)| < o.maxKeys)
  }

  predicate Creates(o: Options, s: State, e: Event, k: string) {
    RegistersKey(o, s, e, k) && k !in s.keys
  }

  predicate Uses(o: Options, s: State, e: Event, k: string) {
    e.section.RecordKeyUsage? && e.section.key == k && k in s.keys
  }

  predicate Bound(s: State, k: string, w: string) {
    k in s.keyToWebId && s.keyToWebId[k] == w
  }

  /** Two different tracked keys, bound to one WebID or the like; a key bound to none counts as bound
      to the empty one. */
  predicate Rotating(s: State, oldKey: string, newKey: string) {
    && oldKey != newKey && oldKey in s.keys && newKey in s.keys
    && (if oldKey in s.keyToWebId then s.keyToWebId[oldKey] else "")
       == (if newKey in s.keyToWebId then s.keyToWebId[newKey] else "")
  }

  predicate RotatesTo(o: Options, s: State, e: Event, k: string) {
    e.section.RotateKeys? && e.section.newKey == k && Rotating(s, e.section.oldKey, k)
  }

  predicate RotatesFrom(o: Options, s: State, e: Event, k: string) {
    e.section.RotateKeys? && e.section.oldKey == k && Rotating(s, k, e.section.newKey)
  }

  /** The key is invalidated by name, or with all keys of a WebID that lists it. */
  predicate Invalidates(o: Options, s: State, e: Event, k: string) {
    && k in s.keys
    && (|| (e.section.InvalidateKey? && e.section.key == k)
        || (e.section.InvalidateKeysByWebId? && e.section.webId in s.webIdToKeys && k in s.webIdToKeys[e.section.webId]))
  }

  predicate Activates(o: Options, s: State, e: Event, k: string) {
    RegistersKey(o, s, e, k) || Uses(o, s, e, k) || RotatesTo(o, s, e, k)
  }

  predicate Retires(o: Options, s: State, e: Event, k: string) {
    RotatesFrom(o, s, e, k) || Invalidates(o, s, e, k)
  }

  /** Everything but a use. */
  predicate Sees(o: Options, s: State, e: Event, k: string) {
    RegistersKey(o, s, e, k) || RotatesTo(o, s, e, k) || RotatesFrom(o, s, e, k) || Invalidates(o, s, e, k)
  }

  function TimeFor(e: Event, k: string): int {
    if e.section.InvalidateKeysByWebId? then e.section.clock(k) else e.now
  }

  /** A use in the wide sense: a rotation to the key counts. */
  predicate Employs(o: Options, s: State, e: Event, k: string) {
    Uses(o, s, e, k) || RotatesTo(o, s, e, k)
  }

  // ---------------------------------------------------------------- one event

  /** A key is tracked after an event if and only if the event registers it, or it was tracked and the
      event does not forget it. */
  lemma StepTracked(o: Options, s: State, e: Event, k: string)
    ensures k in Step(o, s, e).keys <==> RegistersKey(o, s, e, k) || (k in s.keys && !Forgets(o, s, e, k))
  {
    if e.section.RegisterKey? {
      RoomIs(o, s, e);
    }
  }

  /** The room made for a new key holds the keys that stay. */
  lemma RoomIs(o: Options, s: State, e: Event)
    requires e.section.RegisterKey?
    ensures e.section.key != "" && e.section.key !in s.keys ==>
      var room := RoomMade(o, s, e.section.evictAt).keys;
      room.Keys == Staying(o, s, e) && |room| == |Staying(o, s, e)|
  {
    if e.section.key != "" && e.section.key !in s.keys {
      var room := RoomMade(o, s, e.section.evictAt).keys;
      assert room.Keys == Staying(o, s, e);
    }
  }

  lemma StepActive(o: Options, s: State, e: Event, k: string)
    requires k in Step(o, s, e).keys
    ensures Activates(o, s, e, k) ==> Step(o, s, e).keys[k].active && !Retires(o, s, e, k)
    ensures Retires(o, s, e, k) ==> !Step(o, s, e).keys[k].active
    ensures !Activates(o, s, e, k) ==> k in s.keys
    ensures !Activates(o, s, e, k) && !Retires(o, s, e, k) ==> Step(o, s, e).keys[k].active == s.keys[k].active
  {
    if e.section.RegisterKey? {
      RoomIs(o, s, e);
    }
  }

  lemma StepSeen(o: Options, s: State, e: Event, k: string)
    requires k in Step(o, s, e).keys
    ensures Sees(o, s, e, k) ==> Step(o, s, e).keys[k].lastSeen == TimeFor(e, k)
    ensures !Sees(o, s, e, k) ==> k in s.keys && Step(o, s, e).keys[k].lastSeen == s.keys[k].lastSeen
  {
    if e.section.RegisterKey? {
      RoomIs(o, s, e);
    }
  }

  lemma StepCreated(o: Options, s: State, e: Event, k: string)
    requires k in Step(o, s, e).keys
    ensures Creates(o, s, e, k) ==> Step(o, s, e).keys[k].firstSeen == e.now
    ensures !Creates(o, s, e, k) ==> k in s.keys && Step(o, s, e).keys[k].firstSeen == s.keys[k].firstSeen
    ensures RegistersKey(o, s, e, k) ==>
      Step(o, s, e).keys[k].keyType == e.section.keyType && Step(o, s, e).keys[k].algorithm == e.section.algorithm
    ensures !RegistersKey(o, s, e, k) ==>
      && k in s.keys
      && Step(o, s, e).keys[k].keyType == s.keys[k].keyType && Step(o, s, e).keys[k].algorithm == s.keys[k].algorithm
  {
    if e.section.RegisterKey? {
      RoomIs(o, s, e);
    }
  }

  lemma StepUsed(o: Options, s: State, e: Event, k: string)
    requires k in Step(o, s, e).keys
    ensures Creates(o, s, e, k) ==> Step(o, s, e).keys[k].lastUsed == None && Step(o, s, e).keys[k].useCount == 0
    ensures !Creates(o, s, e, k) ==>
      && k in s.keys
      && Step(o, s, e).keys[k].useCount == s.keys[k].useCount + (if Uses(o, s, e, k) then 1 else 0)
      && Step(o, s, e).keys[k].lastUsed == if Employs(o, s, e, k) then Some(e.now) else s.keys[k].lastUsed
  {
    if e.section.RegisterKey? {
      RoomIs(o, s, e);
    }
  }

  // ---------------------------------------------------------------- whole histories

  /** In every run a key is tracked if and only if a registration of it succeeded and no clear and no
      eviction of it came since. */
  lemma {:induction false} TrackedIff(o: Options, h: seq<Event>, k: string)
    ensures k in Run(o, h).keys <==> Since(RegistersKey, Forgets, o, h, k)
  {
    if |h| == 0 {
    } else {
      var n := |h| - 1;
      TrackedIff(o, h[..n], k);
      SinceLast(RegistersKey, Forgets, o, h, k);
      StepTracked(o, Run(o, h[..n]), h[n], k);
    }
  }

  /** In every run a tracked key is active if and only if no rotation away from it and no invalidation
      of it came after its last registration, use or rotation to it; it is inactive if and only if one
      did. */
  lemma {:induction false} ActiveIff(o: Options, h: seq<Event>, k: string)
    requires k in Run(o, h).keys
    ensures Run(o, h).keys[k].active <==> Since(Activates, Retires, o, h, k)
    ensures !Run(o, h).keys[k].active <==> Since(Retires, Activates, o, h, k)
  {
    var n := |h| - 1;
    StepActive(o, Run(o, h[..n]), h[n], k);
    SinceLast(Activates, Retires, o, h, k);
    SinceLast(Retires, Activates, o, h, k);
    if Activates(o, Run(o, h[..n]), h[n], k) {
    } else {
      ActiveIff(o, h[..n], k);
    }
  }

  /** It was last seen at its last registration, rotation or invalidation. */
  lemma {:induction false} LastSeenIs(o: Options, h: seq<Event>, k: string) returns (i: nat)
    requires k in Run(o, h).keys
    ensures LastOf(Sees, o, h, k, i) && Run(o, h).keys[k].lastSeen == TimeFor(h[i], k)
  {
    var n := |h| - 1;
    StepSeen(o, Run(o, h[..n]), h[n], k);
    if Sees(o, Run(o, h[..n]), h[n], k) {
      i := n;
    } else {
      i := LastSeenIs(o, h[..n], k);
      LastOfNext(Sees, o, h, k, i);
    }
  }

  /** It was first seen at the last registration that found it untracked. */
  lemma {:induction false} FirstSeenIs(o: Options, h: seq<Event>, k: string) returns (i: nat)
    requires k in Run(o, h).keys
    ensures LastOf(Creates, o, h, k, i) && Run(o, h).keys[k].firstSeen == h[i].now
  {
    var n := |h| - 1;
    StepCreated(o, Run(o, h[..n]), h[n], k);
    if Creates(o, Run(o, h[..n]), h[n], k) {
      i := n;
    } else {
      i := FirstSeenIs(o, h[..n], k);
      LastOfNext(Creates, o, h, k, i);
    }
  }

  /** Its type and algorithm are those of its last registration. */
  lemma {:induction false} DescribedBy(o: Options, h: seq<Event>, k: string) returns (i: nat)
    requires k in Run(o, h).keys
    ensures LastOf(RegistersKey, o, h, k, i)
    ensures Run(o, h).keys[k].keyType == h[i].section.keyType && Run(o, h).keys[k].algorithm == h[i].section.algorithm
  {
    var n := |h| - 1;
    StepCreated(o, Run(o, h[..n]), h[n], k);
    if RegistersKey(o, Run(o, h[..n]), h[n], k) {
      i := n;
    } else {
      i := DescribedBy(o, h[..n], k);
      LastOfNext(RegistersKey, o, h, k, i);
    }
  }

  /** How often the key was used since it was last new. */
  function UsesSinceNew(o: Options, h: seq<Event>, k: string): nat {
    if |h| == 0 then 0
    else
      var front, e := h[..|h| - 1], h[|h| - 1];
      if Creates(o, Run(o, front), e, k) then 0
      else UsesSinceNew(o, front, k) + if Uses(o, Run(o, front), e, k) then 1 else 0
  }

  lemma {:induction false} UseCountIs(o: Options, h: seq<Event>, k: string)
    requires k in Run(o, h).keys
    ensures Run(o, h).keys[k].useCount == UsesSinceNew(o, h, k)
  {
    var n := |h| - 1;
    StepUsed(o, Run(o, h[..n]), h[n], k);
    if Creates(o, Run(o, h[..n]), h[n], k) {
    } else {
      UseCountIs(o, h[..n], k);
    }
  }

  /** It was used, or rotated to, since it was last new, if and only if a last use is kept, and that is
      the time of the last such event. */
  lemma {:induction false} LastUsedIs(o: Options, h: seq<Event>, k: string)
    requires k in Run(o, h).keys
    ensures var used := Run(o, h).keys[k].lastUsed;
      && (used.Some? <==> Since(Employs, Creates, o, h, k))
      && (used.Some? ==> exists i: nat :: LastOf(Employs, o, h, k, i) && used.value == h[i].now)
  {
    var n := |h| - 1;
    var s := Run(o, h[..n]);
    StepUsed(o, s, h[n], k);
    SinceLast(Employs, Creates, o, h, k);
    if Creates(o, s, h[n], k) {
    } else if Employs(o, s, h[n], k) {
      assert LastOf(Employs, o, h, k, n);
    } else {
      LastUsedIs(o, h[..n], k);
      if s.keys[k].lastUsed.Some? {
        var i: nat :| LastOf(Employs, o, h[..n], k, i) && s.keys[k].lastUsed.value == h[..n][i].now;
        LastOfNext(Employs, o, h, k, i);
      }
    }
  }

  lemma OneLast(p: When, o: Options, h: seq<Event>, k: string, i: nat, j: nat)
    requires LastOf(p, o, h, k, i) && LastOf(p, o, h, k, j)
    ensures i == j
  {
  }

  /** Longer than the expiration before `now`, the key was seen for the last time. */
  ghost predicate SeenLongBefore(o: Options, h: seq<Event>, k: string, now: int) {
    exists i: nat :: LastOf(Sees, o, h, k, i) && now - TimeFor(h[i], k) > o.keyExpiration
  }

  /** An event that evicts takes a key away if and only if the key is tracked, was retired and not
      activated since, and was seen for the last time longer ago than the expiration. */
  lemma EvictedIff(o: Options, h: seq<Event>, e: Event, k: string)
    requires EvictionTime(o, Run(o, h), e).Some?
    ensures k in Run(o, h).keys && k !in Run(o, h + [e]).keys <==>
      && Since(RegistersKey, Forgets, o, h, k)
      && Since(Retires, Activates, o, h, k)
      && SeenLongBefore(o, h, k, EvictionTime(o, Run(o, h), e).value)
  {
    var s, now := Run(o, h), EvictionTime(o, Run(o, h), e).value;
    RunFromRun(o, h, [e]);
    TrackedIff(o, h, k);
    StepTracked(o, s, e, k);
    if k in s.keys {
      ActiveIff(o, h, k);
      SeenLongBeforeIff(o, h, k, now);
    }
  }

  lemma SeenLongBeforeIff(o: Options, h: seq<Event>, k: string, now: int)
    requires k in Run(o, h).keys
    ensures SeenLongBefore(o, h, k, now) <==> now - Run(o, h).keys[k].lastSeen > o.keyExpiration
  {
    var i := LastSeenIs(o, h, k);
    if SeenLongBefore(o, h, k, now) {
      var j: nat :| LastOf(Sees, o, h, k, j) && now - TimeFor(h[j], k) > o.keyExpiration;
      OneLast(Sees, o, h, k, i, j);
    }
  }

  /** No other event but a clear takes a key away. */
  lemma ForgottenBy(o: Options, h: seq<Event>, e: Event, k: string)
    requires k in Run(o, h).keys && k !in Run(o, h + [e]).keys
    ensures e.section.Clear? || EvictionTime(o, Run(o, h), e).Some?
  {
    RunFromRun(o, h, [e]);
    StepTracked(o, Run(o, h), e, k);
  }

  // ---------------------------------------------------------------- bindings

  /** The event binds the key to the WebID it names: a binding, or a use of a tracked key that names
      one. */
  predicate BindsKey(s: State, e: Event, k: string) {
    || (e.section.Bind? && e.section.key == k)
    || (e.section.RecordKeyUsage? && e.section.key == k && k in s.keys && e.section.webId != "")
  }

  predicate BindsKeyTo(s: State, e: Event, k: string, w: string) {
    BindsKey(s, e, k) && e.section.webId == w
  }

  function BindsTo(w: string): When {
    (o: Options, s: State, e: Event, k: string) => BindsKeyTo(s, e, k, w)
  }

  /** The key is forgotten or bound to another WebID. */
  function Unbinds(w: string): When {
    (o: Options, s: State, e: Event, k: string) => Forgets(o, s, e, k) || (BindsKey(s, e, k) && e.section.webId != w)
  }

  /** The WebID loses its list, or the key is evicted while bound to it. */
  function Unlists(w: string): When {
    (o: Options, s: State, e: Event, k: string) =>
      || e.section.Clear?
      || (e.section.InvalidateKeysByWebId? && e.section.webId == w)
      || (Evicts(o, s, e, k) && Bound(s, k, w))
  }

  predicate Lists(s: State, k: string, w: string) {
    w in s.webIdToKeys && k in s.webIdToKeys[w]
  }

  lemma EvictedBindings(o: Options, s: State, now: int, k: string, w: string)
    ensures var gone := k in s.keys && !s.keys[k].active && now - s.keys[k].lastSeen > o.keyExpiration;
      && (Bound(Evicted(o, s, now), k, w) <==> Bound(s, k, w) && !gone)
      && (Lists(Evicted(o, s, now), k, w) <==> Lists(s, k, w) && !(gone && Bound(s, k, w)))
  {
    var gone := StaleKeys(o, s.keys, now);
    if Lists(s, k, w) && !(k in gone && Bound(s, k, w)) {
      assert k in BucketWithout(s, w, gone);
    }
  }

  /** A registration changes the indexes only by the eviction that makes room. */
  lemma RegisteredIndexes(o: Options, s: State, e: Event)
    requires e.section.RegisterKey?
    ensures var t := if EvictionTime(o, s, e).Some? then Evicted(o, s, e.section.evictAt) else s;
      Step(o, s, e).webIdToKeys == t.webIdToKeys && Step(o, s, e).keyToWebId == t.keyToWebId
  {
    var key, room := e.section.key, RoomMade(o, s, e.section.evictAt);
    if key == "" || key in s.keys {
      assert Step(o, s, e).webIdToKeys == s.webIdToKeys;
    } else {
      assert Step(o, s, e).webIdToKeys == room.webIdToKeys && Step(o, s, e).keyToWebId == room.keyToWebId;
    }
  }

  lemma RegisteredBindings(o: Options, s: State, e: Event, k: string, w: string)
    requires e.section.RegisterKey?
    ensures Bound(Step(o, s, e), k, w) <==> Bound(s, k, w) && !Evicts(o, s, e, k)
    ensures Lists(Step(o, s, e), k, w) <==> Lists(s, k, w) && !(Evicts(o, s, e, k) && Bound(s, k, w))
  {
    var now := e.section.evictAt;
    RegisteredIndexes(o, s, e);
    SameBindings(Step(o, s, e), if EvictionTime(o, s, e).Some? then Evicted(o, s, now) else s, k, w);
    EvictedBindings(o, s, now, k, w);
  }

  lemma SameBindings(s: State, t: State, k: string, w: string)
    requires s.webIdToKeys == t.webIdToKeys && s.keyToWebId == t.keyToWebId
    ensures Bound(s, k, w) == Bound(t, k, w) && Lists(s, k, w) == Lists(t, k, w)
  {
  }

  lemma StepBound(o: Options, s: State, e: Event, k: string, w: string)
    ensures Bound(Step(o, s, e), k, w) <==> BindsKeyTo(s, e, k, w) || (Bound(s, k, w) && !Unbinds(w)(o, s, e, k))
  {
    if e.section.RegisterKey? {
      RegisteredBindings(o, s, e, k, w);
    } else if e.section.Cleanup? {
      EvictedBindings(o, s, e.now, k, w);
    }
  }

  lemma StepLists(o: Options, s: State, e: Event, k: string, w: string)
    ensures Lists(Step(o, s, e), k, w) <==> BindsKeyTo(s, e, k, w) || (Lists(s, k, w) && !Unlists(w)(o, s, e, k))
  {
    if e.section.RegisterKey? {
      RegisteredBindings(o, s, e, k, w);
    } else if e.section.Cleanup? {
      EvictedBindings(o, s, e.now, k, w);
    }
  }

  /** Some event bound the key to the WebID, and it was neither forgotten nor bound to another since. */
  ghost predicate BoundTo(o: Options, h: seq<Event>, k: string, w: string) {
    Since(BindsTo(w), Unbinds(w), o, h, k)
  }

  /** In every run a key is bound to the WebID that the history binds it to, and is listed under those
      it was bound to and not taken from since. */
  lemma {:induction false} BoundIff(o: Options, h: seq<Event>, k: string, w: string)
    ensures Bound(Run(o, h), k, w) <==> BoundTo(o, h, k, w)
    ensures Lists(Run(o, h), k, w) <==> Since(BindsTo(w), Unlists(w), o, h, k)
  {
    if |h| == 0 {
    } else {
      var n := |h| - 1;
      BoundIff(o, h[..n], k, w);
      SinceLast(BindsTo(w), Unbinds(w), o, h, k);
      SinceLast(BindsTo(w), Unlists(w), o, h, k);
      StepBound(o, Run(o, h[..n]), h[n], k, w);
      StepLists(o, Run(o, h[..n]), h[n], k, w);
    }
  }

  /** In every run a rotation takes place if and only if the keys differ, both are tracked, and the
      history binds them to one WebID or neither to a nonempty one. */
  lemma RotationIff(o: Options, h: seq<Event>, oldKey: string, newKey: string)
    ensures Rotates(Run(o, h), oldKey, newKey) <==>
      && oldKey != newKey
      && Since(RegistersKey, Forgets, o, h, oldKey) && Since(RegistersKey, Forgets, o, h, newKey)
      && (|| (exists w :: BoundTo(o, h, oldKey, w) && BoundTo(o, h, newKey, w))
          || (forall w :: w != "" ==> !BoundTo(o, h, oldKey, w) && !BoundTo(o, h, newKey, w)))
  {
    TrackedIff(o, h, oldKey);
    TrackedIff(o, h, newKey);
    var s := Run(o, h);
    forall w
      ensures BoundTo(o, h, oldKey, w) <==> Bound(s, oldKey, w)
      ensures BoundTo(o, h, newKey, w) <==> Bound(s, newKey, w)
    {
      BoundIff(o, h, oldKey, w);
      BoundIff(o, h, newKey, w);
    }
    assert BoundTo(o, h, oldKey, WebIdOf(s, oldKey)) == Bound(s, oldKey, WebIdOf(s, oldKey));
    assert BoundTo(o, h, newKey, WebIdOf(s, newKey)) == Bound(s, newKey, WebIdOf(s, newKey));
  }
}
