/** The end of the verification of a DPoP proof (internal/authn/dpop.go): the window on its time
    of issue, its replay key, and the store in the replay cache.  Sections 4.3 and 11.1 of
    RFC 9449 ask for both checks. */
module DpopProof {

  import opened ReplayCache
  import opened ReplayHistory

  /** Durations in nanoseconds. */
  datatype Config = Config(replayWindow: int, maxClockSkew: int)

  /** Seconds since the epoch, as a proof states them, in nanoseconds. */
  function IssuedAt(iat: int): int {
    iat * 1_000_000_000
  }

  predicate InWindow(cfg: Config, issuedAt: int, now: int) {
    && !(issuedAt > now + cfg.maxClockSkew)
    && !(issuedAt < now - cfg.replayWindow - cfg.maxClockSkew)
  }

  function ReplayKey(thumbprint: string, jti: string): string {
    thumbprint + ":" + jti
  }

  /** Thumbprints are digests of one length, so a replay key determines the key and the
      identifier it was made from. */
  lemma ReplayKeyInjective(t: string, j: string, t': string, j': string)
    requires |t| == |t'|
    ensures ReplayKey(t, j) == ReplayKey(t', j') <==> t == t' && j == j'
  {
    if ReplayKey(t, j) == ReplayKey(t', j') {
      assert t == ReplayKey(t, j)[..|t|] == t';
      assert j == ReplayKey(t, j)[|t| + 1..] == j';
    }
  }

  /** `jtiLength` is the length of the identifier in bytes; `now` and `storedAt` are the two
      readings of the clock. */
  method VerifyTimeAndReplay(cfg: Config, cache: Cache, thumbprint: string, jti: string, jtiLength: nat, iat: int,
    now: int, storedAt: int) returns (accepted: bool, ghost evicted: set<string>)
    requires cache.Valid()
    modifies cache`entries
    ensures cache.Valid()
    ensures accepted <==>
      && jti != "" && jtiLength <= 512 && InWindow(cfg, IssuedAt(iat), now)
      && Accepts(old(cache.entries), ReplayKey(thumbprint, jti), storedAt)
    ensures jti == "" || jtiLength > 512 || !InWindow(cfg, IssuedAt(iat), now) ==> cache.entries == old(cache.entries)
    ensures jti != "" && jtiLength <= 512 && InWindow(cfg, IssuedAt(iat), now) ==>
      && MayEvict(old(cache.entries), cache.maxEntries, ReplayKey(thumbprint, jti), storedAt, evicted)
      && cache.entries == AfterStore(old(cache.entries), ReplayKey(thumbprint, jti), IssuedAt(iat) + cfg.replayWindow, storedAt, evicted)
  {
    evicted := {};
    if jti == "" || jtiLength > 512 {
      return false, {};
    }
    var issuedAt := IssuedAt(iat);
    if issuedAt > now + cfg.maxClockSkew {
      return false, {};
    }
    if issuedAt < now - cfg.replayWindow - cfg.maxClockSkew {
      return false, {};
    }
    accepted, evicted := cache.Store(ReplayKey(thumbprint, jti), issuedAt + cfg.replayWindow, storedAt);
  }

  // ---------------------------------------------------------------- presentations in runs of the cache

  /** A call that reaches the cache extends a run by one store: what the verification says of the
      entries it finds and leaves is what the run says of that store. */
  lemma CallIsStore(maxEntries: nat, h: History, key: string, expiresAt: int, storedAt: int, evicted: set<string>)
    requires Lawful(maxEntries, h) && (h != [] ==> h[|h| - 1].now <= storedAt)
    requires MayEvict(After(h), maxEntries, key, storedAt, evicted)
    ensures var r := h + [Store(key, expiresAt, storedAt, evicted)];
      && Lawful(maxEntries, r)
      && After(r) == AfterStore(After(h), key, expiresAt, storedAt, evicted)
      && (AcceptedAt(r, |h|) <==> Accepts(After(h), key, storedAt))
  {
    var e := Store(key, expiresAt, storedAt, evicted);
    LawfulNext(maxEntries, h, e);
    AfterNext(h, e);
    assert (h + [e])[..|h|] == h;
  }

  /** A store of a key when nothing is remembered is accepted and remembered alone. */
  lemma StoredAlone(maxEntries: nat, h: History, key: string, expiresAt: int, storedAt: int)
    requires Lawful(maxEntries, h) && (h != [] ==> h[|h| - 1].now <= storedAt)
    requires Live(After(h), storedAt) == map[] && key != "" && 0 < maxEntries
    ensures var r := h + [Store(key, expiresAt, storedAt, {})];
      && Lawful(maxEntries, r)
      && After(r) == map[key := Recorded(expiresAt, storedAt)]
      && AcceptedAt(r, |h|)
  {
    AloneInEntries(After(h), maxEntries, key, expiresAt, storedAt);
    CallIsStore(maxEntries, h, key, expiresAt, storedAt, {});
  }

  lemma AloneInEntries(entries: Entries, maxEntries: nat, key: string, expiresAt: int, storedAt: int)
    requires Live(entries, storedAt) == map[] && key != "" && 0 < maxEntries
    ensures Accepts(entries, key, storedAt) && MayEvict(entries, maxEntries, key, storedAt, {})
    ensures AfterStore(entries, key, expiresAt, storedAt, {}) == map[key := Recorded(expiresAt, storedAt)]
  {
  }

  lemma NothingYet(maxEntries: nat, now: int)
    ensures Lawful(maxEntries, []) && After([]) == map[] && Live(map[], now) == map[]
  {
  }

  lemma Forgotten(key: string, expiry: int, now: int)
    requires expiry <= now
    ensures Live(map[key := expiry], now) == map[]
  {
  }

  /** The first store of a run. */
  lemma StoredFirst(maxEntries: nat, key: string, expiresAt: int, now: int)
    requires key != "" && 0 < maxEntries
    ensures var r := [Store(key, expiresAt, now, {})];
      && Lawful(maxEntries, r) && After(r) == map[key := Recorded(expiresAt, now)] && AcceptedAt(r, 0)
  {
    NothingYet(maxEntries, now);
    StoredAlone(maxEntries, [], key, expiresAt, now);
    assert [] + [Store(key, expiresAt, now, {})] == [Store(key, expiresAt, now, {})];
  }

  /** A store after the only entry has expired. */
  lemma StoredAgain(maxEntries: nat, h: History, key: string, expiry: int, expiresAt: int, now: int)
    requires Lawful(maxEntries, h) && h != [] && h[|h| - 1].now <= now
    requires After(h) == map[key := expiry] && expiry <= now && key != "" && 0 < maxEntries
    ensures var r := h + [Store(key, expiresAt, now, {})];
      && Lawful(maxEntries, r) && After(r) == map[key := Recorded(expiresAt, now)] && AcceptedAt(r, |h|)
  {
    Forgotten(key, expiry, now);
    StoredAlone(maxEntries, h, key, expiresAt, now);
  }

  /** A run that does nothing but store one key at the given times. */
  function Stores(key: string, expiresAt: int, times: seq<int>): (h: History)
    ensures |h| == |times|
    ensures forall i :: 0 <= i < |h| ==> h[i] == Store(key, expiresAt, times[i], {})
  {
    seq(|times|, i requires 0 <= i < |times| => Store(key, expiresAt, times[i], {}))
  }

  /** Each store comes after the expiry that the one before it recorded. */
  predicate Forgetful(expiresAt: int, times: seq<int>) {
    forall k :: 0 < k < |times| ==> Recorded(expiresAt, times[k - 1]) <= times[k]
  }

  lemma StoresNext(key: string, expiresAt: int, front: seq<int>, now: int)
    ensures Stores(key, expiresAt, front + [now]) == Stores(key, expiresAt, front) + [Store(key, expiresAt, now, {})]
  {
  }

  lemma {:induction false} StoresLawful(maxEntries: nat, key: string, expiresAt: int, times: seq<int>)
    requires Forgetful(expiresAt, times) && times != [] && 0 < maxEntries && key != ""
    ensures var h := Stores(key, expiresAt, times);
      && Lawful(maxEntries, h)
      && After(h) == map[key := Recorded(expiresAt, times[|times| - 1])]
      && AcceptedAt(h, |times| - 1)
  {
    var front, now := times[..|times| - 1], times[|times| - 1];
    assert times == front + [now];
    StoresNext(key, expiresAt, front, now);
    if front == [] {
      StoredFirst(maxEntries, key, expiresAt, now);
      assert Stores(key, expiresAt, front) + [Store(key, expiresAt, now, {})] == [Store(key, expiresAt, now, {})];
    } else {
      StoresLawful(maxEntries, key, expiresAt, front);
      var last := front[|front| - 1];
      assert Recorded(expiresAt, last) <= now;
      StoredAgain(maxEntries, Stores(key, expiresAt, front), key, Recorded(expiresAt, last), expiresAt, now);
    }
  }

  /** All stores of such a run are accepted. */
  lemma StoresAccepted(maxEntries: nat, key: string, expiresAt: int, times: seq<int>, i: nat)
    requires Forgetful(expiresAt, times) && i < |times| && 0 < maxEntries && key != ""
    ensures AcceptedAt(Stores(key, expiresAt, times), i)
  {
    var h, upTo := Stores(key, expiresAt, times), Stores(key, expiresAt, times[..i + 1]);
    StoresLawful(maxEntries, key, expiresAt, times[..i + 1]);
    assert upTo[..i] == h[..i] && upTo[i] == h[i];
  }

  ghost predicate EveryAccepted(h: History) {
    forall k :: 0 <= k < |h| ==> AcceptedAt(h, k)
  }

  lemma EveryStoreAccepted(maxEntries: nat, key: string, expiresAt: int, times: seq<int>, h: History)
    requires Forgetful(expiresAt, times) && 0 < maxEntries && key != "" && h == Stores(key, expiresAt, times)
    ensures EveryAccepted(h) && Lawful(maxEntries, h)
    ensures forall k :: 0 <= k < |h| ==> h[k].Store? && h[k].evicted == {}
  {
    if times == [] {
      NothingYet(maxEntries, expiresAt);
    } else {
      StoresLawful(maxEntries, key, expiresAt, times);
    }
    forall k | 0 <= k < |h| ensures AcceptedAt(h, k) {
      StoresAccepted(maxEntries, key, expiresAt, times, k);
    }
  }

  /** Event `e` stores a proof whose time was checked at `checked`, at most `delay` before the
      store. */
  predicate Presents(cfg: Config, delay: nat, key: string, issuedAt: int, e: Event, checked: int) {
    && e.Store? && e.key == key && e.expiresAt == issuedAt + cfg.replayWindow
    && InWindow(cfg, issuedAt, checked) && checked <= e.now <= checked + delay
  }

  /** A run in which the proof passes the time checks and is accepted by the stores at the given
      indices, without being evicted between them. */
  ghost predicate Accepted(
      cfg: Config, delay: nat, maxEntries: nat, key: string, issuedAt: int, h: History, at: seq<nat>, checked: seq<int>) {
    && Lawful(maxEntries, h) && |checked| == |at|
    && (forall k :: 0 <= k < |at| ==> AcceptedAt(h, at[k]) && Presents(cfg, delay, key, issuedAt, h[at[k]], checked[k]))
    && (forall k, l :: 0 <= k < l < |at| ==> at[k] < at[l])
    && (forall k :: 0 < k < |at| ==> NotEvictedBetween(h, key, at[k - 1], at[k]))
  }

  ghost predicate NotEvictedBetween(h: History, key: string, i: nat, j: nat) {
    forall k :: i < k < j ==> !EvictedAt(h, k, key)
  }

  // ---------------------------------------------------------------- how often one proof passes

  /** Each acceptance comes after the expiry that the one before it recorded. */
  lemma NextAcceptance(
      cfg: Config, delay: nat, maxEntries: nat, key: string, issuedAt: int, h: History, at: seq<nat>, checked: seq<int>, k: nat)
    requires Accepted(cfg, delay, maxEntries, key, issuedAt, h, at, checked) && 0 < k < |at|
    ensures Recorded(issuedAt + cfg.replayWindow, h[at[k - 1]].now) <= h[at[k]].now
  {
    assert at[k - 1] < at[k];
    assert Presents(cfg, delay, key, issuedAt, h[at[k - 1]], checked[k - 1]);
    assert Presents(cfg, delay, key, issuedAt, h[at[k]], checked[k]);
    assert NotEvictedBetween(h, key, at[k - 1], at[k]);
    AcceptedTwiceSeparated(maxEntries, h, at[k - 1], at[k]);
  }

  lemma {:induction false} LateAcceptance(
      cfg: Config, delay: nat, maxEntries: nat, key: string, issuedAt: int, h: History, at: seq<nat>, checked: seq<int>, k: nat)
    requires Accepted(cfg, delay, maxEntries, key, issuedAt, h, at, checked) && 0 < k < |at|
    ensures h[at[k]].now >= issuedAt + cfg.replayWindow + (k - 1) * MINUTE
  {
    NextAcceptance(cfg, delay, maxEntries, key, issuedAt, h, at, checked, k);
    if k == 1 {
      assert (k - 1) * MINUTE == 0;
    } else {
      LateAcceptance(cfg, delay, maxEntries, key, issuedAt, h, at, checked, k - 1);
      assert 0 <= (k - 2) * MINUTE == (k - 1) * MINUTE - MINUTE;
    }
  }

  /** In every run one proof is accepted once, or at most twice and once more for every full minute
      of clock skew and of delay between the two readings of the clock. */
  lemma AcceptancesBounded(
      cfg: Config, delay: nat, maxEntries: nat, key: string, issuedAt: int, h: History, at: seq<nat>, checked: seq<int>)
    requires Accepted(cfg, delay, maxEntries, key, issuedAt, h, at, checked)
    ensures |at| <= 1 || |at| <= 2 + (cfg.maxClockSkew + delay) / MINUTE
  {
    if |at| > 1 {
      var n := |at| - 1;
      LateAcceptance(cfg, delay, maxEntries, key, issuedAt, h, at, checked, n);
      assert Presents(cfg, delay, key, issuedAt, h[at[n]], checked[n]);
      assert (n - 1) * MINUTE <= cfg.maxClockSkew + delay;
    }
  }

  // ---------------------------------------------------------------- the bound is reached

  function StoreTime(cfg: Config, issuedAt: int, k: nat): int {
    if k == 0 then issuedAt else issuedAt + cfg.replayWindow + (k - 1) * MINUTE
  }

  function CheckTime(cfg: Config, issuedAt: int, k: nat): int {
    var latest := issuedAt + cfg.replayWindow + cfg.maxClockSkew;
    if StoreTime(cfg, issuedAt, k) <= latest then StoreTime(cfg, issuedAt, k) else latest
  }

  lemma ForgottenByNext(cfg: Config, issuedAt: int, k: nat)
    requires cfg.replayWindow > 0
    ensures Recorded(issuedAt + cfg.replayWindow, StoreTime(cfg, issuedAt, k)) == StoreTime(cfg, issuedAt, k + 1)
  {
    if k == 0 {
      assert (k + 1 - 1) * MINUTE == 0;
    } else {
      assert 0 <= (k - 1) * MINUTE == k * MINUTE - MINUTE;
    }
  }

  function Indices(n: nat): (at: seq<nat>)
    ensures |at| == n && forall i :: 0 <= i < n ==> at[i] == i
  {
    seq(n, i requires 0 <= i < n => i)
  }

  function StoreTimes(cfg: Config, issuedAt: int, n: nat): seq<int> {
    seq(n, i requires 0 <= i < n => StoreTime(cfg, issuedAt, i))
  }

  function CheckTimes(cfg: Config, issuedAt: int, n: nat): seq<int> {
    seq(n, i requires 0 <= i < n => CheckTime(cfg, issuedAt, i))
  }

  lemma TimesForgetful(cfg: Config, issuedAt: int, n: nat)
    requires cfg.replayWindow > 0
    ensures Forgetful(issuedAt + cfg.replayWindow, StoreTimes(cfg, issuedAt, n))
  {
    var expiresAt, times := issuedAt + cfg.replayWindow, StoreTimes(cfg, issuedAt, n);
    forall k | 0 < k < n ensures Recorded(expiresAt, times[k - 1]) <= times[k] {
      ForgottenByNext(cfg, issuedAt, k - 1);
    }
  }

  lemma TimesPresent(cfg: Config, delay: nat, key: string, issuedAt: int, n: nat)
    requires cfg.replayWindow > 0 && cfg.maxClockSkew >= 0 && n == 2 + (cfg.maxClockSkew + delay) / MINUTE
    ensures var h := Stores(key, issuedAt + cfg.replayWindow, StoreTimes(cfg, issuedAt, n));
      forall k :: 0 <= k < n ==> Presents(cfg, delay, key, issuedAt, h[k], CheckTimes(cfg, issuedAt, n)[k])
  {
    var h := Stores(key, issuedAt + cfg.replayWindow, StoreTimes(cfg, issuedAt, n));
    forall k | 0 <= k < n ensures Presents(cfg, delay, key, issuedAt, h[k], CheckTimes(cfg, issuedAt, n)[k]) {
      CheckedInTime(cfg, delay, issuedAt, k);
    }
  }

  /** With a window and a skew as configured in practice the bound is the number of acceptances of
      some run, so that a proof is accepted twice even without skew and delay. */
  lemma BoundReached(cfg: Config, delay: nat, maxEntries: nat, key: string, issuedAt: int)
    requires cfg.replayWindow > 0 && cfg.maxClockSkew >= 0 && 0 < maxEntries && key != ""
    ensures var n := 2 + (cfg.maxClockSkew + delay) / MINUTE;
      Accepted(cfg, delay, maxEntries, key, issuedAt,
               Stores(key, issuedAt + cfg.replayWindow, StoreTimes(cfg, issuedAt, n)), Indices(n), CheckTimes(cfg, issuedAt, n))
  {
    var n := 2 + (cfg.maxClockSkew + delay) / MINUTE;
    var expiresAt, times := issuedAt + cfg.replayWindow, StoreTimes(cfg, issuedAt, n);
    TimesForgetful(cfg, issuedAt, n);
    TimesPresent(cfg, delay, key, issuedAt, n);
    AllAccepted(cfg, delay, maxEntries, key, issuedAt, times, CheckTimes(cfg, issuedAt, n), Stores(key, expiresAt, times));
  }

  /** Times of storing that let the key be forgotten, with times of checking to match, make a run in
      which every store is accepted. */
  lemma AllAccepted(
      cfg: Config, delay: nat, maxEntries: nat, key: string, issuedAt: int, times: seq<int>, checked: seq<int>, h: History)
    requires 0 < maxEntries && key != "" && |checked| == |times|
    requires Forgetful(issuedAt + cfg.replayWindow, times) && h == Stores(key, issuedAt + cfg.replayWindow, times)
    requires forall k :: 0 <= k < |h| ==> Presents(cfg, delay, key, issuedAt, h[k], checked[k])
    ensures Accepted(cfg, delay, maxEntries, key, issuedAt, h, Indices(|h|), checked)
  {
    EveryStoreAccepted(maxEntries, key, issuedAt + cfg.replayWindow, times, h);
    NothingEvicted(cfg, delay, maxEntries, key, issuedAt, h, checked);
  }

  lemma NothingEvicted(cfg: Config, delay: nat, maxEntries: nat, key: string, issuedAt: int, h: History, checked: seq<int>)
    requires Lawful(maxEntries, h) && |checked| == |h|
    requires EveryAccepted(h)
    requires forall k :: 0 <= k < |h| ==> Presents(cfg, delay, key, issuedAt, h[k], checked[k])
    requires forall k :: 0 <= k < |h| ==> h[k].Store? && h[k].evicted == {}
    ensures Accepted(cfg, delay, maxEntries, key, issuedAt, h, Indices(|h|), checked)
  {
    var at := Indices(|h|);
    forall k | 0 < k < |at| ensures NotEvictedBetween(h, key, at[k - 1], at[k]) {
    }
  }

  lemma CheckedInTime(cfg: Config, delay: nat, issuedAt: int, k: nat)
    requires cfg.replayWindow > 0 && cfg.maxClockSkew >= 0
    requires k < 2 + (cfg.maxClockSkew + delay) / MINUTE
    ensures InWindow(cfg, issuedAt, CheckTime(cfg, issuedAt, k))
    ensures CheckTime(cfg, issuedAt, k) <= StoreTime(cfg, issuedAt, k) <= CheckTime(cfg, issuedAt, k) + delay
  {
    if k > 0 {
      assert 0 <= (k - 1) * MINUTE <= cfg.maxClockSkew + delay;
    }
  }

  // ---------------------------------------------------------------- when one proof passes twice

  ghost predicate SomeTwice(cfg: Config, delay: nat, maxEntries: nat, key: string) {
    exists issuedAt, h, at, checked :: |at| == 2 && Accepted(cfg, delay, maxEntries, key, issuedAt, h, at, checked)
  }

  /** The window is open at some time, and either a store can come before the window of the replay
      cache closes and another after that, or the skew and the delay leave room for the minute that
      a late proof is remembered. */
  predicate RoomForTwo(cfg: Config, delay: nat) {
    var w, s := cfg.replayWindow, cfg.maxClockSkew;
    && w + 2 * s >= 0
    && ((w + s > 0 && s + delay >= 0) || (s + delay >= MINUTE && w + 2 * s + delay >= MINUTE))
  }

  /** Two readings of the clock at which the proof, issued at time zero, can be checked and stored. */
  predicate Readings(cfg: Config, delay: nat, checked: int, stored: int) {
    InWindow(cfg, 0, checked) && checked <= stored <= checked + delay
  }

  lemma TwoStores(cfg: Config, delay: nat, maxEntries: nat, key: string, c: int, first: int, d: int, second: int)
    requires 0 < maxEntries && key != ""
    requires Readings(cfg, delay, c, first) && Readings(cfg, delay, d, second)
    requires Recorded(cfg.replayWindow, first) <= second
    ensures SomeTwice(cfg, delay, maxEntries, key)
  {
    AllAccepted(cfg, delay, maxEntries, key, 0, [first, second], [c, d], Stores(key, cfg.replayWindow, [first, second]));
  }

  lemma RoomIsUsed(cfg: Config, delay: nat, maxEntries: nat, key: string)
    requires 0 < maxEntries && key != "" && RoomForTwo(cfg, delay)
    ensures SomeTwice(cfg, delay, maxEntries, key)
  {
    var w, s := cfg.replayWindow, cfg.maxClockSkew;
    var d := if w <= w + s then w else w + s;
    if w + s > 0 && s + delay >= 0 {
      TwoStores(cfg, delay, maxEntries, key, -s, -s, d, w);
    } else {
      var first := if w <= -s then -s else w;
      var c := if first <= w + s then first else w + s;
      var second := first + MINUTE;
      var e := if second <= w + s then second else w + s;
      TwoStores(cfg, delay, maxEntries, key, c, first, e, second);
    }
  }

  /** Some run accepts one proof twice, without evicting it in between, if and only if there is
      room for two. */
  lemma AcceptedTwiceIff(cfg: Config, delay: nat, maxEntries: nat, key: string)
    requires 0 < maxEntries && key != ""
    ensures SomeTwice(cfg, delay, maxEntries, key) <==> RoomForTwo(cfg, delay)
  {
    if RoomForTwo(cfg, delay) {
      RoomIsUsed(cfg, delay, maxEntries, key);
    }
    if issuedAt, h, at, checked :| |at| == 2 && Accepted(cfg, delay, maxEntries, key, issuedAt, h, at, checked) {
      NextAcceptance(cfg, delay, maxEntries, key, issuedAt, h, at, checked, 1);
      assert Presents(cfg, delay, key, issuedAt, h[at[0]], checked[0]);
      assert Presents(cfg, delay, key, issuedAt, h[at[1]], checked[1]);
    }
  }
}
