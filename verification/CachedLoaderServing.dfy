/** Which loads the cached loader keeps and serves, told by the events of its history
    (internal/authz/policy_cached_loader.go and policy_loading.go). */
module CachedLoaderServing {

  import opened Wrappers
  import opened Text
  import opened PolicyInput
  import opened PolicySources
  import opened PolicyRecords
  import opened CachedLoader
  import opened CachedLoaderHistory

  // ---------------------------------------------------------------- records that can be made

  /** A load that can be kept: its source can be normalised and names a content type, and the content
      is not empty and within one mebibyte. */
  predicate Keepable(env: Env, loaded: Loaded) {
    && PolicySources.Presentable(env.lib, loaded.source)
    && Trim(loaded.source.contentType) != ""
    && 0 < |loaded.content| <= 0x10_0000
  }

  /** A version that is given, if any, is short and has no control characters. */
  predicate Versionable(version: string) {
    Trim(version) == "" || (Utf8Length(Trim(version)) <= 256 && NoControl(Trim(version)))
  }

  lemma {:induction false} AsciiLength(s: string)
    requires forall i :: 0 <= i < |s| ==> s[i] < 0x80 as char
    ensures Utf8Length(s) == |s|
  {
    if s == "" {
    } else {
      AsciiLength(s[1..]);
    }
  }

  lemma HashedIsVersion(hash: string)
    requires LowerHex(hash)
    ensures ValidVersion("sha256:" + hash)
  {
    AsciiLength("sha256:" + hash);
  }

  /** The document of a keepable load. */
  lemma DocumentOfKeepable(env: Env, loaded: Loaded)
    requires PrintsHex(env) && Settled(env.lib) && Keepable(env, loaded)
    ensures var s := NormalizeSource(env.lib, loaded.source);
      && s.Some? && s.value.contentType != ""
      && DocumentOfLoaded(env, loaded) == Some(Document(s.value.uri, env.contentDigest(loaded.content), s.value.contentType))
  {
    PolicySources.PresentableIff(env.lib, loaded.source);
    var s, hash := NormalizeSource(env.lib, loaded.source).value, env.contentDigest(loaded.content);
    TrimTrims(loaded.source.uri);
    TrimTrims(s.uri);
    HexSurvives(hash);
    OneDocumentIs(env.lib, Document(s.uri, hash, s.contentType));
  }

  /** It has a version. */
  lemma VersionOfKeepable(env: Env, loaded: Loaded, loadedAt: int, expiresAt: int)
    requires PrintsHex(env) && Settled(env.lib) && Keepable(env, loaded)
    ensures NormalizeSource(env.lib, loaded.source).Some? && DocumentOfLoaded(env, loaded).Some?
    ensures var s, d := NormalizeSource(env.lib, loaded.source).value, DocumentOfLoaded(env, loaded).value;
      ValidVersion(CacheVersion(env, s, d, loadedAt, expiresAt))
  {
    DocumentOfKeepable(env, loaded);
    var s, d := NormalizeSource(env.lib, loaded.source).value, DocumentOfLoaded(env, loaded).value;
    SourceSettled(env.lib, loaded.source);
    OneDocumentIs(env.lib, Document(s.uri, env.contentDigest(loaded.content), s.contentType));
    DocumentSettled(env.lib, Document(s.uri, env.contentDigest(loaded.content), s.contentType));
    OneDocumentIs(env.lib, d);
    HashedIsVersion(env.digest(Join(VersionParts(s, d, loadedAt, expiresAt))));
  }

  /** With settled media types a record is made if and only if the times are not negative, the load can
      be kept and the version, if one is given, is short and without control characters. */
  lemma RecordMadeIff(env: Env, loaded: Loaded, loadedAt: int, expiresAt: int, version: string)
    requires PrintsHex(env) && Settled(env.lib)
    ensures RecordForLoaded(env, loaded, loadedAt, expiresAt, version).Some? <==>
      loadedAt >= 0 && expiresAt >= 0 && Keepable(env, loaded) && Versionable(version)
  {
    PolicySources.PresentableIff(env.lib, loaded.source);
    if Keepable(env, loaded) {
      VersionOfKeepable(env, loaded, loadedAt, expiresAt);
    }
  }

  // ---------------------------------------------------------------- loads that are kept

  /** What a record made from a keepable load is. */
  lemma MadeRecord(env: Env, loaded: Loaded, loadedAt: int, expiresAt: int)
    requires PrintsHex(env) && Settled(env.lib) && Keepable(env, loaded) && loadedAt >= 0 && expiresAt >= 0
    ensures var made := RecordForLoaded(env, loaded, loadedAt, expiresAt, "");
      && made.Some? && ValidVersion(made.value.version)
      && Some(made.value.source) == NormalizeSource(env.lib, loaded.source)
      && Some(made.value.document) == DocumentOfLoaded(env, loaded)
      && made.value.cacheKey == CacheKey(env, made.value.source)
      && made.value.loadedAt == loadedAt && made.value.expiresAt == expiresAt
      && made.value.version == CacheVersion(env, made.value.source, made.value.document, loadedAt, expiresAt)
  {
    VersionOfKeepable(env, loaded, loadedAt, expiresAt);
    RecordMadeIff(env, loaded, loadedAt, expiresAt, "");
  }

  lemma MadeRecordKept(env: Env, loaded: Loaded, loadedAt: int, expiresAt: int, now: int)
    requires PrintsHex(env) && Settled(env.lib) && Keepable(env, loaded) && loadedAt >= 0 && expiresAt >= 0
    ensures var made := RecordForLoaded(env, loaded, loadedAt, expiresAt, "");
      made.Some? && NormalizeRecord(env, made.value, now).Some?
  {
    MadeRecord(env, loaded, loadedAt, expiresAt);
    DocumentOfKeepable(env, loaded);
    var r := RecordForLoaded(env, loaded, loadedAt, expiresAt, "").value;
    SourceSettled(env.lib, loaded.source);
    OneDocumentIs(env.lib, Document(r.source.uri, env.contentDigest(loaded.content), r.source.contentType));
    DocumentSettled(env.lib, Document(r.source.uri, env.contentDigest(loaded.content), r.source.contentType));
    OneDocumentIs(env.lib, r.document);
    KeyTrimmed(env, r.source);
    VersionHex(env, r.source, r.document, loadedAt, expiresAt);
    TrimTrims(r.version);
  }

  /** With settled media types the outcome of a call is kept if and only if the call loaded something
      that can be kept and storing it was not cancelled, at a time that is not negative.  It is then kept
      under the key of what was loaded. */
  lemma KeptIff(env: Env, cfg: Config, c: Call)
    requires PrintsHex(env) && Settled(env.lib)
    ensures Kept(env, cfg, c).Some? <==>
      c.outcome.Some? && Keepable(env, c.outcome.value.loaded) && !c.storeCancelled && c.storedAt >= 0
    ensures Kept(env, cfg, c).Some? ==> Kept(env, cfg, c).value.cacheKey == CacheKey(env, c.outcome.value.loaded.source)
  {
    if c.outcome.Some? {
      var loaded, expiresAt := c.outcome.value.loaded, ExpiresAt(cfg, c.storedAt);
      RecordMadeIff(env, loaded, c.storedAt, expiresAt, "");
      if Keepable(env, loaded) && c.storedAt >= 0 {
        MadeRecordKept(env, loaded, c.storedAt, expiresAt, cfg.storeNow);
      }
    }
    if Kept(env, cfg, c).Some? {
      KeptIsTyped(env, cfg, c);
    }
  }

  // ---------------------------------------------------------------- calls that are served

  /** The end of a call that kept a load for the source. */
  predicate KeepsFor(env: Env, e: Event, source: Source) {
    && e.End? && e.call.outcome.Some? && Keepable(env, e.call.outcome.value.loaded)
    && !e.call.storeCancelled && e.call.storedAt >= 0
    && NormalizeSource(env.lib, e.call.outcome.value.loaded.source) == NormalizeSource(env.lib, source)
  }

  /** The last such event of the run. */
  ghost predicate LastFor(env: Env, h: seq<Event>, source: Source, i: nat) {
    i < |h| && KeepsFor(env, h[i], source) && forall j :: i < j < |h| ==> !KeepsFor(env, h[j], source)
  }

  lemma KeepsIff(env: Env, cfg: Config, h: seq<Event>, source: Source, i: nat)
    requires PrintsHex(env) && Settled(env.lib) && MediaTypesPlain(env.lib) && KeyApart(env, h, source) && i < |h|
    requires NormalizeSource(env.lib, source).Some?
    ensures KeepsFor(env, h[i], source) <==> StoredKey(env, cfg, h[i]) == Some(CacheKey(env, source))
  {
    if h[i].End? {
      KeptIff(env, cfg, h[i].call);
      if Kept(env, cfg, h[i].call).Some? {
        PolicySources.PresentableIff(env.lib, h[i].call.outcome.value.loaded.source);
        CacheKeys(env, source, h[i].call.outcome.value.loaded.source);
      }
    }
  }

  lemma LastMarked<T>(keys: seq<T>, x: T, marks: seq<bool>, i: nat)
    requires |marks| == |keys| && forall j :: 0 <= j < |keys| ==> (marks[j] <==> keys[j] == x)
    ensures LastIndex(keys, x) == Some(i) <==> i < |marks| && marks[i] && forall j :: i < j < |marks| ==> !marks[j]
  {
  }

  function Marks(env: Env, h: seq<Event>, source: Source): (marks: seq<bool>)
    ensures |marks| == |h| && forall j :: 0 <= j < |h| ==> marks[j] == KeepsFor(env, h[j], source)
  {
    seq(|h|, j requires 0 <= j < |h| => KeepsFor(env, h[j], source))
  }

  lemma LastForIs(env: Env, h: seq<Event>, source: Source, marks: seq<bool>, i: nat)
    requires marks == Marks(env, h, source)
    ensures LastFor(env, h, source, i) <==> i < |marks| && marks[i] && forall j :: i < j < |marks| ==> !marks[j]
  {
  }

  lemma NewestIff(env: Env, cfg: Config, h: seq<Event>, source: Source, i: nat)
    requires PrintsHex(env) && Settled(env.lib) && MediaTypesPlain(env.lib) && KeyApart(env, h, source)
    requires NormalizeSource(env.lib, source).Some?
    ensures LastFor(env, h, source, i) <==> Newest(env, cfg, h, CacheKey(env, source)) == Some(i)
  {
    var keys, key, marks := StoredKeys(env, cfg, h), CacheKey(env, source), Marks(env, h, source);
    forall j | 0 <= j < |h| ensures marks[j] <==> keys[j] == Some(key) {
      KeepsIff(env, cfg, h, source, j);
    }
    LastMarked(keys, Some(key), marks, i);
    LastForIs(env, h, source, marks, i);
  }

  /** However look-ups and stores of calls are interleaved, a call is served from the cache if and only
      if it is not cancelled, its source can be normalised, and the last load kept for that source is in
      time; it then gets the content of that load. */
  lemma ServedIff(env: Env, cfg: Config, h: seq<Event>, c: Call)
    requires PrintsHex(env) && Settled(env.lib) && MediaTypesPlain(env.lib) && KeyApart(env, h, c.source)
    ensures Judged(env, cfg, Records(env, cfg, h), c).Serve? <==>
      && !c.lookupCancelled && PolicySources.Presentable(env.lib, c.source)
      && exists i: nat :: LastFor(env, h, c.source, i) && InTime(cfg, h[i].call, c)
    ensures forall i: nat :: LastFor(env, h, c.source, i) && Judged(env, cfg, Records(env, cfg, h), c).Serve? ==>
      Answer(env, cfg, Records(env, cfg, h), c).Some?
      && Answer(env, cfg, Records(env, cfg, h), c).value.loaded.content == h[i].call.outcome.value.loaded.content
  {
    PolicySources.PresentableIff(env.lib, c.source);
    SettledHits(env, cfg, h, c);
    HitIsNewestLoad(env, cfg, h, c);
    if NormalizeSource(env.lib, c.source).Some? {
      forall i: nat ensures LastFor(env, h, c.source, i) <==> Newest(env, cfg, h, CacheKey(env, c.source)) == Some(i) {
        NewestIff(env, cfg, h, c.source, i);
      }
      var newest := Newest(env, cfg, h, CacheKey(env, c.source));
      assert newest.Some? ==> LastFor(env, h, c.source, newest.value);
    }
  }
}
