/** Cache records of loaded policy sources (internal/authz/policy_loading.go): their keys, versions,
    states and normalisation. */
module PolicyRecords {

  import opened Wrappers
  import opened Text
  import opened Sorting
  import opened Normalization
  import opened PolicyInput
  import opened PolicySources

  type Content = seq<Byte>

  /** The library functions, and the hash as hexadecimal text: of a text and of a content. */
  datatype Env = Env(lib: Library, digest: Digest, contentDigest: Content -> string)

  predicate LowerHex(s: string) {
    |s| == 64 && forall i :: 0 <= i < |s| ==> '0' <= s[i] <= '9' || 'a' <= s[i] <= 'f'
  }

  /** Hashes are printed as sixty-four lower-case hexadecimal digits. */
  ghost predicate PrintsHex(env: Env) {
    && (forall s :: LowerHex(env.digest(s)))
    && (forall c :: LowerHex(env.contentDigest(c)))
  }

  datatype Loaded = Loaded(source: Source, content: Content)

  datatype State = Fresh | Stale | Expired

  datatype Record = Record(
    cacheKey: string, source: Source, document: Document, content: Content,
    loadedAt: int, expiresAt: int, state: State, version: string)

  const MAX_CONTENT := 0x10_0000

  function StateAt(loadedAt: int, expiresAt: int, now: int): State {
    if loadedAt <= 0 then Stale
    else if expiresAt > 0 && now >= expiresAt then Expired
    else Fresh
  }

  // ---------------------------------------------------------------- keys

  function KeyPreimage(n: Source): string {
    Join(SourceParts(n))
  }

  /** The cache key of a source; empty when the source is not valid. */
  function CacheKey(env: Env, source: Source): string {
    match NormalizeSource(env.lib, source)
    case None => ""
    case Some(n) => "policy-source:" + env.digest(KeyPreimage(n))
  }

  /** Two sources share a key if and only if both are invalid or both have one normal form. */
  lemma CacheKeys(env: Env, a: Source, b: Source)
    requires MediaTypesPlain(env.lib)
    requires NormalizeSource(env.lib, a).Some? && NormalizeSource(env.lib, b).Some? ==>
      Apart(env.digest, KeyPreimage(NormalizeSource(env.lib, a).value), KeyPreimage(NormalizeSource(env.lib, b).value))
    ensures CacheKey(env, a) == CacheKey(env, b) <==> NormalizeSource(env.lib, a) == NormalizeSource(env.lib, b)
  {
    var na, nb := NormalizeSource(env.lib, a), NormalizeSource(env.lib, b);
    if na.Some? && nb.Some? && CacheKey(env, a) == CacheKey(env, b) {
      assert env.digest(KeyPreimage(na.value)) == CacheKey(env, a)[14..];
      assert env.digest(KeyPreimage(nb.value)) == CacheKey(env, b)[14..];
      NormalSourceFacts(env.lib, a);
      NormalSourceFacts(env.lib, b);
      SourcePartsInjective(na.value, nb.value);
    }
  }

  // ---------------------------------------------------------------- documents and versions

  /** Normalises a list of one document. */
  function OneDocument(lib: Library, d: Document): Option<Document> {
    var r := NormalForm(DocumentScheme(lib), [d]);
    if r.Normal? && |r.items| == 1 then Some(r.items[0]) else None
  }

  lemma OneDocumentIs(lib: Library, d: Document)
    ensures OneDocument(lib, d) == NormalizeDocument(lib, d)
  {
    var sch := DocumentScheme(lib);
    assert [d][..0] == [];
    assert Kept(sch, []) == Normal([]);
    match NormalizeDocument(lib, d)
    case None =>
      assert Kept(sch, [d]) == InvalidElement;
    case Some(n) =>
      assert Lookup(sch.key, [], sch.key(n)) == None;
      assert Kept(sch, [d]) == Normal([n]);
      assert SortBy(sch.less, [n]) == [n];
  }

  function DocumentOfLoaded(env: Env, loaded: Loaded): Option<Document> {
    var source :- NormalizeSource(env.lib, loaded.source);
    if loaded.content == [] || |loaded.content| > MAX_CONTENT || source.contentType == "" then None
    else OneDocument(env.lib, Document(source.uri, env.contentDigest(loaded.content), source.contentType))
  }

  predicate ValidVersion(version: string) {
    version != "" && Utf8Length(version) <= 256 && NoControl(version)
  }

  function VersionParts(s: Source, d: Document, loadedAt: int, expiresAt: int): seq<string> {
    SourceParts(s) + [d.uri, d.sha256, d.contentType, PaddedInt(loadedAt, 20), PaddedInt(expiresAt, 20)]
  }

  function CacheVersion(env: Env, source: Source, document: Document, loadedAt: int, expiresAt: int): string {
    match (NormalizeSource(env.lib, source), OneDocument(env.lib, document))
    case (Some(s), Some(d)) =>
      if d.uri != s.uri then ""
      else "sha256:" + env.digest(Join(VersionParts(s, d, loadedAt, expiresAt)))
    case (_, _) => ""
  }

  // ---------------------------------------------------------------- records

  function RecordForLoaded(env: Env, loaded: Loaded, loadedAt: int, expiresAt: int, version: string): Option<Record> {
    if loadedAt < 0 || expiresAt < 0 then None
    else
      var document :- DocumentOfLoaded(env, loaded);
      var source :- NormalizeSource(env.lib, loaded.source);
      var given := Trim(version);
      var v := if given == "" then CacheVersion(env, source, document, loadedAt, expiresAt) else given;
      if !ValidVersion(v) then None
      else
        Some(Record(CacheKey(env, source), source, document, loaded.content, loadedAt, expiresAt,
                    StateAt(loadedAt, expiresAt, loadedAt), v))
  }

  function NormalizeRecord(env: Env, r: Record, now: int): Option<Record> {
    if r.loadedAt < 0 || r.expiresAt < 0 then None
    else
      var source :- NormalizeSource(env.lib, r.source);
      var document :- OneDocument(env.lib, r.document);
      var given := Trim(r.cacheKey);
      var key := if given == "" then CacheKey(env, source) else given;
      var givenVersion := Trim(r.version);
      var version :=
        if givenVersion == "" then CacheVersion(env, source, document, r.loadedAt, r.expiresAt) else givenVersion;
      if document.uri != source.uri || key != CacheKey(env, source) || !ValidVersion(version) then None
      else
        Some(Record(key, source, document, r.content, r.loadedAt, r.expiresAt,
                    StateAt(r.loadedAt, r.expiresAt, now), version))
  }

  lemma HexSurvives(s: string)
    requires LowerHex(s)
    ensures Trim(s) == s && Lower(s) == s
  {
    TrimTrims(s);
    LowerSame(s);
  }

  lemma {:induction false} LowerSame(s: string)
    requires forall i :: 0 <= i < |s| ==> LowerChar(s[i]) == s[i]
    ensures Lower(s) == s
  {
    if s == "" {
    } else {
      LowerSame(s[1..]);
    }
  }

  /** A record built from a load holds its content, the hash of that content and the given times. */
  lemma RecordHolds(env: Env, loaded: Loaded, loadedAt: int, expiresAt: int, version: string)
    requires PrintsHex(env)
    requires RecordForLoaded(env, loaded, loadedAt, expiresAt, version).Some?
    ensures var r := RecordForLoaded(env, loaded, loadedAt, expiresAt, version).value;
      && r.content == loaded.content && r.content != []
      && r.document.sha256 == env.contentDigest(loaded.content)
      && r.loadedAt == loadedAt && r.expiresAt == expiresAt
  {
    var source := NormalizeSource(env.lib, loaded.source).value;
    OneDocumentIs(env.lib, Document(source.uri, env.contentDigest(loaded.content), source.contentType));
    HexSurvives(env.contentDigest(loaded.content));
  }

  /** Normalising a record keeps its content, its times and, when it is lower-case, its hash. */
  lemma NormalizeKeeps(env: Env, r: Record, now: int)
    requires NormalizeRecord(env, r, now).Some?
    ensures var n := NormalizeRecord(env, r, now).value;
      && n.content == r.content && n.loadedAt == r.loadedAt && n.expiresAt == r.expiresAt
      && n.state == StateAt(r.loadedAt, r.expiresAt, now)
      && (LowerHex(r.document.sha256) ==> n.document.sha256 == r.document.sha256)
      && n.document.uri == n.source.uri
      && n.cacheKey == CacheKey(env, NormalizeSource(env.lib, r.source).value)
  {
    OneDocumentIs(env.lib, r.document);
    if LowerHex(r.document.sha256) {
      HexSurvives(r.document.sha256);
    }
  }

  // ---------------------------------------------------------------- lists of records

  function RecordKey(r: Record): string {
    r.cacheKey
  }

  predicate RecordLess(a: Record, b: Record) {
    if a.cacheKey != b.cacheKey then Less(a.cacheKey, b.cacheKey) else Less(a.version, b.version)
  }

  function RecordScheme(env: Env, now: int): Scheme<Record> {
    Scheme(
      (r: Record) => NormalizeRecord(env, r, now),
      RecordKey,
      (a: Record, b: Record) => a.version == b.version && a.document.sha256 == b.document.sha256,
      RecordLess)
  }

  lemma RecordsLawful(env: Env, now: int)
    ensures Lawful(RecordScheme(env, now))
  {
    forall x ensures !RecordLess(x, x) {
      LessIrreflexive(x.version);
    }
    forall x, y, z | RecordLess(x, y) && RecordLess(y, z) ensures RecordLess(x, z) {
      ChainTransitive(x.cacheKey, y.cacheKey, z.cacheKey);
      ChainTransitive(x.version, y.version, z.version);
    }
    forall x: Record, y: Record | x.cacheKey != y.cacheKey ensures RecordLess(x, y) || RecordLess(y, x) {
      LessTotal(x.cacheKey, y.cacheKey);
    }
  }

  /** On success the records come in the order of their keys, one for each. */
  lemma RecordsOrdered(env: Env, input: seq<Record>, now: int, i: nat, j: nat)
    requires NormalForm(RecordScheme(env, now), input).Normal?
    requires i < j < |NormalForm(RecordScheme(env, now), input).items|
    ensures Less(NormalForm(RecordScheme(env, now), input).items[i].cacheKey, NormalForm(RecordScheme(env, now), input).items[j].cacheKey)
  {
    RecordsLawful(env, now);
    NormalFormMeaning(RecordScheme(env, now), input);
    var items := NormalForm(RecordScheme(env, now), input).items;
    assert RecordKey(items[i]) != RecordKey(items[j]);
  }

  method NormalizePolicyCacheRecords(env: Env, input: seq<Record>, now: int) returns (r: Outcome<Record>)
    ensures r == NormalForm(RecordScheme(env, now), input)
  {
    if input == [] {
      return Normal([]);
    }
    RecordsLawful(env, now);
    r := Normalize(RecordScheme(env, now), input);
  }

  lemma FirstOfTwo(env: Env, x: Record, y: Record, now: int)
    requires NormalizeRecord(env, x, now).Some? && NormalizeRecord(env, y, now).Some?
    requires var n, m := NormalizeRecord(env, x, now).value, NormalizeRecord(env, y, now).value;
      n.cacheKey == m.cacheKey && n.version == m.version && n.document.sha256 == m.document.sha256
    ensures NormalForm(RecordScheme(env, now), [x, y]) == Normal([NormalizeRecord(env, x, now).value])
  {
    var sch, n := RecordScheme(env, now), NormalizeRecord(env, x, now).value;
    assert [x, y][..1] == [x] && [x][..0] == [];
    assert Kept(sch, []) == Normal([]);
    assert Lookup(sch.key, [], sch.key(n)) == None;
    assert Kept(sch, [x]) == Normal([n]);
    assert Lookup(sch.key, [n], sch.key(n)) == Some(n);
    assert Kept(sch, [x, y]) == Normal([n]);
    assert SortBy(sch.less, [n]) == [n];
  }

  /** A list of records that normalises does so to one result in every order if and only if no two
      of its records share a key and differ in their normal forms. */
  lemma OrderIrrelevantIff(env: Env, records: seq<Record>, now: int)
    requires NormalForm(RecordScheme(env, now), records).Normal?
    ensures SameInEveryOrder(RecordScheme(env, now), records) <==> OneNormalFormPerKey(RecordScheme(env, now), records)
  {
    RecordsLawful(env, now);
    EveryOrderIff(RecordScheme(env, now), records);
  }

  /** The order does matter: a record with a version and the same record loaded a second later share
      a key and agree, and whichever comes first is kept. */
  lemma OrderMatters(env: Env, r: Record, now: int)
    requires NormalizeRecord(env, r, now).Some? && Trim(r.version) != ""
    ensures var later := r.(loadedAt := r.loadedAt + 1);
      && NormalForm(RecordScheme(env, now), [r, later]).Normal?
      && NormalForm(RecordScheme(env, now), [later, r]).Normal?
      && NormalForm(RecordScheme(env, now), [r, later]) != NormalForm(RecordScheme(env, now), [later, r])
  {
    var later := r.(loadedAt := r.loadedAt + 1);
    FirstOfTwo(env, r, later, now);
    FirstOfTwo(env, later, r, now);
    var n, m := NormalizeRecord(env, r, now).value, NormalizeRecord(env, later, now).value;
    assert n.loadedAt != m.loadedAt;
    assert [n][0] != [m][0];
  }
}
