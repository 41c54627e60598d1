/** What the hashes of the fixture chain commit to: collections, bundles, manifests, and the
    release and marker records built from them.  (internal/authz/policy_bundle.go,
    policy_artifact.go, policy_export_index.go, policy_release_record.go,
    policy_release_ledger.go, policy_marker_record.go, policy_marker_log.go) */
module FixtureCommitments {

  import opened Wrappers
  import opened Text
  import opened Sorting
  import opened Normalization
  import opened PolicyInput
  import opened FixtureRecords
  import opened FixtureChain

  // ---------------------------------------------------------------- collections

  /** A catalog, an export index, a release ledger or a marker log. */
  datatype Collection<T> = Collection(schemaVersion: string, records: seq<T>, fixtureOnly: bool, hash: string)

  function Hashes<T>(hashOf: T -> string, items: seq<T>): (hs: seq<string>)
    ensures |hs| == |items|
    ensures forall i :: 0 <= i < |items| ==> hs[i] == hashOf(items[i])
  {
    if items == [] then [] else [hashOf(items[0])] + Hashes(hashOf, items[1..])
  }

  function CollectionPreimage<T>(sch: Scheme<T>, hashOf: T -> string, c: Collection<T>): string {
    match NormalForm(sch, c.records)
    case Normal(items) => Join([c.schemaVersion] + Hashes(hashOf, items))
    case _ => ""
  }

  predicate ValidCollection<T(==)>(digest: Digest, sch: Scheme<T>, hashOf: T -> string, schemaVersion: string, c: Collection<T>) {
    && c.schemaVersion == schemaVersion && c.fixtureOnly
    && c.records != []
    && NormalForm(sch, c.records).Normal?
    && ValidSha256Hex(c.hash)
    && digest(CollectionPreimage(sch, hashOf, c)) == c.hash
  }

  /** The normalised records. */
  function Items<T>(sch: Scheme<T>, c: Collection<T>): seq<T>
    requires NormalForm(sch, c.records).Normal?
  {
    NormalForm(sch, c.records).items
  }

  lemma ItemsAreRecords<T(!new)>(sch: Scheme<T>, records: seq<T>)
    requires Lawful(sch) && Checks(sch) && NormalForm(sch, records).Normal?
    ensures forall i :: 0 <= i < |NormalForm(sch, records).items| ==>
      NormalForm(sch, records).items[i] in records && sch.norm(NormalForm(sch, records).items[i]).Some?
    ensures records != [] ==> NormalForm(sch, records).items != []
  {
    NormalFormMeaning(sch, records);
    var items := NormalForm(sch, records).items;
    forall i | 0 <= i < |items| ensures items[i] in records && sch.norm(items[i]).Some? {
      assert items[i] in items;
      var x :| x in records && sch.norm(x) == Some(items[i]);
    }
    if records != [] {
      assert HasRepresentative(sch, items, sch.norm(records[0]).value);
    }
  }

  /** Valid collections with one hash have the same list of record hashes. */
  lemma CollectionCommits<T(!new)>(digest: Digest, sch: Scheme<T>, hashOf: T -> string, schemaVersion: string,
    a: Collection<T>, b: Collection<T>)
    requires Lawful(sch) && Checks(sch)
    requires forall x :: sch.norm(x).Some? ==> Plain(hashOf(x))
    requires ValidCollection(digest, sch, hashOf, schemaVersion, a) && ValidCollection(digest, sch, hashOf, schemaVersion, b)
    requires a.hash == b.hash
    requires Apart(digest, CollectionPreimage(sch, hashOf, a), CollectionPreimage(sch, hashOf, b))
    ensures Hashes(hashOf, Items(sch, a)) == Hashes(hashOf, Items(sch, b))
  {
    ItemsAreRecords(sch, a.records);
    ItemsAreRecords(sch, b.records);
    JoinDetermines(schemaVersion, Hashes(hashOf, Items(sch, a)), Hashes(hashOf, Items(sch, b)));
  }

  /** A list is determined by its hashes when elements are. */
  lemma ItemsEqual<T>(hashOf: T -> string, a: seq<T>, b: seq<T>)
    requires Hashes(hashOf, a) == Hashes(hashOf, b)
    requires forall x, y :: x in a && y in b && hashOf(x) == hashOf(y) ==> x == y
    ensures a == b
  {
    forall i | 0 <= i < |a| ensures i < |b| && a[i] == b[i] {
      assert Hashes(hashOf, a)[i] == Hashes(hashOf, b)[i];
    }
  }

  /** The texts digested for a collection and its records. */
  ghost function CollectionTexts<T>(sch: Scheme<T>, hashOf: T -> string, preimageOf: T -> string, c: Collection<T>): set<string>
  {
    {CollectionPreimage(sch, hashOf, c)} + (set r | r in c.records :: preimageOf(r))
  }

  /** Every valid record carries the digest of its preimage, and the preimage determines it. */
  ghost predicate Sealed<T(!new)>(digest: Digest, sch: Scheme<T>, hashOf: T -> string, preimageOf: T -> string) {
    && (forall x :: sch.norm(x).Some? ==> Plain(hashOf(x)) && digest(preimageOf(x)) == hashOf(x))
    && (forall x, y :: sch.norm(x).Some? && sch.norm(y).Some? && preimageOf(x) == preimageOf(y) ==> x == y)
  }

  /** Valid collections with one hash have the same records. */
  lemma CollectionDetermines<T(!new)>(digest: Digest, texts: set<string>, sch: Scheme<T>, hashOf: T -> string,
    preimageOf: T -> string, schemaVersion: string, a: Collection<T>, b: Collection<T>)
    requires Lawful(sch) && Checks(sch) && Sealed(digest, sch, hashOf, preimageOf)
    requires ValidCollection(digest, sch, hashOf, schemaVersion, a) && ValidCollection(digest, sch, hashOf, schemaVersion, b)
    requires a.hash == b.hash
    requires Collisionless(digest, texts)
    requires CollectionTexts(sch, hashOf, preimageOf, a) <= texts && CollectionTexts(sch, hashOf, preimageOf, b) <= texts
    ensures Items(sch, a) == Items(sch, b)
  {
    CollectionCommits(digest, sch, hashOf, schemaVersion, a, b);
    ItemsAreRecords(sch, a.records);
    ItemsAreRecords(sch, b.records);
    forall x, y | x in Items(sch, a) && y in Items(sch, b) && hashOf(x) == hashOf(y) ensures x == y {
      Digests(digest, texts, preimageOf(x), preimageOf(y));
    }
    ItemsEqual(hashOf, Items(sch, a), Items(sch, b));
  }

  // ---------------------------------------------------------------- catalog and export index

  type Catalog = Collection<Artifact>
  type ExportIndex = Collection<Export>

  function ArtifactHashOf(r: Artifact): string { r.recordHash }
  function ExportHashOf(r: Export): string { r.exportHash }
  function ReleaseHashOf(r: Release): string { r.releaseHash }
  function MarkerHashOf(r: Marker): string { r.markerHash }

  predicate ValidCatalog(env: Env, c: Catalog) {
    ValidCollection(env.digest, ArtifactScheme(env), ArtifactHashOf, "policy.fixture.artifact_catalog.v1", c)
  }

  predicate ValidIndex(env: Env, c: ExportIndex) {
    ValidCollection(env.digest, ExportScheme(env), ExportHashOf, "policy.fixture.export_index.v1", c)
  }

  ghost function CatalogTexts(env: Env, c: Catalog): set<string> {
    CollectionTexts(ArtifactScheme(env), ArtifactHashOf, ArtifactPreimage, c)
  }

  ghost function IndexTexts(env: Env, c: ExportIndex): set<string> {
    CollectionTexts(ExportScheme(env), ExportHashOf, ExportPreimage, c)
  }

  lemma HashesPlain()
    ensures forall s :: ValidSha256Hex(s) ==> Plain(s)
  {
    forall s | ValidSha256Hex(s) ensures Plain(s) { HexPlain(s); }
  }

  lemma ArtifactsSealed(env: Env)
    ensures Sealed(env.digest, ArtifactScheme(env), ArtifactHashOf, ArtifactPreimage)
  {
    HashesPlain();
    forall x, y | ValidArtifact(env, x) && ValidArtifact(env, y) && ArtifactPreimage(x) == ArtifactPreimage(y) ensures x == y {
      ArtifactDetermined(env, x, y);
    }
  }

  lemma CatalogCommits(env: Env, texts: set<string>, a: Catalog, b: Catalog)
    requires ValidCatalog(env, a) && ValidCatalog(env, b) && a.hash == b.hash
    requires Collisionless(env.digest, texts) && CatalogTexts(env, a) <= texts && CatalogTexts(env, b) <= texts
    ensures Items(ArtifactScheme(env), a) == Items(ArtifactScheme(env), b)
  {
    ArtifactsLawful(env);
    ArtifactsSealed(env);
    CollectionDetermines(env.digest, texts, ArtifactScheme(env), ArtifactHashOf, ArtifactPreimage, a.schemaVersion, a, b);
  }

  lemma ExportsSealed(env: Env)
    ensures Sealed(env.digest, ExportScheme(env), ExportHashOf, ExportPreimage)
  {
    HashesPlain();
    forall x, y | ValidExport(env, x) && ValidExport(env, y) && ExportPreimage(x) == ExportPreimage(y) ensures x == y {
      ExportDetermined(env, x, y);
    }
  }

  lemma IndexCommits(env: Env, texts: set<string>, a: ExportIndex, b: ExportIndex)
    requires ValidIndex(env, a) && ValidIndex(env, b) && a.hash == b.hash
    requires Collisionless(env.digest, texts) && IndexTexts(env, a) <= texts && IndexTexts(env, b) <= texts
    ensures Items(ExportScheme(env), a) == Items(ExportScheme(env), b)
  {
    ExportsLawful(env);
    ExportsSealed(env);
    CollectionDetermines(env.digest, texts, ExportScheme(env), ExportHashOf, ExportPreimage, a.schemaVersion, a, b);
  }

  // ---------------------------------------------------------------- bundles and manifests

  function FamilyCount(items: seq<Snapshot>, family: string): nat {
    if items == [] then 0 else (if items[0].family == family then 1 else 0) + FamilyCount(items[1..], family)
  }

  function DecisionCount(items: seq<Snapshot>, decision: string): nat {
    if items == [] then 0 else (if items[0].decision == decision then 1 else 0) + DecisionCount(items[1..], decision)
  }

  function ModeCount(items: seq<Snapshot>, mode: string): nat {
    if items == [] then 0 else (if mode in items[0].modes then 1 else 0) + ModeCount(items[1..], mode)
  }

  function CountParts(title: string, names: seq<string>, count: string -> nat): seq<string> {
    if names == [] then []
    else
      (if count(names[0]) > 0 then [title, names[0], PaddedInt(count(names[0]), 10)] else [])
        + CountParts(title, names[1..], count)
  }

  /** The rolled-up counts, families and decisions in the order of their names, modes by rank. */
  function SummaryParts(items: seq<Snapshot>): seq<string> {
    [PaddedInt(|items|, 10)]
    + CountParts("family", ["acp", "sai", "wac"], f => FamilyCount(items, f))
    + CountParts("decision", ["abstain", "allow", "deny"], d => DecisionCount(items, d))
    + CountParts("mode", ["read", "append", "write", "control"], m => ModeCount(items, m))
  }

  function SummaryText(items: seq<Snapshot>): string {
    Join(["policy.fixture.summary.v1"] + SummaryParts(items))
  }

  function SummaryHash(env: Env, items: seq<Snapshot>): string {
    env.digest(SummaryText(items))
  }

  /** The counts of a summary add up: every snapshot has one family and one decision. */
  lemma {:induction false} SummaryConserves(env: Env, items: seq<Snapshot>)
    requires forall i :: 0 <= i < |items| ==> ValidSnapshot(env, items[i])
    ensures FamilyCount(items, "acp") + FamilyCount(items, "sai") + FamilyCount(items, "wac") == |items|
    ensures DecisionCount(items, "abstain") + DecisionCount(items, "allow") + DecisionCount(items, "deny") == |items|
  {
    if items == [] {
    } else {
      SummaryConserves(env, items[1..]);
    }
  }

  datatype Bundle = Bundle(
    schemaVersion: string,
    snapshots: seq<Snapshot>,
    summaryHash: string,
    summaryCount: int,
    fixtureOnly: bool,
    bundleHash: string)

  function SnapshotHashOf(s: Snapshot): string { s.snapshotHash }

  function BundlePreimage(env: Env, b: Bundle): string {
    match NormalForm(SnapshotScheme(env), b.snapshots)
    case Normal(items) => Join([b.schemaVersion, b.summaryHash] + Hashes(SnapshotHashOf, items))
    case _ => ""
  }

  predicate ValidBundle(env: Env, b: Bundle) {
    var r := NormalForm(SnapshotScheme(env), b.snapshots);
    && b.schemaVersion == "policy.fixture.bundle.v1" && b.fixtureOnly
    && r.Normal? && r.items != []
    && ValidSha256Hex(b.summaryHash)
    && b.summaryHash == SummaryHash(env, r.items) && b.summaryCount == |r.items|
    && ValidSha256Hex(b.bundleHash)
    && env.digest(BundlePreimage(env, b)) == b.bundleHash
  }

  function BundleItems(env: Env, b: Bundle): seq<Snapshot>
    requires NormalForm(SnapshotScheme(env), b.snapshots).Normal?
  {
    NormalForm(SnapshotScheme(env), b.snapshots).items
  }

  ghost function BundleTexts(env: Env, b: Bundle): set<string> {
    {BundlePreimage(env, b)} + (set s | s in b.snapshots :: SnapshotPreimage(s))
  }

  /** Pairwise the same snapshots, the order of the modes inside each aside. */
  ghost predicate SameSnapshots(a: seq<Snapshot>, b: seq<Snapshot>) {
    |a| == |b| && forall i :: 0 <= i < |a| ==> SameSnapshot(a[i], b[i])
  }

  lemma BundleItemsValid(env: Env, b: Bundle)
    requires ValidBundle(env, b)
    ensures forall i :: 0 <= i < |BundleItems(env, b)| ==>
      BundleItems(env, b)[i] in b.snapshots && ValidSnapshot(env, BundleItems(env, b)[i])
  {
    SnapshotsLawful(env);
    ItemsAreRecords(SnapshotScheme(env), b.snapshots);
    var items := BundleItems(env, b);
    forall i | 0 <= i < |items| ensures ValidSnapshot(env, items[i]) {
      assert SnapshotScheme(env).norm(items[i]).Some?;
    }
  }

  lemma BundleHashLists(env: Env, a: Bundle, b: Bundle)
    requires ValidBundle(env, a) && ValidBundle(env, b)
    requires BundlePreimage(env, a) == BundlePreimage(env, b)
    ensures Hashes(SnapshotHashOf, BundleItems(env, a)) == Hashes(SnapshotHashOf, BundleItems(env, b))
  {
    BundleItemsValid(env, a);
    BundleItemsValid(env, b);
    BundleHashesEqual(a, b, Hashes(SnapshotHashOf, BundleItems(env, a)), Hashes(SnapshotHashOf, BundleItems(env, b)));
  }

  lemma BundleCommits(env: Env, texts: set<string>, a: Bundle, b: Bundle)
    requires ValidBundle(env, a) && ValidBundle(env, b) && a.bundleHash == b.bundleHash
    requires Collisionless(env.digest, texts) && BundleTexts(env, a) <= texts && BundleTexts(env, b) <= texts
    ensures SameSnapshots(BundleItems(env, a), BundleItems(env, b))
  {
    var x, y := BundleItems(env, a), BundleItems(env, b);
    Digests(env.digest, texts, BundlePreimage(env, a), BundlePreimage(env, b));
    BundleHashLists(env, a, b);
    BundleItemsValid(env, a);
    BundleItemsValid(env, b);
    var hx, hy := Hashes(SnapshotHashOf, x), Hashes(SnapshotHashOf, y);
    forall i | 0 <= i < |x| ensures SameSnapshot(x[i], y[i]) {
      assert hx[i] == hy[i];
      SnapshotsWithOneHash(env, texts, x[i], y[i]);
    }
  }

  lemma AllHexPlain(hashes: seq<string>)
    requires forall i :: 0 <= i < |hashes| ==> ValidSha256Hex(hashes[i])
    ensures AllPlain(hashes)
  {
    forall i | 0 <= i < |hashes| ensures Plain(hashes[i]) {
      HexPlain(hashes[i]);
    }
  }

  lemma BundleHashesEqual(a: Bundle, b: Bundle, x: seq<string>, y: seq<string>)
    requires a.schemaVersion == b.schemaVersion
    requires ValidSha256Hex(a.summaryHash) && ValidSha256Hex(b.summaryHash)
    requires forall i :: 0 <= i < |x| ==> ValidSha256Hex(x[i])
    requires forall i :: 0 <= i < |y| ==> ValidSha256Hex(y[i])
    requires Join([a.schemaVersion, a.summaryHash] + x) == Join([b.schemaVersion, b.summaryHash] + y)
    ensures x == y
  {
    var p, q := [a.summaryHash] + x, [b.summaryHash] + y;
    assert [a.schemaVersion, a.summaryHash] + x == [a.schemaVersion] + p;
    assert [b.schemaVersion, b.summaryHash] + y == [b.schemaVersion] + q;
    AllHexPlain(p);
    AllHexPlain(q);
    JoinDetermines(a.schemaVersion, p, q);
    assert x == p[1..] && y == q[1..];
  }

  datatype Manifest = Manifest(
    schemaVersion: string,
    bundleHash: string,
    snapshotHashes: seq<string>,
    summaryHash: string,
    fixtureOnly: bool,
    manifestHash: string)

  function ManifestPreimage(m: Manifest): string {
    Join([m.schemaVersion, m.bundleHash, m.summaryHash] + SortBy(Less, m.snapshotHashes))
  }

  predicate ValidManifest(env: Env, m: Manifest) {
    && m.schemaVersion == "policy.fixture.bundle_manifest.v1" && m.fixtureOnly
    && ValidSha256Hex(m.bundleHash) && ValidSha256Hex(m.summaryHash) && ValidSha256Hex(m.manifestHash)
    && m.snapshotHashes != []
    && (forall i :: 0 <= i < |m.snapshotHashes| ==> ValidSha256Hex(m.snapshotHashes[i]))
    && (forall i, j :: 0 <= i < j < |m.snapshotHashes| ==> m.snapshotHashes[i] != m.snapshotHashes[j])
    && env.digest(ManifestPreimage(m)) == m.manifestHash
  }

  lemma ManifestDetermined(env: Env, a: Manifest, b: Manifest)
    requires ValidManifest(env, a) && ValidManifest(env, b)
    requires ManifestPreimage(a) == ManifestPreimage(b)
    ensures a.bundleHash == b.bundleHash && a.summaryHash == b.summaryHash
    ensures multiset(a.snapshotHashes) == multiset(b.snapshotHashes)
  {
    var sa, sb := SortBy(Less, a.snapshotHashes), SortBy(Less, b.snapshotHashes);
    var p, q := [a.bundleHash, a.summaryHash] + sa, [b.bundleHash, b.summaryHash] + sb;
    SortedHashesPlain(a.snapshotHashes);
    SortedHashesPlain(b.snapshotHashes);
    HashesPlain();
    assert [a.schemaVersion, a.bundleHash, a.summaryHash] + sa == [a.schemaVersion] + p;
    assert [b.schemaVersion, b.bundleHash, b.summaryHash] + sb == [b.schemaVersion] + q;
    JoinDetermines(a.schemaVersion, p, q);
    assert p[0] == q[0] && p[1] == q[1] && sa == p[2..] && sb == q[2..];
    SortMultiset(Less, a.snapshotHashes);
    SortMultiset(Less, b.snapshotHashes);
  }

  lemma SortedHashesPlain(hashes: seq<string>)
    requires forall i :: 0 <= i < |hashes| ==> ValidSha256Hex(hashes[i])
    ensures AllPlain(SortBy(Less, hashes))
  {
    var s := SortBy(Less, hashes);
    SortMultiset(Less, hashes);
    SameElements(s, hashes);
    forall i | 0 <= i < |s| ensures Plain(s[i]) {
      assert s[i] in hashes;
      HexPlain(s[i]);
    }
  }

  // ---------------------------------------------------------------- releases

  datatype ReleaseInput = ReleaseInput(
    bundle: Bundle,
    manifest: Manifest,
    catalog: Catalog,
    index: ExportIndex,
    check: Review,
    createdAt: int)

  predicate CatalogHas(env: Env, c: Catalog, kind: string, artifactHash: string) {
    var r := NormalForm(ArtifactScheme(env), c.records);
    r.Normal? && exists i :: 0 <= i < |r.items| && r.items[i].kind == kind && r.items[i].artifactHash == artifactHash
  }

  function ReleaseFor(env: Env, input: ReleaseInput): Option<Release> {
    if || input.createdAt < 0
       || !ValidBundle(env, input.bundle) || !ValidManifest(env, input.manifest)
       || !ValidCatalog(env, input.catalog) || !ValidIndex(env, input.index)
       || !ValidReview(env, input.check, EXPORT_CHECK_SCHEMA)
       || input.manifest.bundleHash != input.bundle.bundleHash
       || input.check.subjectHash != input.index.hash || input.check.status != "ok"
       || !CatalogHas(env, input.catalog, "bundle", input.bundle.bundleHash)
       || !CatalogHas(env, input.catalog, "manifest", input.manifest.manifestHash)
    then None
    else
      var r := Release("policy.fixture.release.v1", input.bundle.bundleHash, input.manifest.manifestHash,
                       input.catalog.hash, input.index.hash, input.check.reviewHash, input.createdAt, true, "");
      var sealed := r.(releaseHash := env.digest(ReleasePreimage(r)));
      if ValidRelease(env, sealed) then Some(sealed) else None
  }

  /** Every text digested on the way to a release. */
  ghost function ReleaseTexts(env: Env, input: ReleaseInput): set<string> {
    BundleTexts(env, input.bundle) + {ManifestPreimage(input.manifest), ReviewPreimage(input.check)}
    + CatalogTexts(env, input.catalog) + IndexTexts(env, input.index)
  }

  /** The inputs of two releases agree on everything the chain is about. */
  ghost predicate SameRelease(env: Env, a: ReleaseInput, b: ReleaseInput)
    requires ReleaseFor(env, a).Some? && ReleaseFor(env, b).Some?
  {
    && SameSnapshots(BundleItems(env, a.bundle), BundleItems(env, b.bundle))
    && a.manifest.bundleHash == b.manifest.bundleHash && a.manifest.summaryHash == b.manifest.summaryHash
    && multiset(a.manifest.snapshotHashes) == multiset(b.manifest.snapshotHashes)
    && Items(ArtifactScheme(env), a.catalog) == Items(ArtifactScheme(env), b.catalog)
    && Items(ExportScheme(env), a.index) == Items(ExportScheme(env), b.index)
    && a.check == b.check
    && a.createdAt == b.createdAt
  }

  /** Equal release records come from the same snapshots, manifest, catalog records, export
      records and check. */
  lemma ReleaseCommits(env: Env, texts: set<string>, a: ReleaseInput, b: ReleaseInput)
    requires ReleaseFor(env, a).Some? && ReleaseFor(env, a) == ReleaseFor(env, b)
    requires Collisionless(env.digest, texts) && ReleaseTexts(env, a) <= texts && ReleaseTexts(env, b) <= texts
    ensures SameRelease(env, a, b)
  {
    BundleCommits(env, texts, a.bundle, b.bundle);
    Digests(env.digest, texts, ManifestPreimage(a.manifest), ManifestPreimage(b.manifest));
    ManifestDetermined(env, a.manifest, b.manifest);
    CatalogCommits(env, texts, a.catalog, b.catalog);
    IndexCommits(env, texts, a.index, b.index);
    Digests(env.digest, texts, ReviewPreimage(a.check), ReviewPreimage(b.check));
    ReviewDetermined(env, a.check, b.check, EXPORT_CHECK_SCHEMA);
  }

  // ---------------------------------------------------------------- ledgers and markers

  type Ledger = Collection<Release>

  predicate ValidLedger(env: Env, c: Ledger) {
    ValidCollection(env.digest, ReleaseScheme(env), ReleaseHashOf, "policy.fixture.release_ledger.v1", c)
  }

  ghost function LedgerTexts(env: Env, c: Ledger): set<string> {
    CollectionTexts(ReleaseScheme(env), ReleaseHashOf, ReleasePreimage, c)
  }

  lemma ReleasesSealed(env: Env)
    ensures Sealed(env.digest, ReleaseScheme(env), ReleaseHashOf, ReleasePreimage)
  {
    HashesPlain();
    forall x, y | ValidRelease(env, x) && ValidRelease(env, y) && ReleasePreimage(x) == ReleasePreimage(y) ensures x == y {
      ReleaseDetermined(env, x, y);
    }
  }

  lemma LedgerCommits(env: Env, texts: set<string>, a: Ledger, b: Ledger)
    requires ValidLedger(env, a) && ValidLedger(env, b) && a.hash == b.hash
    requires Collisionless(env.digest, texts) && LedgerTexts(env, a) <= texts && LedgerTexts(env, b) <= texts
    ensures Items(ReleaseScheme(env), a) == Items(ReleaseScheme(env), b)
  {
    ReleasesLawful(env);
    ReleasesSealed(env);
    CollectionDetermines(env.digest, texts, ReleaseScheme(env), ReleaseHashOf, ReleasePreimage, a.schemaVersion, a, b);
  }

  datatype MarkerInput = MarkerInput(release: Release, ledger: Ledger, review: Review, tag: string, createdAt: int)

  predicate LedgerHas(env: Env, c: Ledger, releaseHash: string) {
    var r := NormalForm(ReleaseScheme(env), c.records);
    r.Normal? && exists i :: 0 <= i < |r.items| && r.items[i].releaseHash == releaseHash
  }

  function MarkerTag(tag: string): string {
    if Trim(tag) == "" then "fixture-marker" else Trim(tag)
  }

  function MarkerFor(env: Env, input: MarkerInput): Option<Marker> {
    if || input.createdAt < 0
       || !ValidRelease(env, input.release) || !ValidLedger(env, input.ledger)
       || !ValidReview(env, input.review, RELEASE_REVIEW_SCHEMA)
       || input.review.status != "ok" || input.review.subjectHash != input.ledger.hash
       || !LedgerHas(env, input.ledger, input.release.releaseHash)
    then None
    else
      var m := Marker("policy.fixture.marker.v1", input.release.releaseHash, input.ledger.hash,
                      input.review.reviewHash, MarkerTag(input.tag), input.createdAt, true, "");
      var sealed := m.(markerHash := env.digest(MarkerPreimage(m)));
      if ValidMarker(env, sealed) then Some(sealed) else None
  }

  /** Every text digested on the way to a marker, its release aside. */
  ghost function MarkerTexts(env: Env, input: MarkerInput): set<string> {
    LedgerTexts(env, input.ledger) + {ReleasePreimage(input.release), ReviewPreimage(input.review)}
    + (match MarkerFor(env, input) case Some(m) => {MarkerPreimage(m)} case None => {})
  }

  /** Two markers with one hash mark the same release of the same ledger under the same review. */
  lemma MarkerCommits(env: Env, texts: set<string>, a: MarkerInput, b: MarkerInput)
    requires MarkerFor(env, a).Some? && MarkerFor(env, b).Some?
    requires MarkerFor(env, a).value.markerHash == MarkerFor(env, b).value.markerHash
    requires Collisionless(env.digest, texts) && MarkerTexts(env, a) <= texts && MarkerTexts(env, b) <= texts
    ensures a.release == b.release && a.review == b.review
    ensures MarkerTag(a.tag) == MarkerTag(b.tag) && a.createdAt == b.createdAt
    ensures Items(ReleaseScheme(env), a.ledger) == Items(ReleaseScheme(env), b.ledger)
    ensures a.release in Items(ReleaseScheme(env), a.ledger)
  {
    var m, n := MarkerFor(env, a).value, MarkerFor(env, b).value;
    MarkersWithOneHash(env, texts, m, n);
    ReleasesWithOneHash(env, texts, a.release, b.release);
    LedgerCommits(env, texts, a.ledger, b.ledger);
    Digests(env.digest, texts, ReviewPreimage(a.review), ReviewPreimage(b.review));
    ReviewDetermined(env, a.review, b.review, RELEASE_REVIEW_SCHEMA);
    MarkedReleaseIsLedgered(env, texts, a);
  }

  lemma MarkedReleaseIsLedgered(env: Env, texts: set<string>, input: MarkerInput)
    requires MarkerFor(env, input).Some?
    requires Collisionless(env.digest, texts) && MarkerTexts(env, input) <= texts
    ensures input.release in Items(ReleaseScheme(env), input.ledger)
  {
    var sch := ReleaseScheme(env);
    var items := Items(sch, input.ledger);
    ReleasesLawful(env);
    ItemsAreRecords(sch, input.ledger.records);
    var i :| 0 <= i < |items| && items[i].releaseHash == input.release.releaseHash;
    ReleasesWithOneHash(env, texts, items[i], input.release);
  }

  /** The whole chain: one marker hash, one set of snapshots, catalog records, export records
      and releases. */
  lemma ChainCommits(env: Env, texts: set<string>, ra: ReleaseInput, rb: ReleaseInput, a: MarkerInput, b: MarkerInput)
    requires MarkerFor(env, a).Some? && MarkerFor(env, b).Some?
    requires ReleaseFor(env, ra) == Some(a.release) && ReleaseFor(env, rb) == Some(b.release)
    requires MarkerFor(env, a).value.markerHash == MarkerFor(env, b).value.markerHash
    requires Collisionless(env.digest, texts)
    requires MarkerTexts(env, a) <= texts && MarkerTexts(env, b) <= texts
    requires ReleaseTexts(env, ra) <= texts && ReleaseTexts(env, rb) <= texts
    ensures SameRelease(env, ra, rb)
    ensures Items(ReleaseScheme(env), a.ledger) == Items(ReleaseScheme(env), b.ledger)
  {
    MarkerCommits(env, texts, a, b);
    ReleaseCommits(env, texts, ra, rb);
  }

  // ---------------------------------------------------------------- marker logs

  type MarkerLog = Collection<Marker>

  predicate ValidLog(env: Env, c: MarkerLog) {
    ValidCollection(env.digest, MarkerScheme(env), MarkerHashOf, "policy.fixture.marker_log.v1", c)
  }

  ghost function LogTexts(env: Env, c: MarkerLog): set<string> {
    CollectionTexts(MarkerScheme(env), MarkerHashOf, MarkerPreimage, c)
  }

  lemma MarkersSealed(env: Env)
    ensures Sealed(env.digest, MarkerScheme(env), MarkerHashOf, MarkerPreimage)
  {
    HashesPlain();
    forall x, y | ValidMarker(env, x) && ValidMarker(env, y) && MarkerPreimage(x) == MarkerPreimage(y) ensures x == y {
      MarkerDetermined(env, x, y);
    }
  }

  lemma LogCommits(env: Env, texts: set<string>, a: MarkerLog, b: MarkerLog)
    requires ValidLog(env, a) && ValidLog(env, b) && a.hash == b.hash
    requires Collisionless(env.digest, texts) && LogTexts(env, a) <= texts && LogTexts(env, b) <= texts
    ensures Items(MarkerScheme(env), a) == Items(MarkerScheme(env), b)
  {
    MarkersLawful(env);
    MarkersSealed(env);
    CollectionDetermines(env.digest, texts, MarkerScheme(env), MarkerHashOf, MarkerPreimage, a.schemaVersion, a, b);
  }

  /** A release and the marker put on it. */
  datatype Step = Step(release: ReleaseInput, marker: MarkerInput)

  /** The step leads to the given marker, and all texts digested for it are among `texts`. */
  ghost predicate Marks(env: Env, texts: set<string>, step: Step, marker: Marker) {
    && ReleaseFor(env, step.release) == Some(step.marker.release) && MarkerFor(env, step.marker) == Some(marker)
    && ReleaseTexts(env, step.release) <= texts && MarkerTexts(env, step.marker) <= texts
  }

  ghost predicate AllMark(env: Env, texts: set<string>, steps: seq<Step>, markers: seq<Marker>) {
    |steps| == |markers| && forall i :: 0 <= i < |steps| ==> Marks(env, texts, steps[i], markers[i])
  }

  ghost predicate SameStep(env: Env, a: Step, b: Step) {
    && ReleaseFor(env, a.release).Some? && ReleaseFor(env, b.release).Some?
    && SameRelease(env, a.release, b.release)
    && a.marker.release == b.marker.release
    && NormalForm(ReleaseScheme(env), a.marker.ledger.records) == NormalForm(ReleaseScheme(env), b.marker.ledger.records)
  }

  ghost predicate SameSteps(env: Env, a: seq<Step>, b: seq<Step>) {
    |a| == |b| && forall i :: 0 <= i < |a| ==> SameStep(env, a[i], b[i])
  }

  lemma OneMarkerOneStep(env: Env, texts: set<string>, a: Step, b: Step, marker: Marker)
    requires Collisionless(env.digest, texts)
    requires Marks(env, texts, a, marker) && Marks(env, texts, b, marker)
    ensures SameStep(env, a, b)
  {
    MarkerCommits(env, texts, a.marker, b.marker);
    ChainCommits(env, texts, a.release, b.release, a.marker, b.marker);
  }

  lemma OneListOneHistory(env: Env, texts: set<string>, a: seq<Step>, b: seq<Step>, markers: seq<Marker>)
    requires Collisionless(env.digest, texts)
    requires AllMark(env, texts, a, markers) && AllMark(env, texts, b, markers)
    ensures SameSteps(env, a, b)
  {
    forall i | 0 <= i < |a| ensures SameStep(env, a[i], b[i]) {
      OneMarkerOneStep(env, texts, a[i], b[i], markers[i]);
    }
  }

  /** The chain up to its head: one log hash, one list of markers, and behind each marker one
      release of one ledger with one set of snapshots, catalog records and export records. */
  lemma LogChainCommits(env: Env, texts: set<string>, sa: seq<Step>, sb: seq<Step>, a: MarkerLog, b: MarkerLog)
    requires ValidLog(env, a) && ValidLog(env, b) && a.hash == b.hash
    requires Collisionless(env.digest, texts) && LogTexts(env, a) <= texts && LogTexts(env, b) <= texts
    requires AllMark(env, texts, sa, Items(MarkerScheme(env), a)) && AllMark(env, texts, sb, Items(MarkerScheme(env), b))
    ensures Items(MarkerScheme(env), a) == Items(MarkerScheme(env), b)
    ensures SameSteps(env, sa, sb)
  {
    LogCommits(env, texts, a, b);
    OneListOneHistory(env, texts, sa, sb, Items(MarkerScheme(env), a));
  }
}
