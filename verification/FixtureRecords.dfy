/** The leaf records of the fixture commitment chain: what each record commits to, when it is
    valid, and that its preimage determines it.  (internal/authz/policy_snapshot.go,
    policy_artifact.go, policy_export_record.go, policy_export_check.go,
    policy_release_record.go, policy_release_review.go, policy_marker_record.go) */
module FixtureRecords {

  import opened Text
  import opened Sorting
  import opened AccessModes
  import opened PolicyInput

  /** The URL library and the digest. */
  datatype Env = Env(lib: Library, digest: Digest)

  predicate ValidText(s: string, maxLength: nat) {
    s != "" && Utf8Length(s) <= maxLength && NoControl(s)
  }

  // ---------------------------------------------------------------- snapshots

  datatype Snapshot = Snapshot(
    schemaVersion: string,
    family: string,
    fixtureName: string,
    requestHash: string,
    policyHash: string,
    targetUri: string,
    modes: seq<string>,
    decision: string,
    reason: string,
    documentCount: int,
    fixtureOnly: bool,
    snapshotHash: string)

  predicate ValidFamily(family: string) {
    family == "wac" || family == "acp" || family == "sai"
  }

  predicate ReasonMatches(decision: string, reason: string) {
    if decision == "allow" then reason == "policy_allow"
    else if decision == "deny" then reason == "policy_deny"
    else if decision == "abstain" then reason == "kernel_abstain_shadow_mode" || reason == "policy_not_loaded"
    else false
  }

  lemma DecisionPlain(decision: string, reason: string)
    requires ReasonMatches(decision, reason)
    ensures Plain(decision) && Plain(reason)
  {
    if reason == "kernel_abstain_shadow_mode" {
      assert Plain("kernel_abstain_shadow_mode");
    }
  }

  function SnapshotFields(s: Snapshot): seq<string> {
    [s.family, s.fixtureName, s.requestHash, s.policyHash, s.targetUri, s.decision, s.reason,
     PaddedInt(s.documentCount, 10)]
  }

  function SnapshotParts(s: Snapshot, modes: seq<string>): seq<string> {
    SnapshotFields(s) + modes
  }

  function SnapshotPreimage(s: Snapshot): string {
    match NormalModes(s.modes)
    case None => ""
    case Some(modes) => Join([s.schemaVersion] + SnapshotParts(s, modes))
  }

  function SnapshotHash(env: Env, s: Snapshot): string {
    if NormalModes(s.modes).None? then "" else env.digest(SnapshotPreimage(s))
  }

  predicate ValidSnapshot(env: Env, s: Snapshot) {
    && s.schemaVersion == "policy.fixture.snapshot.v1"
    && ValidFamily(s.family)
    && ValidText(s.fixtureName, 128)
    && ValidSha256Hex(s.requestHash) && ValidSha256Hex(s.policyHash) && ValidSha256Hex(s.snapshotHash)
    && ValidResourceUri(env.lib, s.targetUri)
    && NormalModes(s.modes).Some? && s.modes != []
    && ReasonMatches(s.decision, s.reason)
    && s.documentCount > 0
    && s.fixtureOnly
    && SnapshotHash(env, s) == s.snapshotHash
  }

  lemma NormalModesPlain(modes: seq<string>)
    requires NormalModes(modes).Some?
    ensures AllPlain(NormalModes(modes).value)
  {
    var normal := NormalModes(modes).value;
    SortMultiset(ModeLess, modes);
    SameElements(normal, modes);
    forall i | 0 <= i < |normal| ensures Plain(normal[i]) {
      assert normal[i] in modes;
      ValidModePlain(normal[i]);
    }
  }

  lemma FamilyPlain(family: string)
    requires ValidFamily(family)
    ensures Plain(family)
  {
  }

  lemma SnapshotFieldsPlain(env: Env, s: Snapshot)
    requires ValidSnapshot(env, s)
    ensures AllPlain(SnapshotFields(s))
  {
    FamilyPlain(s.family);
    NoControlIsPlain(s.fixtureName);
    NoControlIsPlain(s.targetUri);
    HexPlain(s.requestHash);
    HexPlain(s.policyHash);
    DecisionPlain(s.decision, s.reason);
    PaddedValue(s.documentCount, 10);
  }

  lemma SnapshotPartsPlain(env: Env, s: Snapshot)
    requires ValidSnapshot(env, s)
    ensures AllPlain(SnapshotParts(s, NormalModes(s.modes).value))
  {
    NormalModesPlain(s.modes);
    SnapshotFieldsPlain(env, s);
    AllPlainAppend(SnapshotFields(s), NormalModes(s.modes).value);
  }

  /** The same snapshot, the order of its modes aside. */
  ghost predicate SameSnapshot(a: Snapshot, b: Snapshot) {
    && a.(modes := []) == b.(modes := [])
    && multiset(a.modes) == multiset(b.modes)
  }

  /** The preimage of a valid snapshot determines it up to the order of its modes. */
  lemma SnapshotDetermined(env: Env, a: Snapshot, b: Snapshot)
    requires ValidSnapshot(env, a) && ValidSnapshot(env, b)
    requires SnapshotPreimage(a) == SnapshotPreimage(b)
    ensures SameSnapshot(a, b)
  {
    var x, y := SnapshotParts(a, NormalModes(a.modes).value), SnapshotParts(b, NormalModes(b.modes).value);
    SnapshotPartsPlain(env, a);
    SnapshotPartsPlain(env, b);
    JoinDetermines(a.schemaVersion, x, y);
    assert x[0] == y[0] && x[1] == y[1] && x[2] == y[2] && x[3] == y[3];
    assert x[4] == y[4] && x[5] == y[5] && x[6] == y[6] && x[7] == y[7];
    PaddedInjective(a.documentCount, b.documentCount, 10);
    assert NormalModes(a.modes).value == x[8..] && NormalModes(b.modes).value == y[8..];
    NormalModesForgetOrder(a.modes, b.modes);
  }

  // ---------------------------------------------------------------- artifact records

  datatype Artifact = Artifact(
    schemaVersion: string,
    kind: string,
    artifactHash: string,
    createdAt: int,
    expiresAt: int,
    keepReason: string,
    fixtureOnly: bool,
    recordHash: string)

  function ArtifactParts(r: Artifact): seq<string> {
    [r.kind, r.artifactHash, PaddedInt(r.createdAt, 20), PaddedInt(r.expiresAt, 20), r.keepReason]
  }

  function ArtifactPreimage(r: Artifact): string {
    Join([r.schemaVersion] + ArtifactParts(r))
  }

  predicate ValidArtifact(env: Env, r: Artifact) {
    && r.schemaVersion == "policy.fixture.artifact.v1"
    && (r.kind == "bundle" || r.kind == "manifest")
    && ValidSha256Hex(r.artifactHash) && ValidSha256Hex(r.recordHash)
    && r.createdAt >= 0 && r.expiresAt >= 0 && !(r.expiresAt > 0 && r.expiresAt < r.createdAt)
    && ValidText(r.keepReason, 128)
    && r.fixtureOnly
    && env.digest(ArtifactPreimage(r)) == r.recordHash
  }

  lemma ArtifactPartsPlain(env: Env, r: Artifact)
    requires ValidArtifact(env, r)
    ensures AllPlain(ArtifactParts(r))
  {
    HexPlain(r.artifactHash);
    NoControlIsPlain(r.keepReason);
    PaddedValue(r.createdAt, 20);
    PaddedValue(r.expiresAt, 20);
  }

  lemma ArtifactDetermined(env: Env, a: Artifact, b: Artifact)
    requires ValidArtifact(env, a) && ValidArtifact(env, b)
    requires ArtifactPreimage(a) == ArtifactPreimage(b)
    ensures a == b
  {
    ArtifactPartsPlain(env, a);
    ArtifactPartsPlain(env, b);
    JoinDetermines(a.schemaVersion, ArtifactParts(a), ArtifactParts(b));
    PaddedInjective(a.createdAt, b.createdAt, 20);
    PaddedInjective(a.expiresAt, b.expiresAt, 20);
  }

  // ---------------------------------------------------------------- export records

  datatype Export = Export(
    schemaVersion: string,
    kind: string,
    name: string,
    sourceHash: string,
    createdAt: int,
    byteCount: int,
    fixtureOnly: bool,
    exportHash: string)

  predicate ValidExportName(name: string) {
    && name != "" && Utf8Length(name) <= 160
    && (forall i :: 0 <= i < |name| - 1 ==> !(name[i] == '.' && name[i + 1] == '.'))
    && name[0] != '/'
    && NoControl(name)
  }

  function ExportParts(r: Export): seq<string> {
    [r.kind, r.name, r.sourceHash, PaddedInt(r.createdAt, 20), PaddedInt(r.byteCount, 20)]
  }

  function ExportPreimage(r: Export): string {
    Join([r.schemaVersion] + ExportParts(r))
  }

  predicate ValidExport(env: Env, r: Export) {
    && r.schemaVersion == "policy.fixture.export.v1"
    && (r.kind == "bundle" || r.kind == "manifest" || r.kind == "catalog")
    && ValidExportName(r.name) && ValidSha256Hex(r.sourceHash) && ValidSha256Hex(r.exportHash)
    && r.createdAt >= 0 && r.byteCount >= 0 && r.fixtureOnly
    && env.digest(ExportPreimage(r)) == r.exportHash
  }

  lemma ExportPartsPlain(env: Env, r: Export)
    requires ValidExport(env, r)
    ensures AllPlain(ExportParts(r))
  {
    HexPlain(r.sourceHash);
    NoControlIsPlain(r.name);
    PaddedValue(r.createdAt, 20);
    PaddedValue(r.byteCount, 20);
  }

  lemma ExportDetermined(env: Env, a: Export, b: Export)
    requires ValidExport(env, a) && ValidExport(env, b)
    requires ExportPreimage(a) == ExportPreimage(b)
    ensures a == b
  {
    ExportPartsPlain(env, a);
    ExportPartsPlain(env, b);
    JoinDetermines(a.schemaVersion, ExportParts(a), ExportParts(b));
    PaddedInjective(a.createdAt, b.createdAt, 20);
    PaddedInjective(a.byteCount, b.byteCount, 20);
  }

  // ---------------------------------------------------------------- checks and reviews

  /** An export check of an index, or a release review of a ledger: the two records have one
      shape and differ in the schema version they carry. */
  datatype Review = Review(
    schemaVersion: string,
    status: string,
    subjectHash: string,
    recordCount: int,
    checkedAt: int,
    fixtureOnly: bool,
    reviewHash: string)

  function ReviewParts(r: Review): seq<string> {
    [r.status, r.subjectHash, PaddedInt(r.recordCount, 20), PaddedInt(r.checkedAt, 20)]
  }

  function ReviewPreimage(r: Review): string {
    Join([r.schemaVersion] + ReviewParts(r))
  }

  predicate ValidReview(env: Env, r: Review, schemaVersion: string) {
    && r.schemaVersion == schemaVersion && r.fixtureOnly
    && (r.status == "ok" || r.status == "failed")
    && ValidSha256Hex(r.subjectHash) && ValidSha256Hex(r.reviewHash) && r.recordCount >= 0 && r.checkedAt >= 0
    && env.digest(ReviewPreimage(r)) == r.reviewHash
  }

  const EXPORT_CHECK_SCHEMA := "policy.fixture.export_check.v1"
  const RELEASE_REVIEW_SCHEMA := "policy.fixture.release_review.v1"

  lemma StatusPlain(status: string)
    requires status == "ok" || status == "failed"
    ensures Plain(status)
  {
  }

  lemma ReviewPartsPlain(env: Env, r: Review, schemaVersion: string)
    requires ValidReview(env, r, schemaVersion)
    ensures AllPlain(ReviewParts(r))
  {
    StatusPlain(r.status);
    HexPlain(r.subjectHash);
    PaddedValue(r.recordCount, 20);
    PaddedValue(r.checkedAt, 20);
  }

  lemma ReviewDetermined(env: Env, a: Review, b: Review, schemaVersion: string)
    requires ValidReview(env, a, schemaVersion) && ValidReview(env, b, schemaVersion)
    requires ReviewPreimage(a) == ReviewPreimage(b)
    ensures a == b
  {
    ReviewPartsPlain(env, a, schemaVersion);
    ReviewPartsPlain(env, b, schemaVersion);
    JoinDetermines(a.schemaVersion, ReviewParts(a), ReviewParts(b));
    PaddedInjective(a.recordCount, b.recordCount, 20);
    PaddedInjective(a.checkedAt, b.checkedAt, 20);
  }

  // ---------------------------------------------------------------- release records

  datatype Release = Release(
    schemaVersion: string,
    bundleHash: string,
    manifestHash: string,
    catalogHash: string,
    exportIndexHash: string,
    exportCheckHash: string,
    createdAt: int,
    fixtureOnly: bool,
    releaseHash: string)

  function ReleaseParts(r: Release): seq<string> {
    [r.bundleHash, r.manifestHash, r.catalogHash, r.exportIndexHash, r.exportCheckHash, PaddedInt(r.createdAt, 20)]
  }

  function ReleasePreimage(r: Release): string {
    Join([r.schemaVersion] + ReleaseParts(r))
  }

  predicate ValidRelease(env: Env, r: Release) {
    && r.schemaVersion == "policy.fixture.release.v1" && r.fixtureOnly
    && ValidSha256Hex(r.bundleHash) && ValidSha256Hex(r.manifestHash) && ValidSha256Hex(r.catalogHash)
    && ValidSha256Hex(r.exportIndexHash) && ValidSha256Hex(r.exportCheckHash) && ValidSha256Hex(r.releaseHash)
    && r.createdAt >= 0
    && env.digest(ReleasePreimage(r)) == r.releaseHash
  }

  lemma ReleasePartsPlain(env: Env, r: Release)
    requires ValidRelease(env, r)
    ensures AllPlain(ReleaseParts(r))
  {
    HexPlain(r.bundleHash);
    HexPlain(r.manifestHash);
    HexPlain(r.catalogHash);
    HexPlain(r.exportIndexHash);
    HexPlain(r.exportCheckHash);
    PaddedValue(r.createdAt, 20);
  }

  lemma ReleaseDetermined(env: Env, a: Release, b: Release)
    requires ValidRelease(env, a) && ValidRelease(env, b)
    requires ReleasePreimage(a) == ReleasePreimage(b)
    ensures a == b
  {
    ReleasePartsPlain(env, a);
    ReleasePartsPlain(env, b);
    JoinDetermines(a.schemaVersion, ReleaseParts(a), ReleaseParts(b));
    PaddedInjective(a.createdAt, b.createdAt, 20);
  }

  // ---------------------------------------------------------------- marker records

  datatype Marker = Marker(
    schemaVersion: string,
    releaseHash: string,
    ledgerHash: string,
    reviewHash: string,
    tag: string,
    createdAt: int,
    fixtureOnly: bool,
    markerHash: string)

  function MarkerParts(r: Marker): seq<string> {
    [r.releaseHash, r.ledgerHash, r.reviewHash, r.tag, PaddedInt(r.createdAt, 20)]
  }

  function MarkerPreimage(r: Marker): string {
    Join([r.schemaVersion] + MarkerParts(r))
  }

  predicate ValidMarker(env: Env, r: Marker) {
    && r.schemaVersion == "policy.fixture.marker.v1" && r.fixtureOnly
    && ValidSha256Hex(r.releaseHash) && ValidSha256Hex(r.ledgerHash)
    && ValidSha256Hex(r.reviewHash) && ValidSha256Hex(r.markerHash)
    && ValidText(r.tag, 128) && r.createdAt >= 0
    && env.digest(MarkerPreimage(r)) == r.markerHash
  }

  lemma MarkerPartsPlain(env: Env, r: Marker)
    requires ValidMarker(env, r)
    ensures AllPlain(MarkerParts(r))
  {
    HexPlain(r.releaseHash);
    HexPlain(r.ledgerHash);
    HexPlain(r.reviewHash);
    NoControlIsPlain(r.tag);
    PaddedValue(r.createdAt, 20);
  }

  lemma MarkerDetermined(env: Env, a: Marker, b: Marker)
    requires ValidMarker(env, a) && ValidMarker(env, b)
    requires MarkerPreimage(a) == MarkerPreimage(b)
    ensures a == b
  {
    MarkerPartsPlain(env, a);
    MarkerPartsPlain(env, b);
    JoinDetermines(a.schemaVersion, MarkerParts(a), MarkerParts(b));
    PaddedInjective(a.createdAt, b.createdAt, 20);
  }
}
