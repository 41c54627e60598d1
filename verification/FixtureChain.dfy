/** The collections of the fixture commitment chain and the chain as a whole: bundle, manifest,
    catalog, export index, release, ledger and marker.  (internal/authz/policy_bundle.go,
    policy_artifact.go, policy_export_index.go, policy_release_record.go,
    policy_release_ledger.go, policy_marker_record.go, policy_marker_log.go) */
module FixtureChain {

  import opened Wrappers
  import opened Text
  import opened Normalization
  import opened PolicyInput
  import opened FixtureRecords

  /** The digest confuses no two of the given texts. */
  ghost predicate Collisionless(digest: Digest, texts: set<string>) {
    forall a, b :: a in texts && b in texts ==> Apart(digest, a, b)
  }

  lemma Digests(digest: Digest, texts: set<string>, a: string, b: string)
    requires Collisionless(digest, texts) && a in texts && b in texts && digest(a) == digest(b)
    ensures a == b
  {
    assert Apart(digest, a, b);
  }

  // ---------------------------------------------------------------- normalisation schemes

  predicate SnapshotLess(a: Snapshot, b: Snapshot) {
    if a.family != b.family then Less(a.family, b.family)
    else if a.fixtureName != b.fixtureName then Less(a.fixtureName, b.fixtureName)
    else Less(a.snapshotHash, b.snapshotHash)
  }

  function SnapshotScheme(env: Env): Scheme<Snapshot> {
    Scheme(
      (s: Snapshot) => if ValidSnapshot(env, s) then Some(s) else None,
      (s: Snapshot) => s.snapshotHash,
      (a: Snapshot, b: Snapshot) => a.requestHash == b.requestHash && a.policyHash == b.policyHash,
      SnapshotLess)
  }

  lemma SnapshotsLawful(env: Env)
    ensures Lawful(SnapshotScheme(env))
  {
    forall x ensures !SnapshotLess(x, x) {
      LessIrreflexive(x.snapshotHash);
    }
    forall x, y, z | SnapshotLess(x, y) && SnapshotLess(y, z) ensures SnapshotLess(x, z) {
      ChainTransitive(x.family, y.family, z.family);
      ChainTransitive(x.fixtureName, y.fixtureName, z.fixtureName);
      ChainTransitive(x.snapshotHash, y.snapshotHash, z.snapshotHash);
    }
    forall x: Snapshot, y: Snapshot | x.snapshotHash != y.snapshotHash ensures SnapshotLess(x, y) || SnapshotLess(y, x) {
      LessTotal(x.family, y.family);
      LessTotal(x.fixtureName, y.fixtureName);
      LessTotal(x.snapshotHash, y.snapshotHash);
    }
  }

  predicate ArtifactLess(a: Artifact, b: Artifact) {
    if a.kind != b.kind then Less(a.kind, b.kind) else Less(a.artifactHash, b.artifactHash)
  }

  function ArtifactScheme(env: Env): Scheme<Artifact> {
    Scheme(
      (r: Artifact) => if ValidArtifact(env, r) then Some(r) else None,
      (r: Artifact) => r.kind + ":" + r.artifactHash,
      (a: Artifact, b: Artifact) => a.recordHash == b.recordHash,
      ArtifactLess)
  }

  lemma ArtifactsLawful(env: Env)
    ensures Lawful(ArtifactScheme(env))
  {
    forall x ensures !ArtifactLess(x, x) {
      LessIrreflexive(x.artifactHash);
    }
    forall x, y, z | ArtifactLess(x, y) && ArtifactLess(y, z) ensures ArtifactLess(x, z) {
      ChainTransitive(x.kind, y.kind, z.kind);
      ChainTransitive(x.artifactHash, y.artifactHash, z.artifactHash);
    }
    forall x: Artifact, y: Artifact | !(x.kind == y.kind && x.artifactHash == y.artifactHash)
      ensures ArtifactLess(x, y) || ArtifactLess(y, x)
    {
      LessTotal(x.kind, y.kind);
      LessTotal(x.artifactHash, y.artifactHash);
    }
  }

  predicate ExportLess(a: Export, b: Export) {
    if a.kind != b.kind then Less(a.kind, b.kind) else Less(a.name, b.name)
  }

  function ExportScheme(env: Env): Scheme<Export> {
    Scheme(
      (r: Export) => if ValidExport(env, r) then Some(r) else None,
      (r: Export) => r.kind + ":" + r.name,
      (a: Export, b: Export) => a.exportHash == b.exportHash,
      ExportLess)
  }

  lemma ExportsLawful(env: Env)
    ensures Lawful(ExportScheme(env))
  {
    forall x ensures !ExportLess(x, x) {
      LessIrreflexive(x.name);
    }
    forall x, y, z | ExportLess(x, y) && ExportLess(y, z) ensures ExportLess(x, z) {
      ChainTransitive(x.kind, y.kind, z.kind);
      ChainTransitive(x.name, y.name, z.name);
    }
    forall x: Export, y: Export | !(x.kind == y.kind && x.name == y.name) ensures ExportLess(x, y) || ExportLess(y, x) {
      LessTotal(x.kind, y.kind);
      LessTotal(x.name, y.name);
    }
  }

  predicate ReleaseLess(a: Release, b: Release) {
    if a.createdAt != b.createdAt then a.createdAt < b.createdAt else Less(a.releaseHash, b.releaseHash)
  }

  function ReleaseScheme(env: Env): Scheme<Release> {
    Scheme(
      (r: Release) => if ValidRelease(env, r) then Some(r) else None,
      (r: Release) => r.releaseHash,
      (a: Release, b: Release) => a.bundleHash == b.bundleHash && a.manifestHash == b.manifestHash,
      ReleaseLess)
  }

  lemma ReleasesLawful(env: Env)
    ensures Lawful(ReleaseScheme(env))
  {
    forall x ensures !ReleaseLess(x, x) {
      LessIrreflexive(x.releaseHash);
    }
    forall x, y, z | ReleaseLess(x, y) && ReleaseLess(y, z) ensures ReleaseLess(x, z) {
      ChainTransitive(x.releaseHash, y.releaseHash, z.releaseHash);
    }
    forall x: Release, y: Release | x.releaseHash != y.releaseHash ensures ReleaseLess(x, y) || ReleaseLess(y, x) {
      LessTotal(x.releaseHash, y.releaseHash);
    }
  }

  predicate MarkerLess(a: Marker, b: Marker) {
    if a.createdAt != b.createdAt then a.createdAt < b.createdAt else Less(a.markerHash, b.markerHash)
  }

  function MarkerScheme(env: Env): Scheme<Marker> {
    Scheme(
      (r: Marker) => if ValidMarker(env, r) then Some(r) else None,
      (r: Marker) => r.markerHash,
      (a: Marker, b: Marker) => a.releaseHash == b.releaseHash && a.ledgerHash == b.ledgerHash,
      MarkerLess)
  }

  lemma MarkersLawful(env: Env)
    ensures Lawful(MarkerScheme(env))
  {
    forall x ensures !MarkerLess(x, x) {
      LessIrreflexive(x.markerHash);
    }
    forall x, y, z | MarkerLess(x, y) && MarkerLess(y, z) ensures MarkerLess(x, z) {
      ChainTransitive(x.markerHash, y.markerHash, z.markerHash);
    }
    forall x: Marker, y: Marker | x.markerHash != y.markerHash ensures MarkerLess(x, y) || MarkerLess(y, x) {
      LessTotal(x.markerHash, y.markerHash);
    }
  }

  // ---------------------------------------------------------------- conflicts

  /** Without a collision among the preimages, no two snapshots conflict. */
  lemma SnapshotsNeverConflict(env: Env, input: seq<Snapshot>)
    requires Collisionless(env.digest, set s | s in input :: SnapshotPreimage(s))
    ensures NormalForm(SnapshotScheme(env), input) != ConflictingElement
  {
    SnapshotsLawful(env);
    if NormalForm(SnapshotScheme(env), input) == ConflictingElement {
      var x, y := ConflictWitness(SnapshotScheme(env), input);
      SnapshotsWithOneHash(env, set s | s in input :: SnapshotPreimage(s), x, y);
      assert false;
    }
  }

  lemma SnapshotsWithOneHash(env: Env, texts: set<string>, x: Snapshot, y: Snapshot)
    requires Collisionless(env.digest, texts) && SnapshotPreimage(x) in texts && SnapshotPreimage(y) in texts
    requires ValidSnapshot(env, x) && ValidSnapshot(env, y) && x.snapshotHash == y.snapshotHash
    ensures SameSnapshot(x, y)
  {
    Digests(env.digest, texts, SnapshotPreimage(x), SnapshotPreimage(y));
    SnapshotDetermined(env, x, y);
  }

  lemma ReleasesNeverConflict(env: Env, input: seq<Release>)
    requires Collisionless(env.digest, set r | r in input :: ReleasePreimage(r))
    ensures NormalForm(ReleaseScheme(env), input) != ConflictingElement
  {
    ReleasesLawful(env);
    if NormalForm(ReleaseScheme(env), input) == ConflictingElement {
      var x, y := ConflictWitness(ReleaseScheme(env), input);
      ReleasesWithOneHash(env, set r | r in input :: ReleasePreimage(r), x, y);
      assert false;
    }
  }

  lemma ReleasesWithOneHash(env: Env, texts: set<string>, x: Release, y: Release)
    requires Collisionless(env.digest, texts) && ReleasePreimage(x) in texts && ReleasePreimage(y) in texts
    requires ValidRelease(env, x) && ValidRelease(env, y) && x.releaseHash == y.releaseHash
    ensures x == y
  {
    Digests(env.digest, texts, ReleasePreimage(x), ReleasePreimage(y));
    ReleaseDetermined(env, x, y);
  }

  lemma MarkersNeverConflict(env: Env, input: seq<Marker>)
    requires Collisionless(env.digest, set r | r in input :: MarkerPreimage(r))
    ensures NormalForm(MarkerScheme(env), input) != ConflictingElement
  {
    MarkersLawful(env);
    if NormalForm(MarkerScheme(env), input) == ConflictingElement {
      var x, y := ConflictWitness(MarkerScheme(env), input);
      MarkersWithOneHash(env, set r | r in input :: MarkerPreimage(r), x, y);
      assert false;
    }
  }

  lemma MarkersWithOneHash(env: Env, texts: set<string>, x: Marker, y: Marker)
    requires Collisionless(env.digest, texts) && MarkerPreimage(x) in texts && MarkerPreimage(y) in texts
    requires ValidMarker(env, x) && ValidMarker(env, y) && x.markerHash == y.markerHash
    ensures x == y
  {
    Digests(env.digest, texts, MarkerPreimage(x), MarkerPreimage(y));
    MarkerDetermined(env, x, y);
  }
}
