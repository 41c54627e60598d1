/** When the fixture chain makes a release or a marker, and what stands behind every marker of a log
    (internal/authz/policy_release_record.go, policy_marker_record.go, policy_export_check.go,
    policy_release_review.go). */
module FixtureReleases {

  import opened Wrappers
  import opened Text
  import opened Normalization
  import opened PolicyInput
  import opened FixtureRecords
  import opened FixtureChain
  import opened FixtureCommitments

  /** Hashes are printed as sixty-four hexadecimal digits. */
  ghost predicate PrintsHex(digest: Digest) {
    forall s :: ValidSha256Hex(digest(s))
  }

  // ---------------------------------------------------------------- catalogs and ledgers

  /** A kept record stands for every record with its key. */
  lemma Stands<T(!new)>(sch: Scheme<T>, records: seq<T>, r: T) returns (item: T)
    requires Lawful(sch) && Checks(sch) && NormalForm(sch, records).Normal? && r in records
    ensures item in NormalForm(sch, records).items && sch.key(item) == sch.key(r)
    ensures sch.norm(item).Some? && sch.norm(r).Some?
  {
    NormalFormMeaning(sch, records);
    var items := NormalForm(sch, records).items;
    assert sch.norm(r) == Some(r);
    assert HasRepresentative(sch, items, r);
    item :| item in items && sch.key(item) == sch.key(r) && sch.agree(item, r);
    IsRecord(sch, records, item);
  }

  lemma IsRecord<T(!new)>(sch: Scheme<T>, records: seq<T>, item: T)
    requires Lawful(sch) && Checks(sch) && NormalForm(sch, records).Normal? && item in NormalForm(sch, records).items
    ensures item in records && sch.norm(item).Some?
  {
    ItemsAreRecords(sch, records);
  }

  /** What depends on the key alone holds of a kept record if and only if it holds of a record. */
  lemma KeptHasIff<T(!new)>(sch: Scheme<T>, records: seq<T>, p: T -> bool)
    requires Lawful(sch) && Checks(sch) && NormalForm(sch, records).Normal?
    requires forall x, y :: sch.norm(x).Some? && sch.norm(y).Some? && sch.key(x) == sch.key(y) && p(x) ==> p(y)
    ensures var items := NormalForm(sch, records).items;
      (exists i :: 0 <= i < |items| && p(items[i])) <==> exists r :: r in records && p(r)
  {
    var items := NormalForm(sch, records).items;
    if r :| r in records && p(r) {
      var item := Stands(sch, records, r);
      assert p(item);
      var i :| 0 <= i < |items| && items[i] == item;
    } else {
      forall i | 0 <= i < |items| ensures !p(items[i]) {
        IsRecord(sch, records, items[i]);
      }
    }
  }

  lemma CatalogHasIff(env: Env, c: Catalog, kind: string, artifactHash: string)
    requires ValidCatalog(env, c)
    ensures CatalogHas(env, c, kind, artifactHash) <==>
      exists r :: r in c.records && r.kind == kind && r.artifactHash == artifactHash
  {
    var p := (r: Artifact) => r.kind == kind && r.artifactHash == artifactHash;
    ArtifactsLawful(env);
    forall x, y | ValidArtifact(env, x) && ValidArtifact(env, y) && x.kind + ":" + x.artifactHash == y.kind + ":" + y.artifactHash
      ensures x.kind == y.kind && x.artifactHash == y.artifactHash
    {
      KeysDetermine(x, y);
    }
    KeptHasIff(ArtifactScheme(env), c.records, p);
  }

  lemma KeysDetermine(a: Artifact, b: Artifact)
    requires ValidSha256Hex(a.artifactHash) && ValidSha256Hex(b.artifactHash)
    requires a.kind + ":" + a.artifactHash == b.kind + ":" + b.artifactHash
    ensures a.kind == b.kind && a.artifactHash == b.artifactHash
  {
    var key := a.kind + ":" + a.artifactHash;
    assert |a.artifactHash| == |b.artifactHash| == 64;
    assert a.kind == key[..|key| - 65] && b.kind == key[..|key| - 65];
    assert a.artifactHash == key[|key| - 64..] && b.artifactHash == key[|key| - 64..];
  }

  lemma LedgerHasIff(env: Env, c: Ledger, releaseHash: string)
    requires ValidLedger(env, c)
    ensures LedgerHas(env, c, releaseHash) <==> exists r :: r in c.records && r.releaseHash == releaseHash
  {
    ReleasesLawful(env);
    KeptHasIff(ReleaseScheme(env), c.records, (r: Release) => r.releaseHash == releaseHash);
  }

  // ---------------------------------------------------------------- releases

  ghost predicate PartsValid(env: Env, input: ReleaseInput) {
    && ValidBundle(env, input.bundle) && ValidManifest(env, input.manifest)
    && ValidCatalog(env, input.catalog) && ValidIndex(env, input.index)
    && ValidReview(env, input.check, EXPORT_CHECK_SCHEMA)
  }

  /** The manifest is that of the bundle, the check found the index in order, and the catalog lists
      the bundle and the manifest. */
  ghost predicate Consistent(input: ReleaseInput) {
    && input.manifest.bundleHash == input.bundle.bundleHash
    && input.check.subjectHash == input.index.hash && input.check.status == "ok"
    && (exists r :: r in input.catalog.records && r.kind == "bundle" && r.artifactHash == input.bundle.bundleHash)
    && (exists r :: r in input.catalog.records && r.kind == "manifest" && r.artifactHash == input.manifest.manifestHash)
  }

  lemma ReleaseSealed(env: Env, input: ReleaseInput)
    requires PrintsHex(env.digest) && input.createdAt >= 0 && PartsValid(env, input)
    ensures var r := Release("policy.fixture.release.v1", input.bundle.bundleHash, input.manifest.manifestHash,
                             input.catalog.hash, input.index.hash, input.check.reviewHash, input.createdAt, true, "");
      ValidRelease(env, r.(releaseHash := env.digest(ReleasePreimage(r))))
  {
    var r := Release("policy.fixture.release.v1", input.bundle.bundleHash, input.manifest.manifestHash,
                     input.catalog.hash, input.index.hash, input.check.reviewHash, input.createdAt, true, "");
    assert ReleasePreimage(r.(releaseHash := env.digest(ReleasePreimage(r)))) == ReleasePreimage(r);
  }

  lemma BothListed(env: Env, input: ReleaseInput)
    requires ValidCatalog(env, input.catalog)
    ensures CatalogHas(env, input.catalog, "bundle", input.bundle.bundleHash) <==>
      exists r :: r in input.catalog.records && r.kind == "bundle" && r.artifactHash == input.bundle.bundleHash
    ensures CatalogHas(env, input.catalog, "manifest", input.manifest.manifestHash) <==>
      exists r :: r in input.catalog.records && r.kind == "manifest" && r.artifactHash == input.manifest.manifestHash
  {
    CatalogHasIff(env, input.catalog, "bundle", input.bundle.bundleHash);
    CatalogHasIff(env, input.catalog, "manifest", input.manifest.manifestHash);
  }

  /** A release is made if and only if its time is not negative, its parts are valid and they are
      consistent; it carries their hashes. */
  lemma ReleaseMadeIff(env: Env, input: ReleaseInput)
    requires PrintsHex(env.digest)
    ensures ReleaseFor(env, input).Some? <==> input.createdAt >= 0 && PartsValid(env, input) && Consistent(input)
    ensures ReleaseFor(env, input).Some? ==>
      var r := ReleaseFor(env, input).value;
      && r.bundleHash == input.bundle.bundleHash && r.manifestHash == input.manifest.manifestHash
      && r.catalogHash == input.catalog.hash && r.exportIndexHash == input.index.hash
      && r.exportCheckHash == input.check.reviewHash && r.createdAt == input.createdAt
      && r.releaseHash == env.digest(ReleasePreimage(r))
  {
    if input.createdAt >= 0 && PartsValid(env, input) {
      BothListed(env, input);
      ReleaseSealed(env, input);
    }
  }

  // ---------------------------------------------------------------- markers

  lemma MarkerSealed(env: Env, input: MarkerInput)
    requires PrintsHex(env.digest) && input.createdAt >= 0 && ValidRelease(env, input.release)
    requires ValidLedger(env, input.ledger) && ValidReview(env, input.review, RELEASE_REVIEW_SCHEMA)
    ensures var m := Marker("policy.fixture.marker.v1", input.release.releaseHash, input.ledger.hash,
                            input.review.reviewHash, MarkerTag(input.tag), input.createdAt, true, "");
      ValidMarker(env, m.(markerHash := env.digest(MarkerPreimage(m)))) <==> ValidText(MarkerTag(input.tag), 128)
  {
    var m := Marker("policy.fixture.marker.v1", input.release.releaseHash, input.ledger.hash,
                    input.review.reviewHash, MarkerTag(input.tag), input.createdAt, true, "");
    assert MarkerPreimage(m.(markerHash := env.digest(MarkerPreimage(m)))) == MarkerPreimage(m);
  }

  /** A release is marked if and only if the time is not negative, release, ledger and review are
      valid, the review found the ledger in order, the ledger lists the release, and the tag, trimmed
      and defaulted, is a text of at most 128 bytes; the marker carries their hashes. */
  lemma MarkerMadeIff(env: Env, input: MarkerInput)
    requires PrintsHex(env.digest)
    ensures MarkerFor(env, input).Some? <==>
      && input.createdAt >= 0 && ValidRelease(env, input.release) && ValidLedger(env, input.ledger)
      && ValidReview(env, input.review, RELEASE_REVIEW_SCHEMA)
      && input.review.status == "ok" && input.review.subjectHash == input.ledger.hash
      && (exists r :: r in input.ledger.records && r.releaseHash == input.release.releaseHash)
      && ValidText(if Trim(input.tag) == "" then "fixture-marker" else Trim(input.tag), 128)
    ensures MarkerFor(env, input).Some? ==>
      var m := MarkerFor(env, input).value;
      && m.releaseHash == input.release.releaseHash && m.ledgerHash == input.ledger.hash
      && m.reviewHash == input.review.reviewHash && m.createdAt == input.createdAt
      && m.tag == (if Trim(input.tag) == "" then "fixture-marker" else Trim(input.tag))
      && m.markerHash == env.digest(MarkerPreimage(m))
  {
    if input.createdAt >= 0 && ValidRelease(env, input.release) && ValidLedger(env, input.ledger)
       && ValidReview(env, input.review, RELEASE_REVIEW_SCHEMA) {
      LedgerHasIff(env, input.ledger, input.release.releaseHash);
      MarkerSealed(env, input);
    }
  }

  // ---------------------------------------------------------------- checks and reviews

  /** The check of an index, or the review of a ledger, made at a time: it says whether the
      collection is valid. */
  function ReviewFor(env: Env, schemaVersion: string, valid: bool, hash: string, records: nat, checkedAt: int): Option<Review> {
    if checkedAt < 0 then None
    else
      var r := Review(schemaVersion, if valid then "ok" else "failed", hash, records, checkedAt, true, "");
      var sealed := r.(reviewHash := env.digest(ReviewPreimage(r)));
      if ValidReview(env, sealed, schemaVersion) then Some(sealed) else None
  }

  function CheckForIndex(env: Env, index: ExportIndex, checkedAt: int): Option<Review> {
    ReviewFor(env, EXPORT_CHECK_SCHEMA, ValidIndex(env, index), index.hash, |index.records|, checkedAt)
  }

  function ReviewForLedger(env: Env, ledger: Ledger, checkedAt: int): Option<Review> {
    ReviewFor(env, RELEASE_REVIEW_SCHEMA, ValidLedger(env, ledger), ledger.hash, |ledger.records|, checkedAt)
  }

  lemma ReviewMadeIff(env: Env, schemaVersion: string, valid: bool, hash: string, records: nat, checkedAt: int)
    requires PrintsHex(env.digest)
    ensures var r := ReviewFor(env, schemaVersion, valid, hash, records, checkedAt);
      && (r.Some? <==> checkedAt >= 0 && ValidSha256Hex(hash))
      && (r.Some? ==> ValidReview(env, r.value, schemaVersion) && r.value.subjectHash == hash && r.value.recordCount == records)
      && (r.Some? ==> (r.value.status == "ok" <==> valid))
  {
    var r := Review(schemaVersion, if valid then "ok" else "failed", hash, records, checkedAt, true, "");
    assert ReviewPreimage(r.(reviewHash := env.digest(ReviewPreimage(r)))) == ReviewPreimage(r);
    assert |"ok"| != |"failed"|;
  }

  /** With the check that is made for its index, a release is made if and only if its other parts are
      valid and fit together. */
  lemma CheckedReleaseIff(env: Env, input: ReleaseInput, checkedAt: int)
    requires PrintsHex(env.digest) && CheckForIndex(env, input.index, checkedAt) == Some(input.check)
    ensures ReleaseFor(env, input).Some? <==>
      && input.createdAt >= 0 && ValidBundle(env, input.bundle) && ValidManifest(env, input.manifest)
      && ValidCatalog(env, input.catalog) && ValidIndex(env, input.index)
      && input.manifest.bundleHash == input.bundle.bundleHash
      && (exists r :: r in input.catalog.records && r.kind == "bundle" && r.artifactHash == input.bundle.bundleHash)
      && (exists r :: r in input.catalog.records && r.kind == "manifest" && r.artifactHash == input.manifest.manifestHash)
  {
    ReleaseMadeIff(env, input);
    ReviewMadeIff(env, EXPORT_CHECK_SCHEMA, ValidIndex(env, input.index), input.index.hash, |input.index.records|, checkedAt);
  }

  // ---------------------------------------------------------------- logs

  /** Behind a marker stands a release whose check found its export index in order, in a ledger whose
      review found it in order. */
  ghost predicate Reviewed(step: Step, marker: Marker) {
    && step.release.check.status == "ok" && step.release.check.subjectHash == step.release.index.hash
    && step.release.manifest.bundleHash == step.release.bundle.bundleHash
    && step.marker.review.status == "ok" && step.marker.review.subjectHash == step.marker.ledger.hash
    && marker.ledgerHash == step.marker.ledger.hash && marker.reviewHash == step.marker.review.reviewHash
    && marker.releaseHash == step.marker.release.releaseHash
    && exists r :: r in step.marker.ledger.records && r.releaseHash == marker.releaseHash
  }

  /** Every marker of a valid log goes back to a check and a review with status "ok". */
  lemma LogReviewed(env: Env, texts: set<string>, steps: seq<Step>, log: MarkerLog)
    requires PrintsHex(env.digest) && ValidLog(env, log) && AllMark(env, texts, steps, Items(MarkerScheme(env), log))
    ensures forall i :: 0 <= i < |steps| ==> Reviewed(steps[i], Items(MarkerScheme(env), log)[i])
  {
    forall i | 0 <= i < |steps| ensures Reviewed(steps[i], Items(MarkerScheme(env), log)[i]) {
      StepReviewed(env, texts, steps[i], Items(MarkerScheme(env), log)[i]);
    }
  }

  lemma StepReviewed(env: Env, texts: set<string>, step: Step, marker: Marker)
    requires PrintsHex(env.digest) && Marks(env, texts, step, marker)
    ensures Reviewed(step, marker)
  {
    ReleaseMadeIff(env, step.release);
    MarkerMadeIff(env, step.marker);
  }
}
