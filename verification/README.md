# Solid sidecar: a verified model

This project models the decision-critical core of the Solid sidecar's `internal/authz` and
`internal/authn` packages in Dafny and proves what that core promises over all inputs and all runs.

| area | modules |
|---|---|
| enforcement gate: mode, thresholds, bypass, automatic disabling, canary quota, allowlist patterns | `EnforcementGate`, `GateHistory`, `CanaryQuota`, `GlobPattern` |
| canonical request text, policy documents and sources, their versions | `Text`, `Sorting`, `Sequences`, `Maps`, `AccessModes`, `CanonicalRequest`, `RequestValidation`, `Normalization`, `PolicyInput`, `ResourceMetadata`, `PolicySources` |
| fixture commitment chain: snapshot, bundle, catalog, export index, release, ledger, marker, log | `FixtureRecords`, `FixtureChain`, `FixtureCommitments`, `FixtureReleases`, `FixtureContents` |
| replay cache and the time window of proofs of possession | `ReplayCache`, `ReplayHistory`, `DpopProof` |
| policy cache, cached loader, refresh plan | `PolicyRecords`, `CachedLoader`, `CachedLoaderHistory`, `CachedLoaderServing`, `RefreshPlan` |
| rate limiter, backoff, WebID cache, key tracker | `RateLimiter`, `Backoff`, `WebIdCache`, `WebIdHistory`, `KeyTracker`, `KeyTrackerHistory`, `KeyTrackerEvents` |
| in-place exchange sort and distribution hashes | `ExchangeSort`, `DistributionHashes`, `ColonText`, `DistributionRecords` |
| access rules from RDF triples | `WacRules`, `WacVocabulary`, `WacRoundTrip` |

`dafny verify dfyconfig.toml` checks the whole project.

## How it is built

- Objects with state are classes.  Every method states its whole new state as a step function of the
  old one; the `...History` modules, and those on events and serving, then reason about all runs of
  those steps.
- Loops over Go maps choose the next key freely, so what is proved holds for every iteration order.
- Clocks, contexts, the underlying policy loader, generated tokens and library parsers are parameters.
- Text is a sequence of Unicode code points.  Byte order and code-point order agree on valid UTF-8.
- Digests are arbitrary functions.  No theorem assumes that a digest is injective, which no
  fixed-length digest is; each assumes that it does not confuse the finitely many texts it is about.
- Percentages and rates are compared exactly, as integers or reals.

## What differs from a first reading

- `matchPattern` is the glob of its pattern only on strings without newlines; the exact condition for
  all strings is that the pattern has no wildcard (`AgreesEverywhereIffLiteral`).
- The gate's constructor does not check the initial mode, so an enforcing mode is backed by an
  admitted change in all runs exactly when the initial mode is not enforcing
  (`JustifiedIffStartsSafe`).
- The replay cache remembers a proof for the replay window, while the time check accepts it for the
  clock skew longer, and reads the clock before the cache does.  `AcceptedTwiceIff` gives the exact
  condition for two acceptances in a run, `AcceptancesBounded` the bound and `BoundReached` a run that
  reaches it.
- The branch of `Store` that collects expired keys in a full cache is dead: they were purged before.
- The rate limiter loses fractions of a token at every call (`EmptyBucketGrantsIff`), so a wait on an
  empty bucket whose first poll is refused ends, with polls on time, if and only if the rate is at least
  ten a second (`WaitEndsIff`).
- The backoff delay is the maximum one nanosecond early in one case (`ExactIff`).
- The key tracker's two indexes stop being inverse exactly when a bound key is bound to another WebID
  or a WebID with keys is invalidated as a whole (`InverseThroughoutIff`).  Registration with a WebID
  takes the lock twice, and a clear in between leaves a bound key that is not tracked
  (`ClearBetweenParts`, `TracksThroughoutIff`).
- A decision for a request takes the gate's lock twice.  A gate in canary mode that is disabled or
  closed in between, or one that is bypassed and then put in canary mode, can enforce a request that no
  state enforces (`DisabledBetween`, `ClosedBetween`, `BypassedBetween`); `AcrossExplainedIff` gives the
  options and requests for which that never happens.
- A field terminator inside a request value makes two different requests share a text
  (`SeparatorsMatter`); `CanonicalRequest.DeterminedIff` gives the requests that are safe from it,
  and `ValidDeterminedIff` those that are safe among requests that pass validation.
- The lists of hashes in distribution records are printed with spaces, so lists of strings that are not
  hashes can share a text (`JobListsCollide`, `JobListDeterminedIff`).  Their other parts stand between
  colons, which the code accepts inside them (`JobShifted`, `TargetShifted`, `JobDeterminedIff`).
- Resource metadata whose keys trim to one key depends on the order of the map
  (`ResourceMetadata.SameInEveryOrderIff`).
- A rule for what a container holds is refused: only the text "true" is read as a default, and a rule
  needs a resource of its own (`InheritedRefused`).
- A source that names no content type is never served from the policy cache (`UntypedNeverServed`).
- A stale record found by the cached loader counts two misses (`StaleCountsTwice`); with positive store
  times there is none.
- Of two cache records that share a key and agree on version and hash, the first is kept, so the order
  of records matters (`OrderMatters`, `PolicyRecords.OrderIrrelevantIff`).

## Model

| member | source | states |
|---|---|---|
| `EnforcementGate.NewEnforcementGate` | internal/authz/enforcement_gate.go:383-456 | options are completed with defaults, invalid ones are refused, and the new gate is in the initial state |
| `EnforcementGate.ValidatePatterns` | internal/authz/enforcement_gate.go:459-467 | accepts a list of patterns if and only if every one is valid |
| `EnforcementGate.MalformedIff` | internal/authz/enforcement_gate.go:459-467 | a list is refused if and only if some pattern holds a character other than a letter, a digit, a hyphen, an underscore, a dot, a slash, a star and a question mark |
| `EnforcementGate.RefusedIff` | internal/authz/enforcement_gate.go:383-435 | the options that the constructor refuses, check by check |
| `EnforcementGate.Gate.constructor` | internal/authz/enforcement_gate.go:445-455 | the initial state: the configured mode, nothing recorded, open |
| `EnforcementGate.Gate.SetMode` | internal/authz/enforcement_gate.go:549-592 | the whole new state, and success if and only if the gate is open and, for an enforcing mode, enforcement is allowed and the threshold met when required |
| `EnforcementGate.Gate.DisableEnforcement` | internal/authz/enforcement_gate.go:613-621 | shadow mode, automatic disabling cleared, all else unchanged |
| `EnforcementGate.Gate.EmergencyBypass` | internal/authz/enforcement_gate.go:625-641 | the bypass is set if and only if it is enabled and the token is the configured one |
| `EnforcementGate.Gate.ClearEmergencyBypass` | internal/authz/enforcement_gate.go:644-648 | only the given token leaves the bypass set |
| `EnforcementGate.Gate.Close` | internal/authz/enforcement_gate.go:658-664 | the gate is closed, all else unchanged |
| `EnforcementGate.Gate.Reopen` | internal/authz/enforcement_gate.go:667-673 | the gate is open, all else unchanged |
| `EnforcementGate.Gate.AutoRevertIfNeeded` | internal/authz/enforcement_gate.go:693-710 | shadow mode if an enforcing mode is older than the limit, else no change |
| `EnforcementGate.Gate.RecordMismatch` | internal/authz/enforcement_gate.go:894-916 | one more mismatch, and automatic disabling exactly when the rate passes the threshold |
| `EnforcementGate.Gate.ClearMismatches` | internal/authz/enforcement_gate.go:919-932 | no mismatches and no automatic disabling |
| `EnforcementGate.Gate.RecordComparisonResult` | internal/authz/enforcement_gate.go:996-1076 | the new counters and the threshold flag after a match or a mismatch |
| `EnforcementGate.Gate.ResetComparisonResults` | internal/authz/enforcement_gate.go:1106-1119 | counters and flag back to zero |
| `EnforcementGate.Gate.RecordDecision` | internal/authz/enforcement_gate.go:239-256 | one more decision, enforced or shadowed, in the total that the mismatch rate is taken of |
| `EnforcementGate.Gate.ShouldEnforce` | internal/authz/enforcement_gate.go:714-735 | whether the state enforces: open, not bypassed, not disabled, and in an enforcing mode |
| `EnforcementGate.Gate.SelectRequest` | internal/authz/enforcement_gate.go:744-773 | the part of a request under the second hold of the lock: whether the request is selected, and the counters afterwards, allowlists and canary quota included |
| `EnforcementGate.Gate.ShouldEnforceForRequest` | internal/authz/enforcement_gate.go:739-773 | the decision for one request and the state it leaves, whatever calls come between the two holds of the lock |
| `EnforcementGate.Gate.IsCanaryRequest` | internal/authz/enforcement_gate.go:776-814 | whether a request is in the canary share, and the counters after it |
| `EnforcementGate.Gate.IsMethodAllowlisted` | internal/authz/enforcement_gate.go:817-833 | whether the list holds the method, case aside |
| `EnforcementGate.Gate.IsResourceAllowlisted` | internal/authz/enforcement_gate.go:836-856 | whether some pattern of the list accepts the resource |
| `EnforcementGate.Gate.IsStorageAllowlisted` | internal/authz/enforcement_gate.go:859-872 | whether some pattern of the list accepts the storage |
| `GateHistory.ClosedIff` | internal/authz/enforcement_gate.go:658-673 | in every run the gate is closed if and only if some close was not followed by a reopen |
| `GateHistory.BypassedIff` | internal/authz/enforcement_gate.go:625-648 | in every run the bypass set is the configured token or empty, exactly as bypasses and clears say |
| `GateHistory.MatchPreserves` | internal/authz/enforcement_gate.go:996-1076 | a further match never undoes met thresholds, which is why the flag may stay up without being recomputed |
| `GateHistory.ThresholdIff` | internal/authz/enforcement_gate.go:996-1076 | in every run the counters are those of the results since the last reset, and the flag is up if and only if those results meet the count and the percentage |
| `GateHistory.CountersOrdered` | internal/authz/enforcement_gate.go:996-1076 | in every run consecutive matches, matches and results are in this order of size |
| `GateHistory.AdmittedIff` | internal/authz/enforcement_gate.go:549-570 | in every run a mode change is admitted exactly when the history says so: not closed, and for an enforcing mode allowed and with thresholds met |
| `GateHistory.ModeIsLastInstalled` | internal/authz/enforcement_gate.go:549-710 | in every run the mode is the one installed last, or the initial one if none was |
| `GateHistory.EnforcementJustified` | internal/authz/enforcement_gate.go:549-592 | in every run an enforcing mode was installed by an admitted change, unless it is the initial mode untouched |
| `GateHistory.JustifiedIffStartsSafe` | internal/authz/enforcement_gate.go:383-456 | that exception cannot occur if and only if the configured initial mode is not enforcing; the constructor does not check it |
| `GateHistory.DisabledIff` | internal/authz/enforcement_gate.go:894-932 | in every run automatic disabling holds if and only if some mismatch brought 100 times the mismatches above the threshold times the decisions, and nothing rearmed the gate since |
| `GateHistory.DisabledHasCause` | internal/authz/enforcement_gate.go:894-932 | while disabled there is a mismatch and a positive threshold |
| `GateHistory.ShouldEnforceIff` | internal/authz/enforcement_gate.go:714-735 | in every run from a safe start the gate enforces if and only if it is open, not bypassed, not disabled, and in a justified enforcing mode |
| `GateHistory.ClosedOnlyToShadow` | internal/authz/enforcement_gate.go:549-710 | a closed gate leaves its mode only for shadow |
| `GateHistory.EnabledSince` | internal/authz/enforcement_gate.go:572-580 | in every run the time kept with an enforcing mode is that of the change that installed it |
| `GateHistory.RevertBoundsDuration` | internal/authz/enforcement_gate.go:693-710 | after a duration check, an enforcing mode was installed by an admitted change no longer ago than the limit |
| `GateHistory.RevertsIff` | internal/authz/enforcement_gate.go:693-710 | a duration check leaves an enforcing mode if and only if there is no limit or the change that installed it is no older; otherwise it puts the gate in shadow mode |
| `GateHistory.UpperIff` | internal/authz/enforcement_gate.go:817-833 | upper-casing makes two texts equal if and only if they are equal letter by letter, ASCII case aside |
| `GateHistory.EnforcedOutsideCanaryIff` | internal/authz/enforcement_gate.go:739-773 | in every run that enforces outside canary mode, a request is enforced if and only if the method list is empty or has the verb, case aside, the resource list is empty or some glob of it accepts the parsed path, and the storage list is empty or some glob of it accepts the host |
| `GateHistory.EnforcedInCanaryIff` | internal/authz/enforcement_gate.go:776-814 | in every run that enforces in canary mode, a request is enforced if and only if canary is enabled and its number modulo 100 is below the percentage, or its header is the configured one, or some glob accepts its path, as the strategy says |
| `GateHistory.RequestsCounted` | internal/authz/enforcement_gate.go:776-791 | in every run the number of canary requests is that of the requests decided in canary mode with the percentage strategy |
| `GateHistory.CanaryCountersFollowQuota` | internal/authz/enforcement_gate.go:776-791 | in every run enforced canary requests are exactly the quota, and enforced and shadowed ones add up |
| `GateHistory.RunFromRun` | internal/authz/enforcement_gate.go:739-773 | calls that come in between extend the run |
| `GateHistory.AcrossExplainedIff` | internal/authz/enforcement_gate.go:739-773 | over all runs and all calls in between, every decision for a request is that of some state meanwhile if and only if canary mode cannot be reached, or always selects the request and so do the lists or no bypass can precede it, or neither ever selects it |
| `GateHistory.SafeExplained` | internal/authz/enforcement_gate.go:739-773 | under that condition every decision of every run is that of some state meanwhile |
| `GateHistory.DisabledBetween` | internal/authz/enforcement_gate.go:739-773 | a canary gate disabled in between enforces a listed request that no state enforces |
| `GateHistory.BypassedBetween` | internal/authz/enforcement_gate.go:739-773 | so does an enforcing gate that is bypassed and then put in canary mode, for a request that the lists leave out |
| `GateHistory.ClosedBetween` | internal/authz/enforcement_gate.go:739-773 | so does a canary gate closed in between, when another request moves the count on |
| `GateHistory.UnsafeUnexplained` | internal/authz/enforcement_gate.go:739-773 | without the condition one of these runs exists |
| `GateHistory.EnforcedByNoState` | internal/authz/enforcement_gate.go:739-773 | that case occurs: a canary gate disabled in between enforces a request that no state of the run enforces |
| `CanaryQuota.EnforcedCount` | internal/authz/enforcement_gate.go:776-791 | the closed form of the number enforced among the first n requests |
| `CanaryQuota.EnforcedSplit` | internal/authz/enforcement_gate.go:776-791 | counts over consecutive stretches add up |
| `CanaryQuota.QuotaExact` | internal/authz/enforcement_gate.go:776-791 | any hundred consecutive requests hold exactly the percentage of enforced ones |
| `GlobPattern.MatchIsGlob` | internal/authz/enforcement_gate.go:875-891 | for every pattern and string, quoting and the two replacement passes give a regular expression that accepts exactly the glob, wildcards not covering a newline |
| `GlobPattern.MatchIsPlainGlob` | internal/authz/enforcement_gate.go:875-891 | on newline-free strings it is the plain glob |
| `GlobPattern.AgreesEverywhereIffLiteral` | internal/authz/enforcement_gate.go:875-891 | it is the plain glob on all strings, newlines included, if and only if the pattern has no wildcard |
| `GlobPattern.AnyPatternMatches` | internal/authz/enforcement_gate.go:848-853 | the scan of an allowlist finds a match if and only if some pattern accepts as a glob |
| `CanonicalRequest.CanonicalRequest` | internal/authz/audit.go:18-44 | the text built field by field is the canonical text, whatever order the metadata map is visited in |
| `CanonicalRequest.PushField` | internal/authz/audit.go:100-105 | appends the encoding of one field |
| `CanonicalRequest.PushOptionalField` | internal/authz/audit.go:69-73 | appends the field unless its value is empty |
| `CanonicalRequest.PushModes` | internal/authz/audit.go:75-98 | appends one field for each mode, in rank order |
| `CanonicalRequest.PushMetadata` | internal/authz/audit.go:32-40 | appends the metadata in the order of its keys |
| `CanonicalRequest.ReadsField` | internal/authz/audit.go:18-44 | the values found under each field name are the ones of the request |
| `CanonicalRequest.UniquelyDecodable` | internal/authz/audit.go:18-44 | two requests with valid, distinct modes and no terminator (U+001E) in their strings have one text if and only if they are equal, the order of modes aside |
| `CanonicalRequest.SeparatorsMatter` | internal/authz/audit.go:100-105 | with terminators allowed the law fails for every request that carries more than schema, identifier, method, resource and time: it shares its text with one that has all else folded into its resource |
| `CanonicalRequest.DeterminedIff` | internal/authz/audit.go:18-44 | a terminator-free request is determined by its text among all requests if and only if it carries no such further field |
| `RequestValidation.ValidateRequest` | internal/authz/validation.go:15-50 | accepts a request and its policy documents if and only if every checked field is valid; parties, versions and metadata are not checked |
| `RequestValidation.RefusedIff` | internal/authz/validation.go:15-50 | the requests that validation refuses, check by check |
| `RequestValidation.ValidDeterminedIff` | internal/authz/audit.go:18-44 | a valid, terminator-free request is determined by its text among all valid requests if and only if it names at most one party, then with one mode, and carries at most one version or metadata entry |
| `RequestValidation.NotSparseShares` | internal/authz/audit.go:18-44 | every other valid request shares its text with another valid one |
| `RequestValidation.Aligned` | internal/authz/audit.go:18-44 | where the lines of a valid request with the same text fall: its details are the same lines, and its parties and modes fill the same stretch |
| `AccessModes.NormalModesForgetOrder` | internal/authz/policy_semantics.go:142-162 | two valid lists of modes have one normal form if and only if they hold the same modes |
| `Normalization.Normalize` | internal/authz/policy_source.go:36-61 | the loop over a map of seen keys, visited in any order and sorted, computes the normal form |
| `Normalization.NormalFormMeaning` | internal/authz/policy_source.go:36-61 | normalisation succeeds if and only if all elements are valid and none conflict, and gives a sorted list with one representative for every key |
| `Normalization.SucceedsIff` | internal/authz/policy_source.go:36-61 | success depends only on the set of normal forms |
| `Normalization.OrderIrrelevant` | internal/authz/policy_source.go:36-61 | order and repetition of the input do not matter |
| `Normalization.SetsSeparated` | internal/authz/policy_source.go:36-61 | different sets of normal forms give different results |
| `Normalization.PermutationIrrelevant` | internal/authz/policy_loading.go:236-265 | order does not matter to inputs with one normal form for each key, even when the test for conflicts cannot tell elements apart |
| `Normalization.EveryOrderIff` | internal/authz/policy_loading.go:236-265 | a list that normalises does so to one result in every order if and only if it holds one normal form for each key |
| `Normalization.NormalFormIdempotent` | internal/authz/policy_release_ledger.go:34-59 | a normalised list of checked records normalises to itself |
| `Normalization.ConflictWitness` | internal/authz/policy_source.go:47-52 | a conflict is reported only for two valid elements that share a key and disagree |
| `PolicyInput.NormalizePolicyDocuments` | internal/authz/policy_input.go:13-38 | computes the normal form of the documents |
| `PolicyInput.DocumentsSucceedIff` | internal/authz/policy_input.go:13-54 | normalisation succeeds if and only if every document is valid and no URI has two normal forms |
| `PolicyInput.DocumentsContents` | internal/authz/policy_input.go:13-102 | the result is in the order of its URIs, each once, and is exactly the normal forms of the input |
| `PolicyInput.ResourceUriIff` | internal/authz/validation.go:93-110 | what a resource URI is: an http or https URL of at most 4096 bytes without backslash, fragment and control characters |
| `PolicyInput.PresentableIff` | internal/authz/policy_input.go:40-88 | a document has a normal form if and only if its trimmed URI is valid, its hash is 64 hexadecimal digits in either case and its content type is given and parses; what that form is |
| `PolicyInput.DocumentsAcceptedIff` | internal/authz/policy_input.go:13-38 | a list is accepted if and only if every document is such and documents at one URI have the same hash, case aside, and media type |
| `PolicyInput.DocumentsAre` | internal/authz/policy_input.go:13-88 | the result holds exactly the trimmed URI, lower-case hash and media type of each document |
| `PolicyInput.CanonicalPolicyDocuments` | internal/authz/audit.go:46-67 | computes the canonical text of the documents |
| `PolicyInput.DocumentsText` | internal/authz/audit.go:46-67 | two lists of separator-free documents have one text if and only if one is a permutation of the other |
| `PolicyInput.DocumentVersions` | internal/authz/policy_input.go:104-110 | two lists have one version if and only if neither can be versioned or both normalise to the same set |
| `ResourceMetadata.NormalizeResourceMetadata` | internal/authz/policy_input.go:112-131 | the loop over the map computes what visiting the keys in some order leaves |
| `ResourceMetadata.SucceedsIff` | internal/authz/policy_input.go:112-131 | it succeeds, in every order, if and only if every trimmed key has 1 to 128 bytes, every trimmed value at most 1024, and neither a control character |
| `ResourceMetadata.SameInEveryOrderIff` | internal/authz/policy_input.go:112-131 | every order gives one result if and only if some entry is invalid or no two keys trim to one key with different trimmed values |
| `ResourceMetadata.OrderMatters` | internal/authz/policy_input.go:112-131 | two keys that differ in a space, with different values, give two results |
| `ResourceMetadata.Idempotent` | internal/authz/policy_input.go:112-131 | a normalised map normalises to itself, in every order |
| `PolicySources.NormalizePolicySources` | internal/authz/policy_source.go:36-61 | computes the normal form of the sources |
| `PolicySources.SourcesSucceedIff` | internal/authz/policy_source.go:36-87 | normalisation succeeds if and only if every source is valid and no URI has two normal forms |
| `PolicySources.SourcesContents` | internal/authz/policy_source.go:36-113 | lower priorities come first and within one priority lesser URIs, each URI once, and the result is exactly the normal forms of the input |
| `PolicySources.PresentableIff` | internal/authz/policy_source.go:63-96 | a source has a normal form if and only if its trimmed URI is valid, its kind is missing or known, its priority is from 0 to 10000 and its content type is missing or parses; what that form is |
| `PolicySources.SourcesAcceptedIff` | internal/authz/policy_source.go:36-61 | a list is accepted if and only if every source is such and sources with one URI present the same kind, priority and content type |
| `PolicySources.SourcesAre` | internal/authz/policy_source.go:36-96 | the result holds exactly what the sources present |
| `PolicySources.SourceSetVersions` | internal/authz/policy_source.go:144-161 | two lists have one version if and only if neither can be versioned or both normalise to the same set |
| `FixtureRecords.SnapshotDetermined` | internal/authz/policy_snapshot.go:117-175 | the digested text of a valid snapshot determines it, the order of its modes aside |
| `FixtureRecords.ArtifactDetermined` | internal/authz/policy_artifact.go:250-253 | the digested text of a valid artifact record determines it |
| `FixtureRecords.ExportDetermined` | internal/authz/policy_export_record.go:84-87 | the digested text of a valid export record determines it |
| `FixtureRecords.ReviewDetermined` | internal/authz/policy_release_review.go:43-62 | the digested text of a valid check or review determines it |
| `FixtureRecords.ReleaseDetermined` | internal/authz/policy_release_record.go:58-77 | the digested text of a valid release record determines it |
| `FixtureRecords.MarkerDetermined` | internal/authz/policy_marker_record.go:49-68 | the digested text of a valid marker record determines it |
| `FixtureChain.SnapshotsNeverConflict` | internal/authz/policy_snapshot.go:207-230 | without a collision among the snapshots of a list the conflict branch is unreachable |
| `FixtureChain.ReleasesNeverConflict` | internal/authz/policy_release_ledger.go:34-59 | the same for release records |
| `FixtureChain.MarkersNeverConflict` | internal/authz/policy_marker_log.go:34-59 | the same for marker records |
| `FixtureCommitments.CollectionCommits` | internal/authz/policy_export_index.go:62-88 | valid collections with one hash list the same record hashes |
| `FixtureCommitments.CollectionDetermines` | internal/authz/policy_export_index.go:62-88 | valid collections of sealed records with one hash hold the same records |
| `FixtureCommitments.CatalogCommits` | internal/authz/policy_artifact.go:169-187 | valid catalogs with one hash hold the same artifact records |
| `FixtureCommitments.IndexCommits` | internal/authz/policy_export_index.go:34-88 | valid export indexes with one hash hold the same export records |
| `FixtureCommitments.SummaryConserves` | internal/authz/policy_snapshot.go:177-205 | the counts by family and by decision each add up to the number of snapshots |
| `FixtureContents.SummaryCommits` | internal/authz/policy_snapshot.go:177-299 | summaries with one hash count as many snapshots, and as many of each family, decision and mode |
| `FixtureContents.SnapshotsOrdered` | internal/authz/policy_snapshot.go:262-272 | snapshots come by family, then fixture name, then hash |
| `FixtureContents.CatalogOrdered` | internal/authz/policy_artifact.go:141-167 | catalog records come by kind, then artifact hash |
| `FixtureContents.IndexOrdered` | internal/authz/policy_export_index.go:34-60 | export records come by kind, then name |
| `FixtureContents.LedgerOrdered` | internal/authz/policy_release_ledger.go:34-59 | releases come by time, then hash |
| `FixtureContents.LogOrdered` | internal/authz/policy_marker_log.go:34-59 | markers come by time, then hash |
| `FixtureCommitments.BundleCommits` | internal/authz/policy_bundle.go:58-95 | valid bundles with one hash hold the same snapshots, the order of modes aside |
| `FixtureCommitments.ManifestDetermined` | internal/authz/policy_bundle.go:124-159 | the digested text of a valid manifest determines its hashes |
| `FixtureCommitments.ReleaseCommits` | internal/authz/policy_release_record.go:25-77 | equal releases come from the same snapshots, the same bundle hash, summary hash and snapshot hashes in the manifest, the same catalog records, export records and check |
| `FixtureCommitments.LedgerCommits` | internal/authz/policy_release_ledger.go:61-87 | valid ledgers with one hash hold the same releases |
| `FixtureCommitments.MarkedReleaseIsLedgered` | internal/authz/policy_marker_record.go:21-81 | a marked release is in the ledger it was marked in |
| `FixtureCommitments.MarkerCommits` | internal/authz/policy_marker_record.go:21-68 | markers with one hash mark the same release of the same ledger under the same review |
| `FixtureCommitments.ChainCommits` | internal/authz/policy_marker_record.go:21-68 | one marker hash fixes the snapshots, catalog records, export records and releases of the whole chain |
| `FixtureCommitments.LogCommits` | internal/authz/policy_marker_log.go:61-87 | valid marker logs with one hash hold the same markers |
| `FixtureCommitments.LogChainCommits` | internal/authz/policy_marker_log.go:18-87 | one log hash fixes the markers and, behind each, its release, ledger, snapshots, catalog records and export records |
| `FixtureReleases.CatalogHasIff` | internal/authz/policy_artifact.go:237-248 | a valid catalog lists an artifact if and only if some record of it has that kind and hash |
| `FixtureReleases.LedgerHasIff` | internal/authz/policy_marker_record.go:70-81 | a valid ledger lists a release if and only if some record of it has that hash |
| `FixtureReleases.ReleaseMadeIff` | internal/authz/policy_release_record.go:25-77 | a release is made if and only if its five parts are valid and the time is not negative, the manifest names the bundle, the check names the index with status ok, and the catalog records bundle and manifest |
| `FixtureReleases.MarkerMadeIff` | internal/authz/policy_marker_record.go:21-68 | a marker is made if and only if release, ledger and review are valid, the review names the ledger with status ok, the ledger records the release, and tag and time are valid |
| `FixtureReleases.ReviewMadeIff` | internal/authz/policy_release_review.go:27-62 | a check or review is made if and only if the time is not negative and what it is of carries a hash; its status is then ok if and only if that is valid |
| `FixtureReleases.CheckedReleaseIff` | internal/authz/policy_export_check.go:27-42 | with the check that the code itself makes of the index, a release is made if and only if the other parts are valid and fit together |
| `FixtureReleases.LogReviewed` | internal/authz/policy_marker_log.go:18-87 | behind every marker of a valid log with its steps stand an export check and a ledger review with status ok |
| `ReplayCache.Cache.constructor` | internal/authn/replay_cache.go:33-44 | an empty cache with the configured or the default capacity |
| `ReplayCache.Cache.Cleanup` | internal/authn/replay_cache.go:137-150 | exactly the expired keys are removed |
| `ReplayCache.Cache.Size` | internal/authn/replay_cache.go:130-134 | the number of entries |
| `ReplayCache.Cache.Store` | internal/authn/replay_cache.go:48-127 | the verdict and the entries afterwards: expired keys purged, a full cache rid of a tenth of its capacity, the key recorded |
| `ReplayHistory.RefusedIffRemembered` | internal/authn/replay_cache.go:48-127 | in every run with a clock that never runs back, a key is refused if and only if an accepted store of it has neither expired nor been evicted |
| `ReplayHistory.UnboundedUntilEviction` | internal/authn/replay_cache.go:48-127 | until a key is first evicted the cache answers for it like the unbounded history |
| `ReplayHistory.AcceptedTwiceSeparated` | internal/authn/replay_cache.go:48-127 | two accepted stores of one key with no eviction of it between them are separated by the recorded expiry of the first |
| `ReplayHistory.SizeBounded` | internal/authn/replay_cache.go:48-127 | no run exceeds the capacity |
| `ReplayHistory.CallKeeps` | internal/authn/replay_cache.go:48-127 | in every run an accepted store into a full cache keeps exactly nine tenths of the live keys, rounded down; every other call keeps all of them |
| `DpopProof.ReplayKeyInjective` | internal/authn/dpop.go:230-233 | a replay key determines the thumbprint and the identifier |
| `DpopProof.VerifyTimeAndReplay` | internal/authn/dpop.go:81-115 | a proof is accepted if and only if it is in the time window and its key is not remembered, and what the cache holds afterwards |
| `DpopProof.CallIsStore` | internal/authn/dpop.go:84-115 | a verification that reaches the cache extends a lawful run of the cache by one store, with the same verdict and entries |
| `DpopProof.AcceptedTwiceIff` | internal/authn/dpop.go:84-115 | some run of the cache accepts one proof twice, without evicting it in between, if and only if window, skew and the delay between the two clock readings leave room for it |
| `DpopProof.AcceptancesBounded` | internal/authn/dpop.go:84-115 | in every run one proof is accepted once, or at most twice and once more for every full minute of skew and delay |
| `DpopProof.BoundReached` | internal/authn/dpop.go:84-115 | with a positive window and a skew that is not negative some run reaches that bound |
| `RateLimiter.NewRateLimiter` | internal/authz/fixture_distribution_transport.go:109-119 | a full bucket, and none for a rate that is not positive |
| `RateLimiter.Limiter.Allow` | internal/authz/fixture_distribution_transport.go:122-153 | the verdict and the bucket afterwards |
| `RateLimiter.TokensBounded` | internal/authz/fixture_distribution_transport.go:122-153 | in every run the tokens stay between none and the capacity |
| `RateLimiter.WindowBalance` | internal/authz/fixture_distribution_transport.go:122-153 | grants in a window and tokens left never exceed the capacity and what the window earns |
| `RateLimiter.WindowBound` | internal/authz/fixture_distribution_transport.go:122-153 | no window of any run grants more than the capacity and what its time earns |
| `RateLimiter.RefillKeeps` | internal/authz/fixture_distribution_transport.go:122-153 | a refill loses no token: it fills the bucket or adds all but a fraction of what was earned |
| `RateLimiter.HeldTokensGrant` | internal/authz/fixture_distribution_transport.go:122-153 | in every run a bucket that holds n tokens grants each of the next n calls |
| `RateLimiter.RefusedIff` | internal/authz/fixture_distribution_transport.go:122-153 | in every run a call is refused if and only if the bucket is empty and the time since the call before is worth less than a token |
| `RateLimiter.EmptyBucketGrantsIff` | internal/authz/fixture_distribution_transport.go:122-153 | fractions are lost at each call: an empty bucket grants again if and only if some gap between calls is worth a whole token |
| `RateLimiter.Limiter.Wait` | internal/authz/fixture_distribution_transport.go:156-174 | polls until the first grant or until cancelled, and the bucket afterwards |
| `RateLimiter.WaitGrants` | internal/authz/fixture_distribution_transport.go:156-174 | a wait on an empty bucket, polling at once and then every 100 milliseconds or later, ends by the second poll from ten tokens a second on; below, once refused it never ends while each poll comes less than a token's time after the one before |
| `RateLimiter.WaitEndsIff` | internal/authz/fixture_distribution_transport.go:156-174 | with timers on time, such a wait is granted if and only if a token was earned before it, or it polls twice and the rate is at least ten a second |
| `Backoff.NewBackoffEvaluator` | internal/authz/backoff_evaluator.go:35-60 | defaults for zero, refusal exactly of delays that are not positive and ordered |
| `Backoff.DelayForFailures` | internal/authz/backoff_evaluator.go:98-114 | the doubling loop computes the delay without leaving 64 bits |
| `Backoff.DelayInRange` | internal/authz/backoff_evaluator.go:98-114 | the delay lies between base and maximum |
| `Backoff.DelayMonotone` | internal/authz/backoff_evaluator.go:98-114 | more failures never shorten it |
| `Backoff.ExactIff` | internal/authz/backoff_evaluator.go:98-114 | exactly when it is the capped exponential |
| `Backoff.WithinOne` | internal/authz/backoff_evaluator.go:98-114 | up to 31 failures it is at most one nanosecond above the capped exponential |
| `Backoff.Evaluator.Evaluate` | internal/authz/backoff_evaluator.go:62-96 | the outcome of a call and the state it leaves |
| `Backoff.StateExplained` | internal/authz/backoff_evaluator.go:62-96 | in every sequential run the state is given by the failed attempts at the end |
| `Backoff.AttemptIff` | internal/authz/backoff_evaluator.go:62-96 | in every sequential run the inner evaluator is called if and only if the delay since the last failure has passed |
| `WebIdCache.Cache.constructor` | internal/authn/webid_cache.go:157-194 | an empty cache with the configured or the default capacity |
| `WebIdCache.Cache.SetWithTtl` | internal/authn/webid_cache.go:306-360 | which arguments are refused, which entry a full cache gives up, and the entries afterwards, with the two readings of the clock |
| `WebIdCache.Cache.EvictOldest` | internal/authn/webid_cache.go:370-385 | the scan in any order removes an entry fetched no later than any other |
| `WebIdCache.Cache.Get` | internal/authn/webid_cache.go:235-265 | finds an entry that has not expired and counts the hit or the miss |
| `WebIdCache.Cache.CleanupExpired` | internal/authn/webid_cache.go:215-232 | exactly the expired entries are removed and counted |
| `WebIdCache.Cache.Invalidate` | internal/authn/webid_cache.go:388-402 | exactly the given entry is removed |
| `WebIdHistory.StoreIsStep` | internal/authn/webid_cache.go:306-360 | a store of the cache is a step of the runs below |
| `WebIdHistory.CacheIsMostRecent` | internal/authn/webid_cache.go:306-385 | in every run of stores under an increasing clock the cache holds exactly the WebIDs stored last |
| `WebIdHistory.HeldIffFewLater` | internal/authn/webid_cache.go:306-385 | a WebID is held if and only if fewer others than the capacity were stored after it |
| `KeyTracker.Tracker.RegisterKey` | internal/authn/dpop_key_rotation.go:174-221 | success and the new state, eviction in a full tracker at its own reading of the clock included |
| `KeyTracker.Tracker.RegisterKeyWithWebId` | internal/authn/dpop_key_rotation.go:224-243 | registration, then any other calls, then binding to a WebID |
| `KeyTracker.Tracker.RecordKeyUsage` | internal/authn/dpop_key_rotation.go:246-270 | the use is recorded and the key bound |
| `KeyTracker.Tracker.RotateKeys` | internal/authn/dpop_key_rotation.go:273-356 | the part of a check that holds the lock: whether there was a rotation, whether the new key is missing, and the new state |
| `KeyTracker.Tracker.CheckKeyRotation` | internal/authn/dpop_key_rotation.go:273-356 | whether there was a rotation and the new state; a missing new key is registered after any other calls, with others between the two parts |
| `KeyTracker.Tracker.InvalidateKey` | internal/authn/dpop_key_rotation.go:423-432 | the key becomes inactive, all else unchanged |
| `KeyTracker.Tracker.InvalidateKeysByWebId` | internal/authn/dpop_key_rotation.go:435-449 | the keys of the WebID become inactive, each at its own reading of the clock, and its bucket is dropped |
| `KeyTracker.Tracker.EvictInactiveKeys` | internal/authn/dpop_key_rotation.go:453-473 | the loop over the keys in any order removes the stale ones from all three maps |
| `KeyTracker.Tracker.Clear` | internal/authn/dpop_key_rotation.go:491-499 | the empty state |
| `KeyTrackerHistory.RunSound` | internal/authn/dpop_key_rotation.go:174-499 | in every run, however the parts of calls are interleaved, the limit holds and no bucket is empty |
| `KeyTrackerHistory.StepTracksIff` | internal/authn/dpop_key_rotation.go:174-499 | a section keeps every bound key tracked if and only if it does not bind a key that is not tracked |
| `KeyTrackerHistory.TracksThroughoutIff` | internal/authn/dpop_key_rotation.go:174-499 | in every interleaved run all bound keys are tracked throughout if and only if every binding finds its key tracked |
| `KeyTrackerHistory.UninterruptedTracks` | internal/authn/dpop_key_rotation.go:174-499 | in every run of calls that do not overlap all bound keys are tracked throughout |
| `KeyTrackerHistory.AssociateInverseIff` | internal/authn/dpop_key_rotation.go:230-238 | binding keeps the two indexes inverse if and only if the key is unbound or bound to the same WebID |
| `KeyTrackerHistory.InvalidateInverseIff` | internal/authn/dpop_key_rotation.go:435-449 | bulk invalidation keeps them inverse if and only if the WebID has no keys |
| `KeyTrackerHistory.WithoutInverse` | internal/authn/dpop_key_rotation.go:453-473 | eviction keeps the indexes inverse |
| `KeyTrackerHistory.EvictionRemoves` | internal/authn/dpop_key_rotation.go:453-473 | eviction removes exactly the inactive keys past their expiration |
| `KeyTrackerHistory.StepInverseIff` | internal/authn/dpop_key_rotation.go:174-499 | a section keeps the two indexes inverse if and only if it neither binds a key bound to another WebID nor invalidates a WebID that has keys |
| `KeyTrackerHistory.InverseThroughoutIff` | internal/authn/dpop_key_rotation.go:174-499 | in every interleaved run the indexes are exact inverses throughout if and only if every section is such |
| `KeyTrackerHistory.RebindBreaks` | internal/authn/dpop_key_rotation.go:246-270 | a key registered with one WebID and used with another leaves the indexes not inverse |
| `KeyTrackerHistory.InvalidationBreaks` | internal/authn/dpop_key_rotation.go:435-449 | so does invalidating a WebID with a key |
| `KeyTrackerHistory.ClearBetweenParts` | internal/authn/dpop_key_rotation.go:224-243 | a clear between the two parts of a registration leaves a bound key that is not tracked |
| `KeyTrackerEvents.TrackedIff` | internal/authn/dpop_key_rotation.go:174-499 | in every interleaved run a key is tracked if and only if a registration of it succeeded and neither a clear nor an eviction of it came since |
| `KeyTrackerEvents.ActiveIff` | internal/authn/dpop_key_rotation.go:174-449 | in every run a tracked key is active if and only if no rotation away from it and no invalidation of it came after its last registration, use or rotation to it |
| `KeyTrackerEvents.LastSeenIs` | internal/authn/dpop_key_rotation.go:174-449 | it was last seen at its last registration, rotation or invalidation |
| `KeyTrackerEvents.FirstSeenIs` | internal/authn/dpop_key_rotation.go:205-217 | it was first seen at the last registration that found it untracked |
| `KeyTrackerEvents.DescribedBy` | internal/authn/dpop_key_rotation.go:185-217 | its type and algorithm are those of its last registration |
| `KeyTrackerEvents.UseCountIs` | internal/authn/dpop_key_rotation.go:246-258 | its use count is that of its uses since it was last new |
| `KeyTrackerEvents.LastUsedIs` | internal/authn/dpop_key_rotation.go:246-330 | a last use is kept if and only if it was used or rotated to since it was last new, and is the time of the last such event |
| `KeyTrackerEvents.EvictedIff` | internal/authn/dpop_key_rotation.go:453-473 | an event that evicts takes away exactly the tracked keys that were retired and not activated since, and were last seen longer ago than the expiration |
| `KeyTrackerEvents.ForgottenBy` | internal/authn/dpop_key_rotation.go:174-499 | only a clear or an evicting event takes a key away |
| `KeyTrackerEvents.BoundIff` | internal/authn/dpop_key_rotation.go:224-473 | in every run a key is bound to a WebID if and only if some event bound it there and it was neither forgotten nor bound elsewhere since; likewise for the lists of the WebIDs |
| `KeyTrackerEvents.RotationIff` | internal/authn/dpop_key_rotation.go:273-330 | in every run a rotation takes place if and only if the keys differ, history has both tracked, and it binds them to one WebID or neither to a nonempty one |
| `ExchangeSort.Sort` | internal/authz/fixture_distribution.go:331-340 | the nested loops in place compute the exchange sort |
| `ExchangeSort.ExchangedMultiset` | internal/authz/fixture_distribution.go:331-340 | its result is a permutation of the input |
| `ExchangeSort.ExchangedAscending` | internal/authz/fixture_distribution.go:331-340 | its result is sorted |
| `ExchangeSort.HashListsForgetOrder` | internal/authz/fixture_distribution.go:331-340 | two lists of hashes have one sorted form if and only if one is a permutation of the other |
| `ExchangeSort.IndexOrderIrrelevantIff` | internal/authz/fixture_distribution.go:404-426 | sorting records by identifier gives one result for every order of the input if and only if no two different records share an identifier |
| `ExchangeSort.DifferentForSomeOrder` | internal/authz/fixture_distribution.go:404-426 | with such a pair some order gives another result |
| `DistributionHashes.JobHash` | internal/authz/fixture_distribution.go:347-375 | the digest of the text with the bundle hashes sorted in place |
| `DistributionHashes.ReceiptHash` | internal/authz/fixture_distribution.go:378-401 | the digest of the text with the received hashes sorted in place |
| `DistributionHashes.TargetHash` | internal/authz/fixture_distribution.go:316-344 | the digest of the text with the allowed hashes sorted in place |
| `DistributionHashes.IndexHash` | internal/authz/fixture_distribution.go:404-436 | the digest of the text with jobs and targets sorted by identifier |
| `DistributionHashes.JobOrderIrrelevant` | internal/authz/fixture_distribution.go:347-375 | another order of the listed hashes gives the same digested text, whatever the strings; among lists of non-empty strings without spaces only other orders do |
| `DistributionHashes.ReceiptOrderIrrelevant` | internal/authz/fixture_distribution.go:378-401 | the same for receipts |
| `DistributionHashes.TargetOrderIrrelevant` | internal/authz/fixture_distribution.go:316-344 | the same for targets |
| `DistributionHashes.HashesAreWords` | internal/authz/fixture_distribution.go:347-375 | valid hashes are such strings |
| `DistributionHashes.JobListsCollide` | internal/authz/fixture_distribution.go:347-375 | without that the converse fails: a list of one string with a space and a list of two strings give one text |
| `DistributionHashes.DeterminedIff` | internal/authz/fixture_distribution.go:331-340 | a list of any strings is determined, its order aside, by its sorted text if and only if it is one non-empty string that no space splits in order |
| `DistributionHashes.JobListDeterminedIff` | internal/authz/fixture_distribution.go:347-375 | the digested text of a job determines its list of hashes among all lists if and only if the list is of that kind |
| `DistributionHashes.ReceiptListDeterminedIff` | internal/authz/fixture_distribution.go:378-401 | the same for receipts |
| `DistributionHashes.TargetListDeterminedIff` | internal/authz/fixture_distribution.go:316-344 | the same for targets |
| `DistributionRecords.JobDetermined` | internal/authz/fixture_distribution.go:347-375 | two jobs whose strings, but for the error message, hold no colon and whose lists hold hashes have one text if and only if they are equal, the order of hashes and the status aside, which the text omits |
| `DistributionRecords.ReceiptDetermined` | internal/authz/fixture_distribution.go:378-401 | the same for receipts, but for the verification status |
| `DistributionRecords.TargetDetermined` | internal/authz/fixture_distribution.go:316-344 | the same for targets, but for the URL; the text omits the token |
| `DistributionRecords.JobDeterminedIff` | internal/authz/fixture_distribution.go:347-375 | a job with no colon in its list, manifest hash and error message is determined by its text among all jobs if and only if its identifiers and catalog hash hold none either and its list is determined |
| `DistributionRecords.ReceiptDeterminedIff` | internal/authz/fixture_distribution.go:378-401 | the same for receipts |
| `DistributionRecords.TargetDeterminedIff` | internal/authz/fixture_distribution.go:316-344 | a target with no colon in its list is determined by its text among all targets if and only if none of its strings, the URL included, holds one and its list is determined |
| `DistributionRecords.JobShifted` | internal/authz/fixture_distribution.go:347-375 | with a colon in an identifier or the catalog hash another job has the same text |
| `DistributionRecords.TargetShifted` | internal/authz/fixture_distribution.go:316-344 | with a colon in any string, such as a URL with a scheme, another target has the same text |
| `DistributionHashes.IndexOrderIrrelevant` | internal/authz/fixture_distribution.go:404-436 | when identifiers determine jobs and targets, their order is irrelevant to the digested text |
| `WacVocabulary.ModeParsedIff` | internal/authz/wac_parser.go:337-374 | an object names a mode if and only if, trimmed, in lower case and without angle brackets, it is the mode or ends with it after a hash sign, a slash or a colon |
| `WacRules.FindAuthorizationUris` | internal/authz/wac_parser.go:257-275 | the subjects declared to be authorizations, each once, in order of first appearance |
| `WacRules.DeclaredIff` | internal/authz/wac_parser.go:257-275 | a text is declared an authorization if and only if it is not empty and is the trimmed subject of a triple with "type" in its predicate and "Authorization" in its object |
| `WacRules.FindTriplesForSubject` | internal/authz/wac_parser.go:326-334 | the triples of the subject, in order |
| `WacRules.ExtractRulesForAuthorization` | internal/authz/wac_parser.go:278-323 | one rule when it is complete, none when it is blank, an error otherwise |
| `WacRules.ExtractWacRules` | internal/authz/wac_parser.go:235-254 | the rules of all authorizations in order, or an error |
| `WacVocabulary.PropertyRole` | internal/authz/wac_parser.go:289-309 | every property of the vocabulary is read in its own role, and only the type property declares an authorization |
| `WacVocabulary.ModeAfterHash` | internal/authz/wac_parser.go:337-374 | an IRI names the mode after its last hash sign |
| `WacVocabulary.ModeClassRead` | internal/authz/wac_parser.go:337-374 | each mode is read back from its class in the vocabulary |
| `WacRoundTrip.FailsIff` | internal/authz/wac_parser.go:235-323 | extraction fails if and only if some declared authorization states some of a resource, an agent, a class and a mode, but not a resource, an agent or class, and a mode together |
| `WacRoundTrip.WithoutResource` | internal/authz/wac_parser.go:278-323 | an authorization that names no resource is skipped if and only if it names no agent, class or mode; otherwise the whole extraction fails |
| `WacRoundTrip.InheritedRefused` | internal/authz/wac_parser.go:278-323 | the rule for what a container holds, with the container as object of the default property, is refused |
| `WacRoundTrip.ExtractedMeaning` | internal/authz/wac_parser.go:235-323 | every extracted rule has a resource, an agent or class, and a mode; authorizations are distinct; and the rules are exactly those that declared authorizations state in full, with the last text of each role and the modes named |
| `WacRoundTrip.AbsorbedDetermined` | internal/authz/wac_parser.go:278-310 | a rule depends only on the last object in each role and on the list of modes |
| `WacRoundTrip.RoundTripIff` | internal/authz/wac_parser.go:235-374 | rules written as triples, in any arrangement that keeps the order of declarations and of each subject's modes, are read back unchanged if and only if each is well formed and no two share an authorization |
| `PolicyRecords.CacheKeys` | internal/authz/policy_loading.go:152-164 | two sources share a key if and only if both are invalid or both have one normal form |
| `PolicyRecords.RecordHolds` | internal/authz/policy_loading.go:166-198 | a record built from a load holds its content, the hash of that content and the given times |
| `PolicyRecords.NormalizeKeeps` | internal/authz/policy_loading.go:267-306 | normalising a record keeps content, times and hash, and sets state and key |
| `PolicyRecords.NormalizePolicyCacheRecords` | internal/authz/policy_loading.go:236-265 | computes the normal form of the records |
| `PolicyRecords.RecordsOrdered` | internal/authz/policy_loading.go:236-265 | the records come in the order of their keys, one for each |
| `PolicyRecords.OrderIrrelevantIff` | internal/authz/policy_loading.go:236-265 | any list of cache records that normalises does so to one result in every order if and only if no two records share a key and differ in their normal forms |
| `PolicyRecords.OrderMatters` | internal/authz/policy_loading.go:246-252 | the law fails for every valid record with a version: that record and the same one loaded a second later share a key and agree, and whichever comes first is kept |
| `CachedLoader.Store.constructor` | internal/authz/policy_refresh.go:44-54 | an empty store |
| `CachedLoader.Store.GetPolicyCacheRecord` | internal/authz/policy_refresh.go:56-78 | the normalised record under the key, nothing, or an error |
| `CachedLoader.Store.PutPolicyCacheRecord` | internal/authz/policy_refresh.go:80-98 | the normalised record under its key, or an error and no change |
| `CachedLoader.CachedPolicyLoader.constructor` | internal/authz/policy_cached_loader.go:82-100 | all counters zero, five minutes for an expiry of zero |
| `CachedLoader.CachedPolicyLoader.StoreInCache` | internal/authz/policy_cached_loader.go:184-210 | the record kept of a load, or an error and no change |
| `CachedLoader.CachedPolicyLoader.Begin` | internal/authz/policy_cached_loader.go:103-162 | the look-up: what is served, and the counters afterwards |
| `CachedLoader.CachedPolicyLoader.End` | internal/authz/policy_cached_loader.go:163-181 | what follows a load: the record stored and the counters |
| `CachedLoader.CachedPolicyLoader.LoadPolicySource` | internal/authz/policy_cached_loader.go:103-181 | the answer, the new store and the new counters of one call, whatever parts of other calls come while it loads |
| `CachedLoaderHistory.StoreIsNewest` | internal/authz/policy_cached_loader.go:103-210 | after every run, however calls overlap, the store holds under each key the record of the last event that stored under it |
| `CachedLoaderHistory.NewestMeaning` | internal/authz/policy_cached_loader.go:103-210 | that event stored under the key and no later one did |
| `CachedLoaderHistory.HitIsNewestLoad` | internal/authz/policy_cached_loader.go:120-149 | after every run of overlapping calls a call is served from the cache if and only if the last load stored under its key is readable and younger than the expiry in whole seconds; it gets that content byte for byte with the hash of that content |
| `CachedLoaderHistory.UntypedNeverServed` | internal/authz/policy_cached_loader.go:184-210 | a source that names no content type is never served from the cache |
| `CachedLoaderHistory.StaleIff` | internal/authz/policy_loading.go:226-234 | a record is found stale if and only if it was stored at time zero |
| `CachedLoaderHistory.CountsBalance` | internal/authz/policy_cached_loader.go:103-181 | however calls overlap, hits, misses and errors add up to the calls, and misses to the loads done and under way, each stale record found counting one miss more |
| `CachedLoaderHistory.CountsIff` | internal/authz/policy_cached_loader.go:103-181 | once no call is loading, hits and misses add up to the calls and loads to the misses if and only if there was no cache error and no stale record was found; positive store times rule out the latter |
| `CachedLoaderHistory.StaleCountsTwice` | internal/authz/policy_cached_loader.go:151-163 | a load stored at time zero and asked for again counts three misses in two calls |
| `CachedLoaderHistory.SettledHits` | internal/authz/policy_cached_loader.go:103-149 | when canonical media types are their own canonical form, every stored load is readable and the cache fails only on cancelled calls and invalid sources |
| `CachedLoaderServing.RecordMadeIff` | internal/authz/policy_loading.go:166-198 | a record is made if and only if the times are not negative, the source is valid and names a content type, the content has 1 byte to 1 mebibyte, and a given version is short and without control characters |
| `CachedLoaderServing.KeptIff` | internal/authz/policy_cached_loader.go:184-210 | the outcome of a call is kept if and only if something loaded can be kept so, at a time that is not negative, and storing was not cancelled |
| `CachedLoaderServing.ServedIff` | internal/authz/policy_cached_loader.go:103-182 | however calls are interleaved, a call is served from the cache if and only if it is not cancelled, its source is valid and the last load kept for that source is in time; it gets the content of that load |
| `RefreshPlan.BuildPolicyRefreshPlan` | internal/authz/policy_refresh.go:139-197 | computes the plan |
| `RefreshPlan.PlanMeaning` | internal/authz/policy_refresh.go:139-232 | when a plan exists; its items are the normal sources in another order, now if and only if the record is missing, expired or stale, later if and only if it is fresh and expires within the window, else skipped, no next check before now; what is due now comes first and what is skipped last, within one action the earlier check first, then the lesser key |
| `RefreshPlan.PlanForgetsOrder` | internal/authz/policy_refresh.go:139-232 | the plan does not depend on the order of sources, nor on that of records with one normal form for each key |

## Left out

- Network and process code: HTTP, S3, SSH and file transports, JWKS and OIDC discovery, external evaluators.
- Signature verification, JWK, base64, JSON, MIME, URL and RDF syntax parsing: library behaviour, kept as abstract functions or left out.
- WAC, ACP and SAI evaluator entry points, the caching evaluator and compression.
- Logging, audit records, metrics snapshots, tracing and redaction.
- Rule limits and per-rule validation after extraction in the WAC parser, and cancellation during extraction.
- The version string of a refresh plan, and the listing method of the record store.
- The second mutex of the rate limiter.
- Lower case and upper case beyond ASCII letters, and text that is not valid UTF-8.
- Wrap-around of 64-bit counters and times, other than in the backoff delay, where it is proved not to occur.
- Rounding of floating-point percentages, rates and seconds.
- Aliasing of key records handed out by the key tracker, and of byte slices, which the code copies.
- Overlapping calls of the backoff evaluator: its runs are sequential.
- The cleanup goroutine of the WebID cache: cleaning is a method that may be called at any time.
- The content field of policy documents, and errors other than their presence.
- The formatting of whole job and target records inside the index text: an arbitrary function of the sorted lists.
