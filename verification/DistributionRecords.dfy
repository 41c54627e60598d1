/** When the digested text of a distribution job, receipt or target determines the record
    (internal/authz/fixture_distribution.go): its parts stand between colons, and the code accepts
    colons in the parts. */
module DistributionRecords {

  import opened Text
  import opened ColonText
  import opened Sorting
  import opened ExchangeSort
  import opened DistributionHashes

  // ---------------------------------------------------------------- parts without colons

  lemma {:induction false} SpacedColonless(parts: seq<string>)
    requires AllColonless(parts)
    ensures Colons(Spaced(parts)) == 0
  {
    if |parts| <= 1 {
    } else {
      SpacedColonless(parts[1..]);
      assert multiset(Spaced(parts)) == multiset(parts[0]) + multiset(" ") + multiset(Spaced(parts[1..]));
    }
  }

  lemma ListColonless(parts: seq<string>)
    requires AllColonless(parts)
    ensures Colons(SortedText(parts)) == 0
  {
    var s := Exchanged(Less, parts);
    ExchangedMultiset(Less, parts);
    SameElements(s, parts);
    forall i | 0 <= i < |s| ensures Colons(s[i]) == 0 {
      assert s[i] in parts;
    }
    SpacedColonless(s);
    assert multiset(Printed(s)) == multiset("[") + multiset(Spaced(s)) + multiset("]");
  }

  lemma BoolColonless(b: bool)
    ensures Colons(PrintedBool(b)) == 0
  {
    ColonlessIff(PrintedBool(b));
  }

  lemma BoolInjective(a: bool, b: bool)
    requires PrintedBool(a) == PrintedBool(b)
    ensures a == b
  {
    assert |PrintedBool(a)| == if a then 4 else 5;
  }

  lemma Two(a: string, b: string)
    requires Colons(a) == 0 && Colons(b) == 0
    ensures AllColonless([a, b])
  {
  }

  lemma Three(a: string, b: string, c: string)
    requires Colons(a) == 0 && Colons(b) == 0 && Colons(c) == 0
    ensures AllColonless([a, b, c])
  {
  }

  lemma Five(a: string, b: string, c: string, d: string, e: string)
    requires Colons(a) == 0 && Colons(b) == 0 && Colons(c) == 0 && Colons(d) == 0 && Colons(e) == 0
    ensures AllColonless([a, b, c, d, e])
  {
  }

  lemma Append(a: seq<string>, b: seq<string>)
    ensures AllColonless(a + b) <==> AllColonless(a) && AllColonless(b)
  {
    if AllColonless(a + b) {
      forall i | 0 <= i < |a| ensures Colons(a[i]) == 0 {
        assert (a + b)[i] == a[i];
      }
      forall i | 0 <= i < |b| ensures Colons(b[i]) == 0 {
        assert (a + b)[|a| + i] == b[i];
      }
    }
  }

  // ---------------------------------------------------------------- jobs

  /** The same job, its status and the order of its hashes aside. */
  ghost predicate SameJob(a: Job, b: Job) {
    && a.(status := "", bundleHashes := []) == b.(status := "", bundleHashes := [])
    && multiset(a.bundleHashes) == multiset(b.bundleHashes)
  }

  /** The strings before the list hold no colon. */
  predicate JobIdsColonless(j: Job) {
    Colons(j.distributionId) == 0 && Colons(j.targetId) == 0 && Colons(j.catalogHash) == 0
  }

  function JobTimes(j: Job): seq<string> {
    [j.manifestHash, Decimal(j.createdAt), Decimal(j.startedAt), Decimal(j.completedAt), Decimal(j.attemptCount)]
  }

  /** The parts before the error message. */
  function JobHead(j: Job): seq<string> {
    JobBefore(j) + ([SortedText(j.bundleHashes)] + JobTimes(j))
  }

  lemma JobParts(j: Job)
    ensures JobPreimage(j) == Joined(JobHead(j) + [j.errorMessage] + [Decimal(j.lastAttemptAt)])
  {
    assert JobBefore(j) + [SortedText(j.bundleHashes)] + JobAfter(j)
        == JobHead(j) + [j.errorMessage] + [Decimal(j.lastAttemptAt)];
  }

  lemma JobTimesColonless(j: Job)
    requires Colons(j.manifestHash) == 0
    ensures AllColonless(JobTimes(j))
  {
    DecimalColonless(j.createdAt);
    DecimalColonless(j.startedAt);
    DecimalColonless(j.completedAt);
    DecimalColonless(j.attemptCount);
    Five(j.manifestHash, Decimal(j.createdAt), Decimal(j.startedAt), Decimal(j.completedAt), Decimal(j.attemptCount));
  }

  lemma JobHeadColonless(j: Job)
    requires JobIdsColonless(j) && AllColonless(j.bundleHashes) && Colons(j.manifestHash) == 0
    ensures AllColonless(JobHead(j))
  {
    ColonlessIff("job");
    ListColonless(j.bundleHashes);
    JobTimesColonless(j);
    Append([SortedText(j.bundleHashes)], JobTimes(j));
    Append(JobBefore(j), [SortedText(j.bundleHashes)] + JobTimes(j));
  }

  lemma JobTimesDetermined(a: Job, b: Job)
    requires JobTimes(a) == JobTimes(b)
    ensures a.manifestHash == b.manifestHash && a.createdAt == b.createdAt && a.startedAt == b.startedAt
    ensures a.completedAt == b.completedAt && a.attemptCount == b.attemptCount
  {
    var x, y := JobTimes(a), JobTimes(b);
    assert x[0] == y[0] && x[1] == y[1] && x[2] == y[2] && x[3] == y[3] && x[4] == y[4];
    DecimalInjective(a.createdAt, b.createdAt);
    DecimalInjective(a.startedAt, b.startedAt);
    DecimalInjective(a.completedAt, b.completedAt);
    DecimalInjective(a.attemptCount, b.attemptCount);
  }

  lemma JobHeadDetermined(a: Job, b: Job)
    requires JobHead(a) == JobHead(b) && a.errorMessage == b.errorMessage && Decimal(a.lastAttemptAt) == Decimal(b.lastAttemptAt)
    ensures a.(status := "", bundleHashes := []) == b.(status := "", bundleHashes := [])
    ensures SortedText(a.bundleHashes) == SortedText(b.bundleHashes)
  {
    var x, y := JobHead(a), JobHead(b);
    assert x[1] == y[1] && x[2] == y[2] && x[3] == y[3] && x[4] == y[4];
    assert JobTimes(a) == x[5..] && JobTimes(b) == y[5..];
    JobTimesDetermined(a, b);
    DecimalInjective(a.lastAttemptAt, b.lastAttemptAt);
  }

  /** Two jobs that list hashes, and whose strings hold no colon but for the error message, have one
      text if and only if they are the same, the status and the order of the hashes aside. */
  lemma JobDetermined(a: Job, b: Job)
    requires JobIdsColonless(a) && AllColonless(a.bundleHashes) && Colons(a.manifestHash) == 0 && AllWords(a.bundleHashes)
    requires JobIdsColonless(b) && AllColonless(b.bundleHashes) && Colons(b.manifestHash) == 0 && AllWords(b.bundleHashes)
    ensures JobPreimage(a) == JobPreimage(b) <==> SameJob(a, b)
  {
    SortedTexts(a.bundleHashes, b.bundleHashes);
    if SameJob(a, b) {
      assert JobBefore(a) == JobBefore(b) && JobAfter(a) == JobAfter(b);
    }
    if JobPreimage(a) == JobPreimage(b) {
      JobParts(a);
      JobParts(b);
      JobHeadColonless(a);
      JobHeadColonless(b);
      DecimalColonless(a.lastAttemptAt);
      DecimalColonless(b.lastAttemptAt);
      MiddleDetermined(JobHead(a), a.errorMessage, [Decimal(a.lastAttemptAt)], JobHead(b), b.errorMessage, [Decimal(b.lastAttemptAt)]);
      assert [Decimal(a.lastAttemptAt)][0] == [Decimal(b.lastAttemptAt)][0];
      JobHeadDetermined(a, b);
    }
  }

  /** A text without colons in its parts determines all of a job but its status and its list, among all
      jobs. */
  lemma JobFieldsDetermined(a: Job, b: Job)
    requires JobIdsColonless(a) && AllColonless(a.bundleHashes) && Colons(a.manifestHash) == 0 && Colons(a.errorMessage) == 0
    requires JobPreimage(a) == JobPreimage(b)
    ensures a.(status := "", bundleHashes := []) == b.(status := "", bundleHashes := [])
    ensures SortedText(a.bundleHashes) == SortedText(b.bundleHashes)
  {
    var x, y := [a.errorMessage] + [Decimal(a.lastAttemptAt)], [b.errorMessage] + [Decimal(b.lastAttemptAt)];
    JobParts(a);
    JobParts(b);
    JobHeadColonless(a);
    DecimalColonless(a.lastAttemptAt);
    Append(JobHead(a), x);
    assert JobHead(a) + [a.errorMessage] + [Decimal(a.lastAttemptAt)] == JobHead(a) + x;
    assert JobHead(b) + [b.errorMessage] + [Decimal(b.lastAttemptAt)] == JobHead(b) + y;
    StretchesDetermined(JobHead(a), x, JobHead(b), y);
    assert x[0] == y[0] && x[1] == y[1];
    JobHeadDetermined(a, b);
  }

  lemma StretchesDetermined(a: seq<string>, x: seq<string>, b: seq<string>, y: seq<string>)
    requires |a| == |b| && |x| == |y| && a + x != [] && AllColonless(a + x) && Joined(a + x) == Joined(b + y)
    ensures a == b && x == y
  {
    JoinedDetermines(a + x, b + y);
    assert a == (a + x)[..|a|] && b == (b + y)[..|a|] && x == (a + x)[|a|..] && y == (b + y)[|a|..];
  }

  /** With a colon in a string before the list another job has the same text. */
  lemma JobShifted(a: Job) returns (b: Job)
    requires !JobIdsColonless(a)
    ensures JobPreimage(b) == JobPreimage(a) && !SameJob(a, b)
  {
    var rest := [SortedText(a.bundleHashes)] + JobAfter(a);
    if Colons(a.distributionId) != 0 {
      var x, y := SplitAtColon(a.distributionId);
      b := a.(distributionId := x, targetId := y + ":" + a.targetId);
      JobPair(a, b);
    } else if Colons(a.targetId) != 0 {
      var x, y := SplitAtColon(a.targetId);
      b := a.(distributionId := a.distributionId + ":" + x, targetId := y);
      JobPair(a, b);
    } else {
      var x, y := SplitAtColon(a.catalogHash);
      b := a.(targetId := a.targetId + ":" + x, catalogHash := y);
      PairText(["job", a.distributionId], a.targetId, a.catalogHash, b.targetId, b.catalogHash, rest);
      assert JobBefore(a) + [SortedText(a.bundleHashes)] + JobAfter(a)
          == ["job", a.distributionId] + [a.targetId, a.catalogHash] + rest;
      assert JobBefore(b) + [SortedText(b.bundleHashes)] + JobAfter(b)
          == ["job", a.distributionId] + [b.targetId, b.catalogHash] + rest;
      assert |b.catalogHash| < |a.catalogHash|;
    }
  }

  lemma JobPair(a: Job, b: Job)
    requires b == a.(distributionId := b.distributionId, targetId := b.targetId)
    requires a.distributionId + ":" + a.targetId == b.distributionId + ":" + b.targetId
    ensures JobPreimage(b) == JobPreimage(a)
  {
    var rest := [a.catalogHash] + [SortedText(a.bundleHashes)] + JobAfter(a);
    PairText(["job"], a.distributionId, a.targetId, b.distributionId, b.targetId, rest);
    assert JobBefore(a) + [SortedText(a.bundleHashes)] + JobAfter(a) == ["job"] + [a.distributionId, a.targetId] + rest;
    assert JobBefore(b) + [SortedText(b.bundleHashes)] + JobAfter(b) == ["job"] + [b.distributionId, b.targetId] + rest;
  }

  ghost predicate JobIsDetermined(a: Job) {
    forall b :: JobPreimage(b) == JobPreimage(a) ==> SameJob(a, b)
  }

  /** A job whose list, manifest hash and error message hold no colon is determined by its text among
      all jobs if and only if its identifiers and catalog hash hold none either, and its list is
      determined by the printed list. */
  lemma JobDeterminedIff(a: Job)
    requires AllColonless(a.bundleHashes) && Colons(a.manifestHash) == 0 && Colons(a.errorMessage) == 0
    ensures JobIsDetermined(a) <==> JobIdsColonless(a) && |a.bundleHashes| == 1 && Unsplit(a.bundleHashes[0])
  {
    DeterminedIff(a.bundleHashes);
    if !JobIdsColonless(a) {
      var b := JobShifted(a);
    } else if !Determined(a.bundleHashes) {
      var hashes := SameTextAs(a.bundleHashes);
      JobTextIs(a, hashes);
      assert !SameJob(a, a.(bundleHashes := hashes));
    } else {
      forall b | JobPreimage(b) == JobPreimage(a) ensures SameJob(a, b) {
        JobFieldsDetermined(a, b);
      }
    }
  }

  // ---------------------------------------------------------------- receipts

  ghost predicate SameReceipt(a: Receipt, b: Receipt) {
    && a.(receivedBundleHashes := []) == b.(receivedBundleHashes := [])
    && multiset(a.receivedBundleHashes) == multiset(b.receivedBundleHashes)
  }

  predicate ReceiptIdsColonless(r: Receipt) {
    Colons(r.distributionId) == 0 && Colons(r.targetId) == 0
  }

  /** The parts before the verification status. */
  function ReceiptHead(r: Receipt): seq<string> {
    ReceiptBefore(r) + [SortedText(r.receivedBundleHashes)]
  }

  lemma ReceiptHeadColonless(r: Receipt)
    requires ReceiptIdsColonless(r) && AllColonless(r.receivedBundleHashes) && Colons(r.receivedCatalogHash) == 0
    ensures AllColonless(ReceiptHead(r))
  {
    ColonlessIff("receipt");
    DecimalColonless(r.receivedAt);
    Five("receipt", r.distributionId, r.targetId, Decimal(r.receivedAt), r.receivedCatalogHash);
    ListColonless(r.receivedBundleHashes);
    Append(ReceiptBefore(r), [SortedText(r.receivedBundleHashes)]);
  }

  lemma ReceiptHeadDetermined(a: Receipt, b: Receipt)
    requires ReceiptHead(a) == ReceiptHead(b) && a.verificationStatus == b.verificationStatus
    ensures a.(receivedBundleHashes := []) == b.(receivedBundleHashes := [])
    ensures SortedText(a.receivedBundleHashes) == SortedText(b.receivedBundleHashes)
  {
    var x, y := ReceiptHead(a), ReceiptHead(b);
    assert x[1] == y[1] && x[2] == y[2] && x[3] == y[3] && x[4] == y[4] && x[5] == y[5];
    DecimalInjective(a.receivedAt, b.receivedAt);
  }

  /** The same for receipts, but for the verification status. */
  lemma ReceiptDetermined(a: Receipt, b: Receipt)
    requires ReceiptIdsColonless(a) && AllColonless(a.receivedBundleHashes) && Colons(a.receivedCatalogHash) == 0
    requires ReceiptIdsColonless(b) && AllColonless(b.receivedBundleHashes) && Colons(b.receivedCatalogHash) == 0
    requires AllWords(a.receivedBundleHashes) && AllWords(b.receivedBundleHashes)
    ensures ReceiptPreimage(a) == ReceiptPreimage(b) <==> SameReceipt(a, b)
  {
    SortedTexts(a.receivedBundleHashes, b.receivedBundleHashes);
    if SameReceipt(a, b) {
      assert ReceiptBefore(a) == ReceiptBefore(b) && ReceiptAfter(a) == ReceiptAfter(b);
    }
    if ReceiptPreimage(a) == ReceiptPreimage(b) {
      ReceiptHeadColonless(a);
      ReceiptHeadColonless(b);
      PrefixDetermined(ReceiptHead(a), a.verificationStatus, ReceiptHead(b), b.verificationStatus);
      ReceiptHeadDetermined(a, b);
    }
  }

  lemma ReceiptFieldsDetermined(a: Receipt, b: Receipt)
    requires ReceiptIdsColonless(a) && AllColonless(a.receivedBundleHashes)
    requires Colons(a.receivedCatalogHash) == 0 && Colons(a.verificationStatus) == 0
    requires ReceiptPreimage(a) == ReceiptPreimage(b)
    ensures a.(receivedBundleHashes := []) == b.(receivedBundleHashes := [])
    ensures SortedText(a.receivedBundleHashes) == SortedText(b.receivedBundleHashes)
  {
    ReceiptHeadColonless(a);
    Append(ReceiptHead(a), ReceiptAfter(a));
    StretchesDetermined(ReceiptHead(a), ReceiptAfter(a), ReceiptHead(b), ReceiptAfter(b));
    assert ReceiptAfter(a)[0] == ReceiptAfter(b)[0];
    ReceiptHeadDetermined(a, b);
  }

  lemma ReceiptShifted(a: Receipt) returns (b: Receipt)
    requires !ReceiptIdsColonless(a)
    ensures ReceiptPreimage(b) == ReceiptPreimage(a) && !SameReceipt(a, b)
  {
    var rest := [Decimal(a.receivedAt), a.receivedCatalogHash] + [SortedText(a.receivedBundleHashes)] + ReceiptAfter(a);
    if Colons(a.distributionId) != 0 {
      var x, y := SplitAtColon(a.distributionId);
      b := a.(distributionId := x, targetId := y + ":" + a.targetId);
    } else {
      var x, y := SplitAtColon(a.targetId);
      b := a.(distributionId := a.distributionId + ":" + x, targetId := y);
    }
    PairText(["receipt"], a.distributionId, a.targetId, b.distributionId, b.targetId, rest);
    assert ReceiptHead(a) + ReceiptAfter(a) == ["receipt"] + [a.distributionId, a.targetId] + rest;
    assert ReceiptHead(b) + ReceiptAfter(b) == ["receipt"] + [b.distributionId, b.targetId] + rest;
    assert |b.distributionId| != |a.distributionId|;
  }

  ghost predicate ReceiptIsDetermined(a: Receipt) {
    forall b :: ReceiptPreimage(b) == ReceiptPreimage(a) ==> SameReceipt(a, b)
  }

  /** A receipt whose list, catalog hash and verification status hold no colon is determined by its
      text among all receipts if and only if its identifiers hold none either, and its list is
      determined by the printed list. */
  lemma ReceiptDeterminedIff(a: Receipt)
    requires AllColonless(a.receivedBundleHashes) && Colons(a.receivedCatalogHash) == 0 && Colons(a.verificationStatus) == 0
    ensures ReceiptIsDetermined(a) <==>
      ReceiptIdsColonless(a) && |a.receivedBundleHashes| == 1 && Unsplit(a.receivedBundleHashes[0])
  {
    DeterminedIff(a.receivedBundleHashes);
    if !ReceiptIdsColonless(a) {
      var b := ReceiptShifted(a);
    } else if !Determined(a.receivedBundleHashes) {
      var hashes := SameTextAs(a.receivedBundleHashes);
      ReceiptTextIs(a, hashes);
      assert !SameReceipt(a, a.(receivedBundleHashes := hashes));
    } else {
      forall b | ReceiptPreimage(b) == ReceiptPreimage(a) ensures SameReceipt(a, b) {
        ReceiptFieldsDetermined(a, b);
      }
    }
  }

  // ---------------------------------------------------------------- targets

  /** The same target, its token and the order of its hashes aside. */
  ghost predicate SameTarget(a: Target, b: Target) {
    && a.(authToken := "", allowedCatalogHashes := []) == b.(authToken := "", allowedCatalogHashes := [])
    && multiset(a.allowedCatalogHashes) == multiset(b.allowedCatalogHashes)
  }

  /** The strings other than the URL hold no colon. */
  predicate TargetNamesColonless(t: Target) {
    Colons(t.id) == 0 && Colons(t.name) == 0 && Colons(t.transport) == 0 && Colons(t.authMethod) == 0
  }

  function TargetHead(t: Target): seq<string> {
    ["target", t.id, t.name]
  }

  function TargetFlags(t: Target): seq<string> {
    [t.transport, t.authMethod] + [PrintedBool(t.enabled), PrintedBool(t.verifyTls)]
  }

  function TargetLimits(t: Target): seq<string> {
    [Decimal(t.timeoutSeconds), Decimal(t.retryCount), Decimal(t.retryDelaySeconds)]
  }

  /** The parts after the URL. */
  function TargetTail(t: Target): seq<string> {
    TargetFlags(t) + (TargetLimits(t) + [SortedText(t.allowedCatalogHashes)])
  }

  lemma TargetParts(t: Target)
    ensures TargetPreimage(t) == Joined(TargetHead(t) + [t.url] + TargetTail(t))
  {
    assert TargetBefore(t) + [SortedText(t.allowedCatalogHashes)] + [] == TargetHead(t) + [t.url] + TargetTail(t);
  }

  lemma FlagsColonless(t: Target)
    requires TargetNamesColonless(t)
    ensures AllColonless(TargetFlags(t))
  {
    BoolColonless(t.enabled);
    BoolColonless(t.verifyTls);
    Two(t.transport, t.authMethod);
    Two(PrintedBool(t.enabled), PrintedBool(t.verifyTls));
    Append([t.transport, t.authMethod], [PrintedBool(t.enabled), PrintedBool(t.verifyTls)]);
  }

  lemma LimitsColonless(t: Target)
    ensures AllColonless(TargetLimits(t))
  {
    DecimalColonless(t.timeoutSeconds);
    DecimalColonless(t.retryCount);
    DecimalColonless(t.retryDelaySeconds);
    Three(Decimal(t.timeoutSeconds), Decimal(t.retryCount), Decimal(t.retryDelaySeconds));
  }

  lemma TargetColonless(t: Target)
    requires TargetNamesColonless(t) && AllColonless(t.allowedCatalogHashes)
    ensures AllColonless(TargetHead(t)) && AllColonless(TargetTail(t))
  {
    ColonlessIff("target");
    Three("target", t.id, t.name);
    FlagsColonless(t);
    LimitsColonless(t);
    ListColonless(t.allowedCatalogHashes);
    Append(TargetLimits(t), [SortedText(t.allowedCatalogHashes)]);
    Append(TargetFlags(t), TargetLimits(t) + [SortedText(t.allowedCatalogHashes)]);
  }

  lemma TargetTailDetermined(a: Target, b: Target)
    requires TargetTail(a) == TargetTail(b)
    ensures a.transport == b.transport && a.authMethod == b.authMethod && a.enabled == b.enabled && a.verifyTls == b.verifyTls
    ensures a.timeoutSeconds == b.timeoutSeconds && a.retryCount == b.retryCount && a.retryDelaySeconds == b.retryDelaySeconds
    ensures SortedText(a.allowedCatalogHashes) == SortedText(b.allowedCatalogHashes)
  {
    var x, y := TargetTail(a), TargetTail(b);
    assert x[0] == y[0] && x[1] == y[1] && x[2] == y[2] && x[3] == y[3];
    assert x[4] == y[4] && x[5] == y[5] && x[6] == y[6] && x[7] == y[7];
    BoolInjective(a.enabled, b.enabled);
    BoolInjective(a.verifyTls, b.verifyTls);
    DecimalInjective(a.timeoutSeconds, b.timeoutSeconds);
    DecimalInjective(a.retryCount, b.retryCount);
    DecimalInjective(a.retryDelaySeconds, b.retryDelaySeconds);
  }

  lemma TargetAllDetermined(a: Target, b: Target)
    requires TargetHead(a) == TargetHead(b) && a.url == b.url && TargetTail(a) == TargetTail(b)
    ensures a.(authToken := "", allowedCatalogHashes := []) == b.(authToken := "", allowedCatalogHashes := [])
    ensures SortedText(a.allowedCatalogHashes) == SortedText(b.allowedCatalogHashes)
  {
    assert TargetHead(a)[1] == TargetHead(b)[1] && TargetHead(a)[2] == TargetHead(b)[2];
    TargetTailDetermined(a, b);
  }

  lemma TargetMiddle(a: Target, b: Target)
    requires TargetNamesColonless(a) && AllColonless(a.allowedCatalogHashes)
    requires TargetNamesColonless(b) && AllColonless(b.allowedCatalogHashes)
    requires TargetPreimage(a) == TargetPreimage(b)
    ensures a.(authToken := "", allowedCatalogHashes := []) == b.(authToken := "", allowedCatalogHashes := [])
    ensures SortedText(a.allowedCatalogHashes) == SortedText(b.allowedCatalogHashes)
  {
    TargetParts(a);
    TargetParts(b);
    TargetColonless(a);
    TargetColonless(b);
    MiddleDetermined(TargetHead(a), a.url, TargetTail(a), TargetHead(b), b.url, TargetTail(b));
    TargetAllDetermined(a, b);
  }

  /** The same for targets, but for the URL. */
  lemma TargetDetermined(a: Target, b: Target)
    requires TargetNamesColonless(a) && AllColonless(a.allowedCatalogHashes) && AllWords(a.allowedCatalogHashes)
    requires TargetNamesColonless(b) && AllColonless(b.allowedCatalogHashes) && AllWords(b.allowedCatalogHashes)
    ensures TargetPreimage(a) == TargetPreimage(b) <==> SameTarget(a, b)
  {
    SortedTexts(a.allowedCatalogHashes, b.allowedCatalogHashes);
    if SameTarget(a, b) {
      assert TargetBefore(a) == TargetBefore(b);
    }
    if TargetPreimage(a) == TargetPreimage(b) {
      TargetMiddle(a, b);
    }
  }

  lemma TargetFieldsDetermined(a: Target, b: Target)
    requires TargetNamesColonless(a) && Colons(a.url) == 0 && AllColonless(a.allowedCatalogHashes)
    requires TargetPreimage(a) == TargetPreimage(b)
    ensures a.(authToken := "", allowedCatalogHashes := []) == b.(authToken := "", allowedCatalogHashes := [])
    ensures SortedText(a.allowedCatalogHashes) == SortedText(b.allowedCatalogHashes)
  {
    var x, y := [a.url] + TargetTail(a), [b.url] + TargetTail(b);
    TargetParts(a);
    TargetParts(b);
    TargetColonless(a);
    Append([a.url], TargetTail(a));
    Append(TargetHead(a), x);
    assert TargetHead(a) + [a.url] + TargetTail(a) == TargetHead(a) + x;
    assert TargetHead(b) + [b.url] + TargetTail(b) == TargetHead(b) + y;
    StretchesDetermined(TargetHead(a), x, TargetHead(b), y);
    assert x[0] == y[0] && TargetTail(a) == x[1..] && TargetTail(b) == y[1..];
    TargetAllDetermined(a, b);
  }

  /** The parts from the transport on. */
  function TargetRest(t: Target): seq<string> {
    [PrintedBool(t.enabled), PrintedBool(t.verifyTls)] + (TargetLimits(t) + [SortedText(t.allowedCatalogHashes)])
  }

  /** The text, with two neighbouring strings set apart. */
  lemma TargetSplits(t: Target)
    ensures TargetPreimage(t) == Joined(["target"] + [t.id, t.name] + ([t.url, t.transport, t.authMethod] + TargetRest(t)))
    ensures TargetPreimage(t) == Joined(TargetHead(t) + [t.url, t.transport] + ([t.authMethod] + TargetRest(t)))
    ensures TargetPreimage(t) == Joined((TargetHead(t) + [t.url]) + [t.transport, t.authMethod] + TargetRest(t))
  {
    TargetParts(t);
    var parts, rest := TargetHead(t) + [t.url] + TargetTail(t), TargetRest(t);
    assert parts == ["target"] + [t.id, t.name] + ([t.url, t.transport, t.authMethod] + rest);
    assert parts == TargetHead(t) + [t.url, t.transport] + ([t.authMethod] + rest);
    assert parts == (TargetHead(t) + [t.url]) + [t.transport, t.authMethod] + rest;
  }

  lemma ShiftedInto(before: seq<string>, u: string, v: string, after: seq<string>) returns (x: string, y: string)
    requires before != [] && after != [] && (Colons(u) > 0 || Colons(v) > 0)
    ensures Joined(before + [x, y] + after) == Joined(before + [u, v] + after) && x != u
  {
    if Colons(u) > 0 {
      var p, q := SplitAtColon(u);
      x, y := p, q + ":" + v;
    } else {
      var p, q := SplitAtColon(v);
      x, y := u + ":" + p, q;
    }
    PairText(before, x, y, u, v, after);
    assert |x| != |u|;
  }

  /** With a colon in a string, a URL with its scheme included, another target has the same text. */
  lemma TargetShifted(a: Target) returns (b: Target)
    requires !(TargetNamesColonless(a) && Colons(a.url) == 0)
    ensures TargetPreimage(b) == TargetPreimage(a) && !SameTarget(a, b)
  {
    var rest := TargetRest(a);
    TargetSplits(a);
    if Colons(a.id) > 0 || Colons(a.name) > 0 {
      var x, y := ShiftedInto(["target"], a.id, a.name, [a.url, a.transport, a.authMethod] + rest);
      b := a.(id := x, name := y);
    } else if Colons(a.url) > 0 || Colons(a.transport) > 0 {
      var x, y := ShiftedInto(TargetHead(a), a.url, a.transport, [a.authMethod] + rest);
      b := a.(url := x, transport := y);
    } else {
      var x, y := ShiftedInto(TargetHead(a) + [a.url], a.transport, a.authMethod, rest);
      b := a.(transport := x, authMethod := y);
    }
    assert TargetRest(b) == rest;
    TargetSplits(b);
  }

  ghost predicate TargetIsDetermined(a: Target) {
    forall b :: TargetPreimage(b) == TargetPreimage(a) ==> SameTarget(a, b)
  }

  /** A target whose list holds no colon is determined by its text among all targets if and only if
      none of its strings holds one, and its list is determined by the printed list. */
  lemma TargetDeterminedIff(a: Target)
    requires AllColonless(a.allowedCatalogHashes)
    ensures TargetIsDetermined(a) <==>
      && TargetNamesColonless(a) && Colons(a.url) == 0
      && |a.allowedCatalogHashes| == 1 && Unsplit(a.allowedCatalogHashes[0])
  {
    DeterminedIff(a.allowedCatalogHashes);
    if !(TargetNamesColonless(a) && Colons(a.url) == 0) {
      var b := TargetShifted(a);
    } else if !Determined(a.allowedCatalogHashes) {
      var hashes := SameTextAs(a.allowedCatalogHashes);
      TargetTextIs(a, hashes);
      assert !SameTarget(a, a.(allowedCatalogHashes := hashes));
    } else {
      forall b | TargetPreimage(b) == TargetPreimage(a) ensures SameTarget(a, b) {
        TargetFieldsDetermined(a, b);
      }
    }
  }
}
