/** Hashes of distribution jobs, receipts and targets (internal/authz/fixture_distribution.go):
    the digested text lists the record's hashes in sorted order. */
module DistributionHashes {

  import opened Text
  import opened ColonText
  import opened Sorting
  import opened ExchangeSort

  datatype Job = Job(
    distributionId: string,
    targetId: string,
    catalogHash: string,
    bundleHashes: seq<string>,
    manifestHash: string,
    status: string,
    createdAt: int,
    startedAt: int,
    completedAt: int,
    attemptCount: int,
    errorMessage: string,
    lastAttemptAt: int)

  datatype Receipt = Receipt(
    distributionId: string,
    targetId: string,
    receivedAt: int,
    receivedCatalogHash: string,
    receivedBundleHashes: seq<string>,
    verificationStatus: string)

  datatype Target = Target(
    id: string,
    name: string,
    url: string,
    transport: string,
    authMethod: string,
    authToken: string,
    enabled: bool,
    verifyTls: bool,
    timeoutSeconds: int,
    retryCount: int,
    retryDelaySeconds: int,
    allowedCatalogHashes: seq<string>)

  function Spaced(parts: seq<string>): string {
    if parts == [] then "" else if |parts| == 1 then parts[0] else parts[0] + " " + Spaced(parts[1..])
  }

  /** How a list of texts is printed. */
  function Printed(parts: seq<string>): string {
    "[" + Spaced(parts) + "]"
  }

  /** The text of a list: its elements sorted and printed. */
  function SortedText(parts: seq<string>): string {
    Printed(Exchanged(Less, parts))
  }

  function PrintedBool(b: bool): string {
    if b then "true" else "false"
  }

  /** The parts before and after the list, and the text as a whole.  The status of a job and the
      token of a target are no part of it. */
  function JobBefore(j: Job): seq<string> {
    ["job", j.distributionId, j.targetId, j.catalogHash]
  }

  function JobAfter(j: Job): seq<string> {
    [j.manifestHash, Decimal(j.createdAt), Decimal(j.startedAt), Decimal(j.completedAt), Decimal(j.attemptCount),
     j.errorMessage, Decimal(j.lastAttemptAt)]
  }

  function JobText(j: Job, list: string): string {
    Joined(JobBefore(j) + [list] + JobAfter(j))
  }

  function JobPreimage(j: Job): string {
    JobText(j, SortedText(j.bundleHashes))
  }

  function ReceiptBefore(r: Receipt): seq<string> {
    ["receipt", r.distributionId, r.targetId, Decimal(r.receivedAt), r.receivedCatalogHash]
  }

  function ReceiptAfter(r: Receipt): seq<string> {
    [r.verificationStatus]
  }

  function ReceiptText(r: Receipt, list: string): string {
    Joined(ReceiptBefore(r) + [list] + ReceiptAfter(r))
  }

  function ReceiptPreimage(r: Receipt): string {
    ReceiptText(r, SortedText(r.receivedBundleHashes))
  }

  function TargetBefore(t: Target): seq<string> {
    ["target", t.id, t.name, t.url, t.transport, t.authMethod, PrintedBool(t.enabled), PrintedBool(t.verifyTls),
     Decimal(t.timeoutSeconds), Decimal(t.retryCount), Decimal(t.retryDelaySeconds)]
  }

  function TargetText(t: Target, list: string): string {
    Joined(TargetBefore(t) + [list] + [])
  }

  function TargetPreimage(t: Target): string {
    TargetText(t, SortedText(t.allowedCatalogHashes))
  }

  /** Copies the hashes into an array, sorts it in place and prints it. */
  method SortedAndPrinted(hashes: seq<string>) returns (text: string)
    ensures text == SortedText(hashes)
  {
    var copy := new string[|hashes|](i requires 0 <= i < |hashes| => hashes[i]);
    assert copy[..] == hashes;
    Sort(Less, copy);
    text := Printed(copy[..]);
  }

  method JobHash(digest: string -> string, j: Job) returns (hash: string)
    ensures hash == digest(JobPreimage(j))
  {
    var sorted := SortedAndPrinted(j.bundleHashes);
    hash := digest(JobText(j, sorted));
  }

  method ReceiptHash(digest: string -> string, r: Receipt) returns (hash: string)
    ensures hash == digest(ReceiptPreimage(r))
  {
    var sorted := SortedAndPrinted(r.receivedBundleHashes);
    hash := digest(ReceiptText(r, sorted));
  }

  method TargetHash(digest: string -> string, t: Target) returns (hash: string)
    ensures hash == digest(TargetPreimage(t))
  {
    var sorted := SortedAndPrinted(t.allowedCatalogHashes);
    hash := digest(TargetText(t, sorted));
  }

  // ---------------------------------------------------------------- order and contents

  /** Not empty and without a space, as every hash is. */
  predicate IsWord(s: string) {
    s != "" && forall i :: 0 <= i < |s| ==> s[i] != ' '
  }

  ghost predicate AllWords(parts: seq<string>) {
    forall i :: 0 <= i < |parts| ==> IsWord(parts[i])
  }

  lemma HashesAreWords(hashes: seq<string>)
    requires forall i :: 0 <= i < |hashes| ==> ValidSha256Hex(hashes[i])
    ensures AllWords(hashes)
  {
  }

  lemma FirstWord(parts: seq<string>)
    requires parts != [] && IsWord(parts[0])
    ensures Find(Spaced(parts), ' ') == |parts[0]| > 0 && Spaced(parts)[..|parts[0]|] == parts[0]
    ensures |parts| == 1 ==> Spaced(parts) == parts[0]
    ensures |parts| > 1 ==> |Spaced(parts)| > |parts[0]| && Spaced(parts)[|parts[0]| + 1..] == Spaced(parts[1..])
  {
    if |parts| == 1 {
      assert Spaced(parts)[..|parts[0]|] == parts[0];
    } else {
      FindPrefix(parts[0], ' ', Spaced(parts[1..]));
    }
  }

  /** Lists of words are determined by the words joined with spaces. */
  lemma {:induction false} SpacedInjective(a: seq<string>, b: seq<string>)
    requires AllWords(a) && AllWords(b) && Spaced(a) == Spaced(b)
    ensures a == b
  {
    if a == [] || b == [] {
      WordsAreText(a);
      WordsAreText(b);
    } else {
      FirstWord(a);
      FirstWord(b);
      if |a| > 1 {
        SpacedInjective(a[1..], b[1..]);
      }
      assert a == [a[0]] + a[1..] && b == [b[0]] + b[1..];
    }
  }

  lemma WordsAreText(parts: seq<string>)
    requires AllWords(parts)
    ensures Spaced(parts) == "" <==> parts == []
  {
    if parts != [] {
      FirstWord(parts);
    }
  }

  lemma CancelAround(prefix: string, a: string, b: string, suffix: string)
    requires prefix + a + suffix == prefix + b + suffix
    ensures a == b
  {
    var s := prefix + a + suffix;
    assert |a| == |b|;
    assert a == s[|prefix|..|prefix| + |a|] && b == s[|prefix|..|prefix| + |b|];
  }

  lemma SortedTextIs(a: seq<string>, b: seq<string>)
    ensures SortedText(a) == SortedText(b) <==> Spaced(Exchanged(Less, a)) == Spaced(Exchanged(Less, b))
  {
    if SortedText(a) == SortedText(b) {
      CancelAround("[", Spaced(Exchanged(Less, a)), Spaced(Exchanged(Less, b)), "]");
    }
  }

  /** The printed, sorted list forgets the order of any texts, and of words it forgets nothing
      else. */
  lemma SortedTexts(a: seq<string>, b: seq<string>)
    ensures multiset(a) == multiset(b) ==> SortedText(a) == SortedText(b)
    ensures AllWords(a) && AllWords(b) && SortedText(a) == SortedText(b) ==> multiset(a) == multiset(b)
  {
    HashListsForgetOrder(a, b);
    SortedTextIs(a, b);
    if AllWords(a) && AllWords(b) && SortedText(a) == SortedText(b) {
      ExchangedWords(a);
      ExchangedWords(b);
      SpacedInjective(Exchanged(Less, a), Exchanged(Less, b));
    }
  }

  lemma ExchangedWords(words: seq<string>)
    requires AllWords(words)
    ensures AllWords(Exchanged(Less, words))
  {
    var s := Exchanged(Less, words);
    ExchangedMultiset(Less, words);
    SameElements(s, words);
    forall i | 0 <= i < |s| ensures IsWord(s[i]) {
      assert s[i] in words;
    }
  }

  // ---------------------------------------------------------------- lists of any texts

  /** Not empty, and no space splits it into two parts in order. */
  predicate Unsplit(x: string) {
    x != "" && forall i :: 0 <= i < |x| && x[i] == ' ' ==> Less(x[i + 1..], x[..i])
  }

  /** Every list with the same sorted text is a permutation of this one. */
  ghost predicate Determined(a: seq<string>) {
    forall b :: SortedText(b) == SortedText(a) ==> multiset(b) == multiset(a)
  }

  lemma {:induction false} PrefixBefore(p: string, s: string)
    requires p <= s
    ensures p == s || Less(p, s)
  {
    if p == "" {
    } else {
      PrefixBefore(p[1..], s[1..]);
      assert p == [p[0]] + p[1..] && s == [s[0]] + s[1..];
    }
  }

  lemma SpacedStarts(parts: seq<string>)
    requires parts != []
    ensures parts[0] <= Spaced(parts)
  {
  }

  /** The text of a sorted list of two or more is split in order by its first separator. */
  lemma SortedIsSplit(s: seq<string>)
    requires |s| > 1 && Ascending(Less, s)
    ensures !Unsplit(Spaced(s))
  {
    var x, first, rest := Spaced(s), s[0], Spaced(s[1..]);
    var i := |first|;
    assert x[i] == ' ' && x[..i] == first && x[i + 1..] == rest;
    SpacedStarts(s[1..]);
    PrefixBefore(s[1], rest);
    assert !Less(s[1], s[0]);
    if Less(rest, first) && s[1] != rest {
      LessTransitive(s[1], rest, first);
    }
  }

  lemma SortedOne(x: string)
    ensures Exchanged(Less, [x]) == [x]
  {
    ExchangedIdle(Less, [x]);
  }

  /** Two texts in order print like one text that holds both. */
  lemma PrintsLikeOne(first: string, second: string)
    requires !Less(second, first)
    ensures SortedText([first, second]) == SortedText([first + " " + second])
  {
    var two := [first, second];
    ExchangedIdle(Less, two);
    SortedOne(first + " " + second);
    assert two[1..] == [second];
    assert Spaced([second]) == second;
  }

  lemma UnsplitDetermines(a: seq<string>, b: seq<string>)
    requires |a| == 1 && Unsplit(a[0]) && SortedText(b) == SortedText(a)
    ensures multiset(b) == multiset(a)
  {
    var s := Exchanged(Less, b);
    assert a == [a[0]];
    SortedOne(a[0]);
    SortedTextIs(b, a);
    LessIsOrder();
    ExchangedMultiset(Less, b);
    ExchangedAscending(Less, b);
    if |s| > 1 {
      SortedIsSplit(s);
    } else if |s| == 1 {
      assert s == [s[0]];
    }
  }

  /** Otherwise another list has the same text: the whole text as one element, or one element split
      at a space, or, for no elements at all, one empty element. */
  lemma SameTextAs(a: seq<string>) returns (b: seq<string>)
    requires !(|a| == 1 && Unsplit(a[0]))
    ensures SortedText(b) == SortedText(a) && multiset(b) != multiset(a)
  {
    var x := Spaced(Exchanged(Less, a));
    ExchangedMultiset(Less, a);
    if |a| != 1 {
      b := [x];
      SortedOne(x);
      assert |multiset(b)| == 1 && |multiset(a)| == |a|;
    } else {
      assert a == [a[0]];
      SortedOne(a[0]);
      if a[0] == "" {
        b := [];
        assert |multiset(b)| == 0;
      } else {
        var i :| 0 <= i < |x| && x[i] == ' ' && !Less(x[i + 1..], x[..i]);
        b := [x[..i], x[i + 1..]];
        PrintsLikeOne(x[..i], x[i + 1..]);
        assert x[..i] + " " + x[i + 1..] == x;
        assert |multiset(b)| == 2;
      }
    }
  }

  /** A list of any texts is determined by its sorted text if and only if it is one text that is not
      empty and that no space splits into two parts in order. */
  lemma DeterminedIff(a: seq<string>)
    ensures Determined(a) <==> |a| == 1 && Unsplit(a[0])
  {
    if |a| == 1 && Unsplit(a[0]) {
      forall b | SortedText(b) == SortedText(a) ensures multiset(b) == multiset(a) {
        UnsplitDetermines(a, b);
      }
    } else {
      var b := SameTextAs(a);
    }
  }

  // ---------------------------------------------------------------- jobs, receipts and targets

  lemma JobTextIs(j: Job, hashes: seq<string>)
    ensures JobPreimage(j.(bundleHashes := hashes)) == JobPreimage(j) <==> SortedText(hashes) == SortedText(j.bundleHashes)
  {
    JoinedPart(JobBefore(j), SortedText(hashes), SortedText(j.bundleHashes), JobAfter(j));
  }

  lemma ReceiptTextIs(r: Receipt, hashes: seq<string>)
    ensures ReceiptPreimage(r.(receivedBundleHashes := hashes)) == ReceiptPreimage(r) <==>
      SortedText(hashes) == SortedText(r.receivedBundleHashes)
  {
    JoinedPart(ReceiptBefore(r), SortedText(hashes), SortedText(r.receivedBundleHashes), ReceiptAfter(r));
  }

  lemma TargetTextIs(t: Target, hashes: seq<string>)
    ensures TargetPreimage(t.(allowedCatalogHashes := hashes)) == TargetPreimage(t) <==>
      SortedText(hashes) == SortedText(t.allowedCatalogHashes)
  {
    JoinedPart(TargetBefore(t), SortedText(hashes), SortedText(t.allowedCatalogHashes), []);
  }

  /** A job that lists its texts in another order has the same preimage, whatever the texts; among
      lists of words only those orders do. */
  lemma JobOrderIrrelevant(j: Job, hashes: seq<string>)
    ensures multiset(hashes) == multiset(j.bundleHashes) ==> JobPreimage(j.(bundleHashes := hashes)) == JobPreimage(j)
    ensures AllWords(hashes) && AllWords(j.bundleHashes) && JobPreimage(j.(bundleHashes := hashes)) == JobPreimage(j) ==>
      multiset(hashes) == multiset(j.bundleHashes)
  {
    JobTextIs(j, hashes);
    SortedTexts(hashes, j.bundleHashes);
  }

  lemma ReceiptOrderIrrelevant(r: Receipt, hashes: seq<string>)
    ensures multiset(hashes) == multiset(r.receivedBundleHashes) ==>
      ReceiptPreimage(r.(receivedBundleHashes := hashes)) == ReceiptPreimage(r)
    ensures AllWords(hashes) && AllWords(r.receivedBundleHashes) ==>
      ReceiptPreimage(r.(receivedBundleHashes := hashes)) == ReceiptPreimage(r) ==>
        multiset(hashes) == multiset(r.receivedBundleHashes)
  {
    ReceiptTextIs(r, hashes);
    SortedTexts(hashes, r.receivedBundleHashes);
  }

  lemma TargetOrderIrrelevant(t: Target, hashes: seq<string>)
    ensures multiset(hashes) == multiset(t.allowedCatalogHashes) ==>
      TargetPreimage(t.(allowedCatalogHashes := hashes)) == TargetPreimage(t)
    ensures AllWords(hashes) && AllWords(t.allowedCatalogHashes) ==>
      TargetPreimage(t.(allowedCatalogHashes := hashes)) == TargetPreimage(t) ==>
        multiset(hashes) == multiset(t.allowedCatalogHashes)
  {
    TargetTextIs(t, hashes);
    SortedTexts(hashes, t.allowedCatalogHashes);
  }

  /** The text of a job does not determine its list: one text with a space prints like two texts. */
  lemma JobListsCollide(j: Job)
    ensures JobPreimage(j.(bundleHashes := ["a b"])) == JobPreimage(j.(bundleHashes := ["a", "b"]))
    ensures multiset(["a b"]) != multiset(["a", "b"])
  {
    var one, two := ["a b"], ["a", "b"];
    PrintsLikeOne("a", "b");
    assert "a" + " " + "b" == "a b";
    JobTextIs(j.(bundleHashes := two), one);
    assert |multiset(one)| == 1 && |multiset(two)| == 2;
  }

  /** Every list that gives a job the same preimage is a permutation of the job's list if and only if
      that list is one text that is not empty and that no space splits in order. */
  lemma JobListDeterminedIff(j: Job)
    ensures (forall hashes :: JobPreimage(j.(bundleHashes := hashes)) == JobPreimage(j) ==>
               multiset(hashes) == multiset(j.bundleHashes))
      <==> |j.bundleHashes| == 1 && Unsplit(j.bundleHashes[0])
  {
    DeterminedIff(j.bundleHashes);
    forall hashes
      ensures JobPreimage(j.(bundleHashes := hashes)) == JobPreimage(j) <==> SortedText(hashes) == SortedText(j.bundleHashes)
    {
      JobTextIs(j, hashes);
    }
  }

  lemma ReceiptListDeterminedIff(r: Receipt)
    ensures (forall hashes :: ReceiptPreimage(r.(receivedBundleHashes := hashes)) == ReceiptPreimage(r) ==>
               multiset(hashes) == multiset(r.receivedBundleHashes))
      <==> |r.receivedBundleHashes| == 1 && Unsplit(r.receivedBundleHashes[0])
  {
    DeterminedIff(r.receivedBundleHashes);
    forall hashes
      ensures ReceiptPreimage(r.(receivedBundleHashes := hashes)) == ReceiptPreimage(r) <==>
        SortedText(hashes) == SortedText(r.receivedBundleHashes)
    {
      ReceiptTextIs(r, hashes);
    }
  }

  lemma TargetListDeterminedIff(t: Target)
    ensures (forall hashes :: TargetPreimage(t.(allowedCatalogHashes := hashes)) == TargetPreimage(t) ==>
               multiset(hashes) == multiset(t.allowedCatalogHashes))
      <==> |t.allowedCatalogHashes| == 1 && Unsplit(t.allowedCatalogHashes[0])
  {
    DeterminedIff(t.allowedCatalogHashes);
    forall hashes
      ensures TargetPreimage(t.(allowedCatalogHashes := hashes)) == TargetPreimage(t) <==>
        SortedText(hashes) == SortedText(t.allowedCatalogHashes)
    {
      TargetTextIs(t, hashes);
    }
  }

  // ---------------------------------------------------------------- the index

  datatype Index<J, T> = Index(schemaVersion: string, lastUpdated: int, jobs: seq<Record<J>>, targets: seq<Record<T>>)

  /** The digested text; how the sorted lists are printed is the formatting library's. */
  function IndexPreimage<J, T>(
      showJobs: seq<Record<J>> -> string, showTargets: seq<Record<T>> -> string, x: Index<J, T>): string
  {
    "index:" + x.schemaVersion + ":" + Decimal(x.lastUpdated) + ":" + showJobs(Exchanged(IdLess, x.jobs))
    + ":" + showTargets(Exchanged(IdLess, x.targets))
  }

  method IndexHash<J, T>(
      digest: string -> string, showJobs: seq<Record<J>> -> string, showTargets: seq<Record<T>> -> string, x: Index<J, T>)
    returns (hash: string)
    ensures hash == digest(IndexPreimage(showJobs, showTargets, x))
  {
    var jobs := new Record<J>[|x.jobs|](i requires 0 <= i < |x.jobs| => x.jobs[i]);
    var targets := new Record<T>[|x.targets|](i requires 0 <= i < |x.targets| => x.targets[i]);
    assert jobs[..] == x.jobs && targets[..] == x.targets;
    Sort(IdLess, jobs);
    Sort(IdLess, targets);
    hash := digest("index:" + x.schemaVersion + ":" + Decimal(x.lastUpdated) + ":" + showJobs(jobs[..])
                   + ":" + showTargets(targets[..]));
  }

  /** When identifiers determine jobs and targets, the order of both lists is irrelevant to the
      digested text. */
  lemma IndexOrderIrrelevant<J(!new), T(!new)>(
      showJobs: seq<Record<J>> -> string, showTargets: seq<Record<T>> -> string, x: Index<J, T>, y: Index<J, T>)
    requires x.schemaVersion == y.schemaVersion && x.lastUpdated == y.lastUpdated
    requires multiset(x.jobs) == multiset(y.jobs) && multiset(x.targets) == multiset(y.targets)
    requires IdsDetermine(x.jobs) && IdsDetermine(x.targets)
    ensures IndexPreimage(showJobs, showTargets, x) == IndexPreimage(showJobs, showTargets, y)
  {
    SameForEveryOrder(x.jobs, y.jobs);
    SameForEveryOrder(x.targets, y.targets);
  }
}
