/** What the collections of the fixture chain hold, and in which order, and what the summary of a
    bundle says.  (internal/authz/policy_snapshot.go, policy_artifact.go, policy_export_index.go,
    policy_release_ledger.go, policy_marker_log.go) */
module FixtureContents {

  import opened Text
  import opened Normalization
  import opened PolicyInput
  import opened FixtureRecords
  import opened FixtureChain
  import opened FixtureCommitments

  // ---------------------------------------------------------------- orders

  /** In bundles: by family, then by fixture name, then by hash. */
  lemma SnapshotsOrdered(env: Env, input: seq<Snapshot>, i: nat, j: nat)
    requires NormalForm(SnapshotScheme(env), input).Normal?
    requires i < j < |NormalForm(SnapshotScheme(env), input).items|
    ensures var a, b := NormalForm(SnapshotScheme(env), input).items[i], NormalForm(SnapshotScheme(env), input).items[j];
      && (a.family != b.family ==> Less(a.family, b.family))
      && (a.family == b.family && a.fixtureName != b.fixtureName ==> Less(a.fixtureName, b.fixtureName))
      && (a.family == b.family && a.fixtureName == b.fixtureName ==> Less(a.snapshotHash, b.snapshotHash))
  {
    SnapshotsLawful(env);
    NormalFormMeaning(SnapshotScheme(env), input);
  }

  /** In catalogs: by kind, then by the hash of the artifact. */
  lemma CatalogOrdered(env: Env, input: seq<Artifact>, i: nat, j: nat)
    requires NormalForm(ArtifactScheme(env), input).Normal?
    requires i < j < |NormalForm(ArtifactScheme(env), input).items|
    ensures var a, b := NormalForm(ArtifactScheme(env), input).items[i], NormalForm(ArtifactScheme(env), input).items[j];
      && (a.kind != b.kind ==> Less(a.kind, b.kind))
      && (a.kind == b.kind ==> Less(a.artifactHash, b.artifactHash))
  {
    ArtifactsLawful(env);
    NormalFormMeaning(ArtifactScheme(env), input);
  }

  /** In export indexes: by kind, then by name. */
  lemma IndexOrdered(env: Env, input: seq<Export>, i: nat, j: nat)
    requires NormalForm(ExportScheme(env), input).Normal?
    requires i < j < |NormalForm(ExportScheme(env), input).items|
    ensures var a, b := NormalForm(ExportScheme(env), input).items[i], NormalForm(ExportScheme(env), input).items[j];
      && (a.kind != b.kind ==> Less(a.kind, b.kind))
      && (a.kind == b.kind ==> Less(a.name, b.name))
  {
    ExportsLawful(env);
    NormalFormMeaning(ExportScheme(env), input);
  }

  /** In ledgers: by time, then by hash. */
  lemma LedgerOrdered(env: Env, input: seq<Release>, i: nat, j: nat)
    requires NormalForm(ReleaseScheme(env), input).Normal?
    requires i < j < |NormalForm(ReleaseScheme(env), input).items|
    ensures var a, b := NormalForm(ReleaseScheme(env), input).items[i], NormalForm(ReleaseScheme(env), input).items[j];
      && a.createdAt <= b.createdAt
      && (a.createdAt == b.createdAt ==> Less(a.releaseHash, b.releaseHash))
  {
    ReleasesLawful(env);
    NormalFormMeaning(ReleaseScheme(env), input);
  }

  /** In marker logs: by time, then by hash. */
  lemma LogOrdered(env: Env, input: seq<Marker>, i: nat, j: nat)
    requires NormalForm(MarkerScheme(env), input).Normal?
    requires i < j < |NormalForm(MarkerScheme(env), input).items|
    ensures var a, b := NormalForm(MarkerScheme(env), input).items[i], NormalForm(MarkerScheme(env), input).items[j];
      && a.createdAt <= b.createdAt
      && (a.createdAt == b.createdAt ==> Less(a.markerHash, b.markerHash))
  {
    MarkersLawful(env);
    NormalFormMeaning(MarkerScheme(env), input);
  }

  // ---------------------------------------------------------------- summaries

  ghost predicate SameCounts(names: seq<string>, c: string -> nat, d: string -> nat) {
    forall i :: 0 <= i < |names| ==> c(names[i]) == d(names[i])
  }

  ghost predicate StartsOtherwise(title: string, rest: seq<string>) {
    rest == [] || rest[0] != title
  }

  /** What follows the counts of the names, and the counts are not mistaken for one of them. */
  lemma {:induction false} CountStart(title: string, names: seq<string>, c: string -> nat, rest: seq<string>, name: string)
    requires StartsOtherwise(title, rest) && name !in names
    ensures var all := CountParts(title, names, c) + rest;
      |all| >= 2 && all[0] == title ==> all[1] != name
  {
    if names == [] {
      assert CountParts(title, names, c) + rest == rest;
    } else if c(names[0]) > 0 {
      var all := CountParts(title, names, c) + rest;
      assert all[1] == names[0];
    } else {
      CountStart(title, names[1..], c, rest, name);
      assert CountParts(title, names, c) == CountParts(title, names[1..], c);
    }
  }

  /** The counts of the names, from the first on. */
  function Counted(title: string, name: string, n: nat, later: seq<string>): seq<string> {
    if n > 0 then [title, name, PaddedInt(n, 10)] + later else later
  }

  lemma CountFirst(title: string, names: seq<string>, c: string -> nat, rest: seq<string>)
    requires names != []
    ensures CountParts(title, names, c) + rest
         == Counted(title, names[0], c(names[0]), CountParts(title, names[1..], c) + rest)
  {
    Regrouped(title, names[0], c(names[0]), CountParts(title, names[1..], c), rest);
  }

  lemma Regrouped(title: string, name: string, n: nat, later: seq<string>, rest: seq<string>)
    ensures (if n > 0 then [title, name, PaddedInt(n, 10)] else []) + later + rest == Counted(title, name, n, later + rest)
  {
  }

  lemma FirstDetermined(title: string, name: string, m: nat, n: nat, p: seq<string>, q: seq<string>)
    requires |p| >= 2 && p[0] == title ==> p[1] != name
    requires |q| >= 2 && q[0] == title ==> q[1] != name
    requires Counted(title, name, m, p) == Counted(title, name, n, q)
    ensures m == n && p == q
  {
    var x, y := Counted(title, name, m, p), Counted(title, name, n, q);
    if m > 0 && n > 0 {
      assert x[2] == PaddedInt(m, 10) && y[2] == PaddedInt(n, 10);
      PaddedInjective(m, n, 10);
      assert p == x[3..] && q == y[3..];
    }
  }

  /** Counts are read back from their text, and so is what follows. */
  lemma {:induction false} CountsDetermined(title: string, names: seq<string>,
    c: string -> nat, d: string -> nat, x: seq<string>, y: seq<string>)
    requires forall i, j :: 0 <= i < j < |names| ==> names[i] != names[j]
    requires StartsOtherwise(title, x) && StartsOtherwise(title, y)
    requires CountParts(title, names, c) + x == CountParts(title, names, d) + y
    ensures SameCounts(names, c, d) && x == y
  {
    if names == [] {
      assert CountParts(title, names, c) + x == x && CountParts(title, names, d) + y == y;
    } else {
      var name, later := names[0], names[1..];
      CountFirst(title, names, c, x);
      CountFirst(title, names, d, y);
      CountStart(title, later, c, x, name);
      CountStart(title, later, d, y, name);
      FirstDetermined(title, name, c(name), d(name), CountParts(title, later, c) + x, CountParts(title, later, d) + y);
      CountsDetermined(title, later, c, d, x, y);
    }
  }

  lemma {:induction false} SameCountParts(title: string, names: seq<string>, c: string -> nat, d: string -> nat)
    requires forall x :: c(x) == d(x)
    ensures CountParts(title, names, c) == CountParts(title, names, d)
  {
    if names == [] {
    } else {
      SameCountParts(title, names[1..], c, d);
    }
  }

  lemma {:induction false} CountPartsStart(title: string, names: seq<string>, c: string -> nat, rest: seq<string>, other: string)
    requires other != title && StartsOtherwise(other, rest)
    ensures StartsOtherwise(other, CountParts(title, names, c) + rest)
  {
    if names == [] {
      assert CountParts(title, names, c) + rest == rest;
    } else {
      CountPartsStart(title, names[1..], c, rest, other);
      CountFirst(title, names, c, rest);
    }
  }

  lemma {:induction false} CountPartsPlain(title: string, names: seq<string>, c: string -> nat)
    requires Plain(title) && AllPlain(names)
    ensures AllPlain(CountParts(title, names, c))
  {
    if names == [] {
    } else {
      CountPartsPlain(title, names[1..], c);
      PaddedValue(c(names[0]), 10);
      assert Plain(names[0]);
    }
  }

  /** One block of counts. */
  datatype Table = Table(title: string, names: seq<string>, count: string -> nat) {
    function Parts(): seq<string> {
      CountParts(title, names, count)
    }

    /** Counts under the same title and names. */
    predicate Like(t: Table) {
      title == t.title && names == t.names
    }

    ghost predicate Sound() {
      Plain(title) && AllPlain(names) && forall i, j :: 0 <= i < j < |names| ==> names[i] != names[j]
    }
  }

  /** A number and three blocks of counts, as a summary lists them. */
  datatype Listing = Listing(n: nat, a: Table, b: Table, c: Table) {
    function Parts(): seq<string> {
      [PaddedInt(n, 10)] + (a.Parts() + (b.Parts() + (c.Parts() + [])))
    }

    predicate Like(l: Listing) {
      a.Like(l.a) && b.Like(l.b) && c.Like(l.c)
    }

    ghost predicate Sound() {
      a.Sound() && b.Sound() && c.Sound() && a.title != b.title && a.title != c.title && b.title != c.title
    }
  }

  ghost predicate Agree(l: Listing, k: Listing) {
    && l.n == k.n
    && SameCounts(l.a.names, l.a.count, k.a.count)
    && SameCounts(l.b.names, l.b.count, k.b.count)
    && SameCounts(l.c.names, l.c.count, k.c.count)
  }

  lemma TableDetermined(t: Table, u: Table, x: seq<string>, y: seq<string>)
    requires t.Sound() && t.Like(u) && StartsOtherwise(t.title, x) && StartsOtherwise(t.title, y)
    requires t.Parts() + x == u.Parts() + y
    ensures SameCounts(t.names, t.count, u.count) && x == y
  {
    CountsDetermined(t.title, t.names, t.count, u.count, x, y);
  }

  lemma FollowsOtherwise(l: Listing)
    requires l.Sound()
    ensures StartsOtherwise(l.a.title, l.b.Parts() + (l.c.Parts() + [])) && StartsOtherwise(l.b.title, l.c.Parts() + [])
  {
    CountPartsStart(l.c.title, l.c.names, l.c.count, [], l.b.title);
    CountPartsStart(l.c.title, l.c.names, l.c.count, [], l.a.title);
    CountPartsStart(l.b.title, l.b.names, l.b.count, l.c.Parts() + [], l.a.title);
  }

  /** The parts of a listing determine its counts. */
  lemma ListingDetermined(l: Listing, k: Listing)
    requires l.Sound() && k.Sound() && l.Like(k) && l.Parts() == k.Parts()
    ensures Agree(l, k)
  {
    assert l.Parts()[0] == PaddedInt(l.n, 10) && k.Parts()[0] == PaddedInt(k.n, 10);
    PaddedInjective(l.n, k.n, 10);
    assert l.Parts()[1..] == l.a.Parts() + (l.b.Parts() + (l.c.Parts() + []));
    assert k.Parts()[1..] == k.a.Parts() + (k.b.Parts() + (k.c.Parts() + []));
    FollowsOtherwise(l);
    FollowsOtherwise(k);
    TableDetermined(l.a, k.a, l.b.Parts() + (l.c.Parts() + []), k.b.Parts() + (k.c.Parts() + []));
    TableDetermined(l.b, k.b, l.c.Parts() + [], k.c.Parts() + []);
    TableDetermined(l.c, k.c, [], []);
  }

  lemma ListingPlain(l: Listing)
    requires l.Sound()
    ensures AllPlain(l.Parts()) && l.Parts() != []
  {
    PaddedValue(l.n, 10);
    CountPartsPlain(l.a.title, l.a.names, l.a.count);
    CountPartsPlain(l.b.title, l.b.names, l.b.count);
    CountPartsPlain(l.c.title, l.c.names, l.c.count);
  }

  function FamilyTable(items: seq<Snapshot>): Table {
    Table("family", ["acp", "sai", "wac"], f => FamilyCount(items, f))
  }

  function DecisionTable(items: seq<Snapshot>): Table {
    Table("decision", ["abstain", "allow", "deny"], d => DecisionCount(items, d))
  }

  function ModeTable(items: seq<Snapshot>): Table {
    Table("mode", ["read", "append", "write", "control"], m => ModeCount(items, m))
  }

  function ListingOf(items: seq<Snapshot>): Listing {
    Listing(|items|, FamilyTable(items), DecisionTable(items), ModeTable(items))
  }

  lemma FamilyTableSound(items: seq<Snapshot>)
    ensures FamilyTable(items).Sound()
  {
  }

  lemma DecisionTableSound(items: seq<Snapshot>)
    ensures DecisionTable(items).Sound()
  {
  }

  lemma ModeTableSound(items: seq<Snapshot>)
    ensures ModeTable(items).Sound()
  {
  }

  lemma ListingSound(items: seq<Snapshot>)
    ensures ListingOf(items).Sound()
  {
    FamilyTableSound(items);
    DecisionTableSound(items);
    ModeTableSound(items);
  }

  lemma SummaryIsListing(items: seq<Snapshot>)
    ensures SummaryParts(items) == ListingOf(items).Parts()
  {
    var f, d, m := FamilyTable(items), DecisionTable(items), ModeTable(items);
    SameCountParts("family", f.names, g => FamilyCount(items, g), f.count);
    SameCountParts("decision", d.names, g => DecisionCount(items, g), d.count);
    SameCountParts("mode", m.names, g => ModeCount(items, g), m.count);
    Chained([PaddedInt(|items|, 10)], f.Parts(), d.Parts(), m.Parts());
  }

  lemma Chained(n: seq<string>, a: seq<string>, b: seq<string>, c: seq<string>)
    ensures n + a + b + c == n + (a + (b + (c + [])))
  {
  }

  lemma TextDetermined(head: string, l: Listing, k: Listing, x: seq<string>, y: seq<string>)
    requires l.Sound() && k.Sound() && l.Like(k) && x == l.Parts() && y == k.Parts()
    requires Join([head] + x) == Join([head] + y)
    ensures Agree(l, k)
  {
    ListingPlain(l);
    ListingPlain(k);
    JoinDetermines(head, x, y);
    ListingDetermined(l, k);
  }

  lemma SummariesAgree(head: string, a: seq<Snapshot>, b: seq<Snapshot>)
    requires Join([head] + SummaryParts(a)) == Join([head] + SummaryParts(b))
    ensures Agree(ListingOf(a), ListingOf(b))
  {
    SummaryIsListing(a);
    SummaryIsListing(b);
    ListingSound(a);
    ListingSound(b);
    TextDetermined(head, ListingOf(a), ListingOf(b), SummaryParts(a), SummaryParts(b));
  }

  lemma NamesAgree(a: seq<Snapshot>, b: seq<Snapshot>, name: string)
    requires Agree(ListingOf(a), ListingOf(b))
    ensures name in {"acp", "sai", "wac"} ==> FamilyCount(a, name) == FamilyCount(b, name)
    ensures name in {"abstain", "allow", "deny"} ==> DecisionCount(a, name) == DecisionCount(b, name)
    ensures name in {"read", "append", "write", "control"} ==> ModeCount(a, name) == ModeCount(b, name)
  {
    var f, d, m := FamilyTable(a).names, DecisionTable(a).names, ModeTable(a).names;
    assert f[0] == "acp" && f[1] == "sai" && f[2] == "wac";
    assert d[0] == "abstain" && d[1] == "allow" && d[2] == "deny";
    assert m[0] == "read" && m[1] == "append" && m[2] == "write" && m[3] == "control";
  }

  /** Summaries with one hash count as many snapshots, and as many of each family, each decision and
      each mode. */
  lemma SummaryCommits(env: Env, a: seq<Snapshot>, b: seq<Snapshot>, name: string)
    requires Apart(env.digest, SummaryText(a), SummaryText(b)) && SummaryHash(env, a) == SummaryHash(env, b)
    ensures |a| == |b|
    ensures name in {"acp", "sai", "wac"} ==> FamilyCount(a, name) == FamilyCount(b, name)
    ensures name in {"abstain", "allow", "deny"} ==> DecisionCount(a, name) == DecisionCount(b, name)
    ensures name in {"read", "append", "write", "control"} ==> ModeCount(a, name) == ModeCount(b, name)
  {
    SummariesAgree("policy.fixture.summary.v1", a, b);
    NamesAgree(a, b, name);
  }
}
