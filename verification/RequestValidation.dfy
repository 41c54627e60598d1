/** Validated authorization requests (internal/authz/validation.go) and their canonical text
    (internal/authz/audit.go): what validation leaves unchecked decides which of them are determined
    by the text. */
module RequestValidation {

  import opened Sequences
  import opened Text
  import opened Sorting
  import opened AccessModes
  import opened PolicyInput
  import opened CanonicalRequest

  // ---------------------------------------------------------------- validation

  predicate ValidToken(s: string, maxLength: nat) {
    s != "" && Utf8Length(s) <= maxLength && forall i :: 0 <= i < |s| ==> '!' <= s[i] <= '~'
  }

  predicate SupportedMethod(verb: string) {
    verb in {"GET", "HEAD", "OPTIONS", "POST", "PUT", "PATCH", "DELETE"}
  }

  /** Nothing is asked of the parties, the versions and the metadata. */
  predicate ValidRequest(lib: Library, r: Request) {
    && r.schemaVersion == "authz.v1"
    && ValidToken(r.requestId, 128)
    && SupportedMethod(r.httpMethod)
    && ValidResourceUri(lib, r.resourceUri)
    && r.requestedModes != [] && ValidModes(r.requestedModes)
    && r.nowUnix >= 0
  }

  /** The requests that validation refuses. */
  lemma RefusedIff(lib: Library, r: Request)
    ensures !ValidRequest(lib, r) <==>
      || r.schemaVersion != "authz.v1"
      || r.requestId == "" || Utf8Length(r.requestId) > 128
      || (exists i :: 0 <= i < |r.requestId| && (r.requestId[i] < 0x21 as char || r.requestId[i] > 0x7e as char))
      || r.httpMethod !in ["GET", "HEAD", "OPTIONS", "POST", "PUT", "PATCH", "DELETE"]
      || !ValidResourceUri(lib, r.resourceUri)
      || r.requestedModes == []
      || (exists i :: 0 <= i < |r.requestedModes| && r.requestedModes[i] !in ["read", "append", "write", "control"])
      || (exists i, j :: 0 <= i < j < |r.requestedModes| && r.requestedModes[i] == r.requestedModes[j])
      || r.nowUnix < 0
  {
    MethodsAre(r.httpMethod);
    forall m ensures ValidMode(m) <==> m in ["read", "append", "write", "control"] {
      ModesAre(m);
    }
  }

  lemma MethodsAre(verb: string)
    ensures SupportedMethod(verb) <==> verb in ["GET", "HEAD", "OPTIONS", "POST", "PUT", "PATCH", "DELETE"]
  {
  }

  lemma ModesAre(mode: string)
    ensures ValidMode(mode) <==> mode in ["read", "append", "write", "control"]
  {
  }

  predicate ValidDocument(lib: Library, d: Document) {
    ValidResourceUri(lib, d.uri) && ValidSha256Hex(d.sha256) && Trim(d.contentType) != ""
  }

  /** The policy documents of a request are no part of its canonical text. */
  method ValidateRequest(lib: Library, r: Request, documents: seq<Document>) returns (ok: bool)
    ensures ok <==> ValidRequest(lib, r) && forall i :: 0 <= i < |documents| ==> ValidDocument(lib, documents[i])
  {
    if r.schemaVersion != "authz.v1" || !ValidToken(r.requestId, 128) || !SupportedMethod(r.httpMethod) {
      return false;
    }
    if !ValidResourceUri(lib, r.resourceUri) || |r.requestedModes| == 0 {
      return false;
    }
    var seen: set<string> := {};
    for i := 0 to |r.requestedModes|
      invariant seen == set m | m in r.requestedModes[..i]
      invariant ValidModes(r.requestedModes[..i])
    {
      var mode := r.requestedModes[i];
      assert r.requestedModes[..i + 1] == r.requestedModes[..i] + [mode];
      if !ValidMode(mode) {
        return false;
      }
      if mode in seen {
        assert exists j :: 0 <= j < i && r.requestedModes[j] == mode;
        return false;
      }
      assert forall j :: 0 <= j < i ==> r.requestedModes[..i][j] in seen;
      seen := seen + {mode};
    }
    assert r.requestedModes[..|r.requestedModes|] == r.requestedModes;
    if r.nowUnix < 0 {
      return false;
    }
    for i := 0 to |documents|
      invariant forall j :: 0 <= j < i ==> ValidDocument(lib, documents[j])
    {
      if !ValidDocument(lib, documents[i]) {
        return false;
      }
    }
    return true;
  }

  // ---------------------------------------------------------------- lines

  /** A character in front of lines. */
  function Pushed(c: char, lines: seq<string>): seq<string>
    requires lines != []
  {
    if c == RS then [""] + lines else [[c] + lines[0]] + lines[1..]
  }

  /** The stretches between terminators. */
  function Lines(s: string): (lines: seq<string>)
    ensures lines != []
  {
    if s == "" then [""] else Pushed(s[0], Lines(s[1..]))
  }

  lemma PushedFirst(c: char, a: seq<string>, b: seq<string>)
    requires a != []
    ensures Pushed(c, a + b) == Pushed(c, a) + b
  {
    assert (a + b)[1..] == a[1..] + b;
  }

  lemma {:induction false} LinesJoin(a: string, b: string)
    ensures Lines(a + [RS] + b) == Lines(a) + Lines(b)
  {
    var s := a + [RS] + b;
    if a == "" {
      assert s[1..] == b;
    } else {
      LinesJoin(a[1..], b);
      assert s[1..] == a[1..] + [RS] + b;
      PushedFirst(a[0], Lines(a[1..]), Lines(b));
    }
  }

  lemma {:induction false} LinesAfter(p: string, s: string)
    requires Unterminated(p)
    ensures Lines(p + s) == [p + Lines(s)[0]] + Lines(s)[1..]
  {
    if p == "" {
      assert p + s == s;
      assert "" + Lines(s)[0] == Lines(s)[0];
    } else {
      LinesAfter(p[1..], s);
      assert (p + s)[1..] == p[1..] + s;
      assert [p[0]] + (p[1..] + Lines(s)[0]) == p + Lines(s)[0];
    }
  }

  lemma {:induction false} LinesCount(s: string)
    ensures |Lines(s)| == 1 + Terminators(s)
  {
    if s == "" {
    } else {
      LinesCount(s[1..]);
    }
  }

  function Body(e: Entry): string {
    Spelling(e.name) + [US] + e.value
  }

  function LinesOf(e: Entry): seq<string> {
    Lines(Body(e))
  }

  /** The lines of written entries. */
  function EntryLines(es: seq<Entry>): seq<string> {
    FlatMap(LinesOf, es)
  }

  lemma EntryLinesAppend(a: seq<Entry>, b: seq<Entry>)
    ensures EntryLines(a + b) == EntryLines(a) + EntryLines(b)
  {
    FlatMapAppend(LinesOf, a, b);
  }

  lemma {:induction false} TextLines(es: seq<Entry>)
    ensures Lines(EncodeEntries(Spelling, es)) == EntryLines(es) + [""]
  {
    if es == [] {
      assert AsFields(Spelling, es) == [];
    } else {
      var rest := EncodeEntries(Spelling, es[1..]);
      TextLines(es[1..]);
      assert es == [es[0]] + es[1..];
      EncodeConcat(Spelling, [es[0]], es[1..]);
      EncodeOne(Spelling, es[0]);
      assert EncodeEntries(Spelling, es) == Body(es[0]) + [RS] + rest;
      LinesJoin(Body(es[0]), rest);
      Regroup(LinesOf(es[0]), EntryLines(es[1..]), [""]);
    }
  }

  /** One text, one list of lines. */
  lemma SameLines(a: seq<Entry>, b: seq<Entry>)
    requires EncodeEntries(Spelling, a) == EncodeEntries(Spelling, b)
    ensures EntryLines(a) == EntryLines(b)
  {
    TextLines(a);
    TextLines(b);
    var x, y := EntryLines(a) + [""], EntryLines(b) + [""];
    assert EntryLines(a) == x[..|x| - 1] && EntryLines(b) == y[..|y| - 1];
  }

  ghost predicate Named(line: string, n: Name) {
    Spelling(n) + [US] <= line
  }

  lemma NameLength(line: string, n: Name)
    requires Named(line, n)
    ensures Find(line, US) == |Spelling(n)| && line[..|Spelling(n)|] == Spelling(n)
  {
    var a := Spelling(n);
    SpellingPlain(n);
    assert line == a + [US] + line[|a| + 1..];
    FindPrefix(a, US, line[|a| + 1..]);
  }

  lemma OneName(line: string, n: Name, m: Name)
    requires Named(line, n) && Named(line, m)
    ensures n == m
  {
    NameLength(line, n);
    NameLength(line, m);
    SpellingInjective(n, m);
  }

  lemma BodyLines(e: Entry)
    ensures |Lines(Body(e))| == 1 + Terminators(e.value) && Named(Lines(Body(e))[0], e.name)
  {
    var p := Spelling(e.name) + [US];
    SpellingPlain(e.name);
    LinesAfter(p, e.value);
    LinesCount(e.value);
  }

  /** There is a line for each entry, and no more if and only if no value holds a terminator; the first
      line has the name of the first entry. */
  lemma {:induction false} LinesOfEntries(es: seq<Entry>)
    ensures |EntryLines(es)| >= |es| && (|EntryLines(es)| == |es| <==> PlainEntries(es))
    ensures if es == [] then EntryLines(es) == [] else Named(EntryLines(es)[0], es[0].name)
  {
    if es == [] {
    } else {
      LinesOfEntries(es[1..]);
      BodyLines(es[0]);
      UnterminatedIff(es[0].value);
      assert forall i :: 1 <= i < |es| ==> es[i] == es[1..][i - 1];
    }
  }

  lemma {:induction false} PlainLines(es: seq<Entry>)
    requires PlainEntries(es)
    ensures |EntryLines(es)| == |es| && forall i :: 0 <= i < |es| ==> Named(EntryLines(es)[i], es[i].name)
  {
    if es == [] {
    } else {
      PlainLines(es[1..]);
      BodyLines(es[0]);
      UnterminatedIff(es[0].value);
    }
  }

  // ---------------------------------------------------------------- the parts of a request

  function Parties(r: Request): seq<Entry> {
    Optional(AgentWebId, r.agentWebId) + Optional(ClientId, r.clientId) + Optional(Issuer, r.issuer) + Optional(Origin, r.origin)
  }

  function Modes(r: Request): seq<Entry> {
    ModeFields(SortBy(ModeLess, r.requestedModes))
  }

  ghost function Metadata(r: Request): seq<Entry> {
    MetadataFields(SortedKeys(r.resourceMetadata), r.resourceMetadata)
  }

  ghost function Details(r: Request): seq<Entry> {
    Optional(ResourceVersion, r.resourceVersion) + Optional(PolicyVersion, r.policyVersion) + Metadata(r)
  }

  lemma ExtraIs(r: Request)
    ensures ExtraFields(r) == Parties(r) + (Modes(r) + Details(r))
  {
    var versions := Optional(ResourceVersion, r.resourceVersion) + Optional(PolicyVersion, r.policyVersion);
    Regroup(Parties(r) + Modes(r), Optional(ResourceVersion, r.resourceVersion), Optional(PolicyVersion, r.policyVersion));
    Regroup(Parties(r) + Modes(r), versions, Metadata(r));
    Regroup(Parties(r), Modes(r), Details(r));
  }

  predicate IsParty(n: Name) {
    n == AgentWebId || n == ClientId || n == Issuer || n == Origin
  }

  predicate IsDetail(n: Name) {
    n == ResourceVersion || n == PolicyVersion || n == MetadataKey || n == MetadataValue
  }

  lemma {:induction false} MetadataNames(keys: seq<string>, metadata: map<string, string>)
    requires forall k :: k in keys ==> k in metadata
    ensures |MetadataFields(keys, metadata)| == 2 * |keys|
    ensures forall i :: 0 <= i < |MetadataFields(keys, metadata)| ==> IsDetail(MetadataFields(keys, metadata)[i].name)
    ensures keys != [] ==> MetadataFields(keys, metadata)[0].name == MetadataKey
  {
    if keys == [] {
    } else {
      MetadataNames(keys[1..], metadata);
    }
  }

  lemma {:induction false} ModeNames(modes: seq<string>)
    ensures |ModeFields(modes)| == |modes|
    ensures forall i :: 0 <= i < |modes| ==> ModeFields(modes)[i].name == RequestedMode
  {
    if modes == [] {
    } else {
      ModeNames(modes[1..]);
    }
  }

  lemma PartNames(r: Request)
    ensures forall i :: 0 <= i < |Parties(r)| ==> IsParty(Parties(r)[i].name)
    ensures forall i :: 0 <= i < |Modes(r)| ==> Modes(r)[i].name == RequestedMode
    ensures forall i :: 0 <= i < |Details(r)| ==> IsDetail(Details(r)[i].name)
  {
    ModeNames(SortBy(ModeLess, r.requestedModes));
    MetadataNames(SortedKeys(r.resourceMetadata), r.resourceMetadata);
  }

  lemma SameLength(modes: seq<string>)
    ensures |SortBy(ModeLess, modes)| == |modes|
  {
    SortMultiset(ModeLess, modes);
    assert |multiset(SortBy(ModeLess, modes))| == |multiset(modes)|;
  }

  // ---------------------------------------------------------------- what the text determines

  /** How many of the parties a request names. */
  function PartyCount(r: Request): nat {
    |Parties(r)|
  }

  /** How many versions and metadata entries it carries. */
  function DetailCount(r: Request): nat {
    (if r.resourceVersion != "" then 1 else 0) + (if r.policyVersion != "" then 1 else 0) + |r.resourceMetadata|
  }

  /** At most one party, and then only one mode, and at most one version or metadata entry. */
  predicate Sparse(r: Request) {
    && PartyCount(r) <= 1
    && (PartyCount(r) == 1 ==> |r.requestedModes| == 1)
    && DetailCount(r) <= 1
  }

  ghost predicate DeterminedAmongValid(lib: Library, a: Request) {
    forall b :: ValidRequest(lib, b) && CanonicalText(b) == CanonicalText(a) ==> SameRequest(a, b)
  }

  /** No line of the list has the name. */
  ghost predicate NoneNamed(lines: seq<string>, n: Name) {
    forall i :: 0 <= i < |lines| ==> !Named(lines[i], n)
  }

  ghost predicate LinesNamed(lines: seq<string>, n: Name) {
    forall i :: 0 <= i < |lines| ==> Named(lines[i], n)
  }

  /** Two ways to cut lines around a block with one name: the first knows all names, the second only
      that its last stretch does not begin with the name. */
  lemma Blocks(p: seq<string>, m: seq<string>, q: seq<string>, u: seq<string>, n: seq<string>, v: seq<string>, name: Name)
    requires p + m + q == u + n + v && n != []
    requires NoneNamed(p, name) && LinesNamed(m, name) && NoneNamed(q, name)
    requires LinesNamed(n, name) && (v != [] ==> !Named(v[0], name))
    ensures |p| <= |u| && |u| + |n| == |p| + |m| && q == v
  {
    var all, end := p + m + q, |u| + |n|;
    BlockInside(p, m, q, |u|, name);
    BlockInside(p, m, q, end - 1, name);
    assert all[|u|] == n[0] && all[end - 1] == n[|n| - 1];
    if end < |all| {
      BlockInside(p, m, q, end, name);
      assert all[end] == v[0];
    }
    assert q == all[|p| + |m|..] && v == all[end..];
  }

  lemma BlockInside(p: seq<string>, m: seq<string>, q: seq<string>, i: nat, name: Name)
    requires NoneNamed(p, name) && LinesNamed(m, name) && NoneNamed(q, name) && i < |p + m + q|
    ensures Named((p + m + q)[i], name) <==> |p| <= i < |p| + |m|
  {
    if i < |p| {
      assert (p + m + q)[i] == p[i];
    } else if i < |p| + |m| {
      assert (p + m + q)[i] == m[i - |p|];
    } else {
      assert (p + m + q)[i] == q[i - |p| - |m|];
    }
  }

  /** The four fields at the start and the time at the end hold no terminator. */
  lemma ValidPlain(lib: Library, r: Request)
    requires ValidRequest(lib, r)
    ensures PlainEntries(TargetFields(r)) && PlainEntries([Entry(NowUnix, Decimal(r.nowUnix))]) && PlainEntries(Modes(r))
  {
    NoControlIsPlain(r.resourceUri);
    DecimalRoundTrip(r.nowUnix);
    SortedModesPlain(r.requestedModes);
    MethodPlain(r.httpMethod);
  }

  lemma MethodPlain(verb: string)
    requires SupportedMethod(verb)
    ensures Unterminated(verb)
  {
  }

  lemma RequestLines(r: Request)
    ensures EntryLines(RequestFields(r)) ==
      EntryLines(TargetFields(r)) + EntryLines(ExtraFields(r)) + EntryLines([Entry(NowUnix, Decimal(r.nowUnix))])
    ensures EntryLines(ExtraFields(r)) == EntryLines(Parties(r)) + EntryLines(Modes(r)) + EntryLines(Details(r))
  {
    FieldsInThree(r);
    EntryLinesAppend(TargetFields(r) + ExtraFields(r), [Entry(NowUnix, Decimal(r.nowUnix))]);
    EntryLinesAppend(TargetFields(r), ExtraFields(r));
    ExtraIs(r);
    EntryLinesAppend(Parties(r), Modes(r) + Details(r));
    EntryLinesAppend(Modes(r), Details(r));
    Regroup(EntryLines(Parties(r)), EntryLines(Modes(r)), EntryLines(Details(r)));
  }

  lemma CutEnds(a: seq<string>, x: seq<string>, c: seq<string>, b: seq<string>, y: seq<string>, d: seq<string>)
    requires a + x + c == b + y + d && |a| == |b| && |c| == |d|
    ensures x == y
  {
    var s := a + x + c;
    assert x == s[|a|..|s| - |c|] && y == s[|a|..|s| - |c|];
  }

  lemma SameExtraLines(lib: Library, a: Request, b: Request)
    requires ValidRequest(lib, a) && ValidRequest(lib, b) && CanonicalText(a) == CanonicalText(b)
    ensures EntryLines(ExtraFields(a)) == EntryLines(ExtraFields(b))
  {
    var s, t := [Entry(NowUnix, Decimal(a.nowUnix))], [Entry(NowUnix, Decimal(b.nowUnix))];
    ValidPlain(lib, a);
    ValidPlain(lib, b);
    PlainLines(TargetFields(a));
    PlainLines(TargetFields(b));
    PlainLines(s);
    PlainLines(t);
    SameLines(RequestFields(a), RequestFields(b));
    RequestLines(a);
    RequestLines(b);
    CutEnds(EntryLines(TargetFields(a)), EntryLines(ExtraFields(a)), EntryLines(s),
            EntryLines(TargetFields(b)), EntryLines(ExtraFields(b)), EntryLines(t));
  }

  lemma NotNamed(line: string, n: Name, m: Name)
    requires Named(line, n) && n != m
    ensures !Named(line, m)
  {
    if Named(line, m) {
      OneName(line, n, m);
    }
  }

  lemma PlainOtherNames(es: seq<Entry>, name: Name)
    requires PlainEntries(es) && forall i :: 0 <= i < |es| ==> es[i].name != name
    ensures |EntryLines(es)| == |es| && NoneNamed(EntryLines(es), name)
  {
    PlainLines(es);
    forall i | 0 <= i < |es| ensures !Named(EntryLines(es)[i], name) {
      NotNamed(EntryLines(es)[i], es[i].name, name);
    }
  }

  lemma ModeLines(lib: Library, r: Request)
    requires ValidRequest(lib, r)
    ensures |EntryLines(Modes(r))| == |r.requestedModes| && LinesNamed(EntryLines(Modes(r)), RequestedMode)
  {
    ValidPlain(lib, r);
    PlainLines(Modes(r));
    PartNames(r);
    ModeNames(SortBy(ModeLess, r.requestedModes));
    SameLength(r.requestedModes);
  }

  lemma DetailsPlain(r: Request)
    requires PlainRequest(r)
    ensures PlainEntries(Parties(r)) && PlainEntries(Details(r))
  {
    MetadataFieldsPlain(SortedKeys(r.resourceMetadata), r.resourceMetadata);
  }

  lemma PlainParts(r: Request)
    requires PlainRequest(r)
    ensures |EntryLines(Parties(r))| == |Parties(r)| && NoneNamed(EntryLines(Parties(r)), RequestedMode)
    ensures NoneNamed(EntryLines(Details(r)), RequestedMode)
  {
    DetailsPlain(r);
    PartNames(r);
    PlainOtherNames(Parties(r), RequestedMode);
    PlainOtherNames(Details(r), RequestedMode);
  }

  lemma FirstDetail(r: Request)
    ensures EntryLines(Details(r)) != [] ==> !Named(EntryLines(Details(r))[0], RequestedMode)
  {
    PartNames(r);
    LinesOfEntries(Details(r));
    if Details(r) != [] {
      NotNamed(EntryLines(Details(r))[0], Details(r)[0].name, RequestedMode);
    }
  }

  /** Where the lines of a request with the same text fall. */
  lemma Aligned(lib: Library, a: Request, b: Request)
    requires ValidRequest(lib, a) && PlainRequest(a) && ValidRequest(lib, b) && CanonicalText(a) == CanonicalText(b)
    ensures |Parties(a)| <= |EntryLines(Parties(b))|
    ensures |EntryLines(Parties(b))| + |b.requestedModes| == |Parties(a)| + |a.requestedModes|
    ensures EntryLines(Details(b)) == EntryLines(Details(a))
  {
    SameExtraLines(lib, a, b);
    RequestLines(a);
    RequestLines(b);
    ModeLines(lib, a);
    ModeLines(lib, b);
    PlainParts(a);
    FirstDetail(b);
    Blocks(EntryLines(Parties(a)), EntryLines(Modes(a)), EntryLines(Details(a)),
           EntryLines(Parties(b)), EntryLines(Modes(b)), EntryLines(Details(b)), RequestedMode);
  }

  // ---------------------------------------------------------------- sparse requests

  lemma {:induction false} DistinctSize(s: seq<string>)
    requires Distinct(s)
    ensures |Elements(s)| == |s|
  {
    if s == [] {
    } else {
      var front, last := s[..|s| - 1], s[|s| - 1];
      DistinctSize(front);
      assert Elements(s) == Elements(front) + {last};
    }
  }

  lemma KeyCount(metadata: map<string, string>)
    ensures |SortedKeys(metadata)| == |metadata|
  {
    var s := Enumerate(metadata.Keys);
    DistinctSize(s);
    SortMultiset(Less, s);
    assert |multiset(SortBy(Less, s))| == |multiset(s)|;
  }

  lemma DetailsSize(r: Request)
    ensures |Details(r)| == DetailCount(r) + |r.resourceMetadata| && |Metadata(r)| == 2 * |r.resourceMetadata|
    ensures r.resourceVersion == "" && r.policyVersion == "" ==> Details(r) == Metadata(r)
    ensures r.resourceVersion != "" || r.policyVersion != "" ==> Details(r) != [] && Details(r)[0].name != MetadataKey
    ensures Metadata(r) != [] ==> Metadata(r)[0].name == MetadataKey
  {
    KeyCount(r.resourceMetadata);
    MetadataNames(SortedKeys(r.resourceMetadata), r.resourceMetadata);
  }

  /** A part that has one line is one entry without a terminator. */
  lemma OneLine(es: seq<Entry>)
    requires |EntryLines(es)| <= 1
    ensures PlainEntries(es) && |es| == |EntryLines(es)|
  {
    LinesOfEntries(es);
  }

  lemma SparseParties(lib: Library, a: Request, b: Request)
    requires ValidRequest(lib, a) && PlainRequest(a) && ValidRequest(lib, b) && CanonicalText(a) == CanonicalText(b)
    requires PartyCount(a) <= 1 && (PartyCount(a) == 1 ==> |a.requestedModes| == 1)
    ensures PlainEntries(Parties(b))
  {
    Aligned(lib, a, b);
    if PartyCount(a) == 1 {
      OneLine(Parties(b));
    } else if Parties(b) != [] {
      SameExtraLines(lib, a, b);
      RequestLines(a);
      RequestLines(b);
      PlainParts(a);
      ModeLines(lib, a);
      PartNames(b);
      LinesOfEntries(Parties(b));
      var line := EntryLines(ExtraFields(a))[0];
      assert line == EntryLines(Modes(a))[0] && line == EntryLines(Parties(b))[0];
      OneName(line, RequestedMode, Parties(b)[0].name);
    }
  }

  lemma SparseDetails(a: Request, b: Request)
    requires PlainRequest(a) && DetailCount(a) <= 1 && EntryLines(Details(b)) == EntryLines(Details(a))
    ensures PlainEntries(Details(b))
  {
    DetailsPlain(a);
    PlainLines(Details(a));
    DetailsSize(a);
    if |Details(a)| <= 1 {
      OneLine(Details(b));
    } else {
      LinesOfEntries(Details(b));
      DetailsSize(b);
      OneName(EntryLines(Details(a))[0], MetadataKey, Details(b)[0].name);
    }
  }

  lemma PartsPlain(lib: Library, r: Request)
    requires ValidRequest(lib, r) && PlainEntries(Parties(r)) && PlainEntries(Details(r))
    ensures PlainEntries(RequestFields(r))
  {
    ValidPlain(lib, r);
    FieldsInThree(r);
    ExtraIs(r);
    PlainAppend(Modes(r), Details(r));
    PlainAppend(Parties(r), Modes(r) + Details(r));
    PlainAppend(TargetFields(r), ExtraFields(r));
    PlainAppend(TargetFields(r) + ExtraFields(r), [Entry(NowUnix, Decimal(r.nowUnix))]);
  }

  lemma SparseDetermined(lib: Library, a: Request, b: Request)
    requires ValidRequest(lib, a) && PlainRequest(a) && Sparse(a)
    requires ValidRequest(lib, b) && CanonicalText(a) == CanonicalText(b)
    ensures SameRequest(a, b)
  {
    Aligned(lib, a, b);
    SparseParties(lib, a, b);
    SparseDetails(a, b);
    PartsPlain(lib, b);
    RequestFieldsPlain(a);
    EntriesInjective(RequestFields(a), RequestFields(b));
    SameTextSameRequest(a, b);
  }

  // ---------------------------------------------------------------- other requests

  /** The value that takes in the entries after it. */
  function Folded(e: Entry, rest: seq<Entry>): string {
    var text := EncodeEntries(Spelling, rest);
    if text == "" then e.value else e.value + [RS] + text[..|text| - 1]
  }

  lemma FoldedEntry(e: Entry, rest: seq<Entry>)
    requires rest != []
    ensures EncodeEntries(Spelling, [Entry(e.name, Folded(e, rest))]) == EncodeEntries(Spelling, [e] + rest)
    ensures |Folded(e, rest)| > |e.value|
  {
    var text := EncodeEntries(Spelling, rest);
    EndsTerminated(AsFields(Spelling, rest));
    EncodeConcat(Spelling, [e], rest);
    EncodeOne(Spelling, e);
    EncodeOne(Spelling, Entry(e.name, Folded(e, rest)));
    FoldedField(Spelling(e.name), e.value, text[..|text| - 1]);
  }

  lemma SameTextFromExtra(a: Request, b: Request)
    requires TargetFields(a) == TargetFields(b) && a.nowUnix == b.nowUnix
    requires EncodeEntries(Spelling, ExtraFields(a)) == EncodeEntries(Spelling, ExtraFields(b))
    ensures CanonicalText(a) == CanonicalText(b)
  {
    TextInThree(a);
    TextInThree(b);
  }

  lemma ExtraText(r: Request)
    ensures EncodeEntries(Spelling, ExtraFields(r)) == EncodeEntries(Spelling, Parties(r))
      + (EncodeEntries(Spelling, Modes(r)) + EncodeEntries(Spelling, Details(r)))
  {
    ExtraIs(r);
    EncodeConcat(Spelling, Parties(r), Modes(r) + Details(r));
    EncodeConcat(Spelling, Modes(r), Details(r));
  }

  /** The request with one party only. */
  function WithParty(r: Request, e: Entry): Request
    requires IsParty(e.name)
  {
    var none := r.(agentWebId := "", clientId := "", issuer := "", origin := "");
    match e.name
    case AgentWebId => none.(agentWebId := e.value)
    case ClientId => none.(clientId := e.value)
    case Issuer => none.(issuer := e.value)
    case Origin => none.(origin := e.value)
  }

  lemma WithPartyIs(r: Request, e: Entry)
    requires IsParty(e.name) && e.value != ""
    ensures Parties(WithParty(r, e)) == [e] && Modes(WithParty(r, e)) == Modes(r) && Details(WithParty(r, e)) == Details(r)
  {
  }

  lemma FirstParty(r: Request)
    requires Parties(r) != []
    ensures IsParty(Parties(r)[0].name) && Parties(r)[0].value != ""
  {
    PartNames(r);
  }

  lemma PartiesDiffer(a: Request, b: Request)
    requires Parties(a) != [] && Parties(b) != [] && |Parties(a)[0].value| != |Parties(b)[0].value|
    ensures !SameRequest(a, b)
  {
    SamePartyFields(a, b);
  }

  lemma SamePartyFields(a: Request, b: Request)
    ensures SameRequest(a, b) ==> Parties(a) == Parties(b)
  {
  }

  /** Two parties: the first takes in the others. */
  lemma PartiesFold(lib: Library, a: Request) returns (b: Request)
    requires ValidRequest(lib, a) && PartyCount(a) >= 2
    ensures ValidRequest(lib, b) && CanonicalText(b) == CanonicalText(a) && !SameRequest(a, b)
  {
    var e, rest := Parties(a)[0], Parties(a)[1..];
    FirstParty(a);
    FoldedEntry(e, rest);
    var f := Entry(e.name, Folded(e, rest));
    assert Parties(a) == [e] + rest;
    b := WithParty(a, f);
    WithPartyIs(a, f);
    ExtraText(a);
    ExtraText(b);
    SameTextFromExtra(a, b);
    PartiesDiffer(a, b);
  }

  lemma RestSorted(modes: seq<string>)
    requires ValidModes(modes) && |modes| >= 2
    ensures var s := SortBy(ModeLess, modes); |s| == |modes| && ValidModes(s[1..]) && SortBy(ModeLess, s[1..]) == s[1..]
  {
    var s := SortBy(ModeLess, modes);
    SameLength(modes);
    ValidModesComparable(modes);
    SortSorted(ModeLess, modes);
    SortMultiset(ModeLess, modes);
    SameElements(s, modes);
    forall i | 0 <= i < |s| ensures ValidMode(s[i]) {
      assert s[i] in modes;
    }
    assert Sorted(ModeLess, s[1..]);
    SortedStays(s[1..]);
  }

  lemma SortedStays(s: seq<string>)
    requires Sorted(ModeLess, s)
    ensures SortBy(ModeLess, s) == s
  {
    SortSorted(ModeLess, s);
    SortMultiset(ModeLess, s);
    SameElements(SortBy(ModeLess, s), s);
    SortedUnique(ModeLess, SortBy(ModeLess, s), s);
  }

  lemma MoveOver(p: string, t: string, m: string, d: string)
    ensures p + ((t + m) + d) == (p + t) + (m + d)
  {
  }

  /** The text is the same when text moves from the modes to the parties. */
  lemma MovedText(a: Request, b: Request, moved: string)
    requires TargetFields(a) == TargetFields(b) && a.nowUnix == b.nowUnix && Details(a) == Details(b)
    requires EncodeEntries(Spelling, Parties(b)) == EncodeEntries(Spelling, Parties(a)) + moved
    requires EncodeEntries(Spelling, Modes(a)) == moved + EncodeEntries(Spelling, Modes(b))
    ensures CanonicalText(a) == CanonicalText(b)
  {
    ExtraText(a);
    ExtraText(b);
    MoveOver(EncodeEntries(Spelling, Parties(a)), moved, EncodeEntries(Spelling, Modes(b)), EncodeEntries(Spelling, Details(a)));
    SameTextFromExtra(a, b);
  }

  lemma ModesSplit(modes: seq<string>)
    requires modes != []
    ensures EncodeEntries(Spelling, ModeFields(modes)) ==
      EncodeEntries(Spelling, [Entry(RequestedMode, modes[0])]) + EncodeEntries(Spelling, ModeFields(modes[1..]))
  {
    EncodeConcat(Spelling, [Entry(RequestedMode, modes[0])], ModeFields(modes[1..]));
  }

  lemma TakesText(a: Request, b: Request, e: Entry, s: seq<string>)
    requires TargetFields(a) == TargetFields(b) && a.nowUnix == b.nowUnix && Details(a) == Details(b) && s != []
    requires Parties(a) == [e] && Parties(b) == [Entry(e.name, Folded(e, [Entry(RequestedMode, s[0])]))]
    requires Modes(a) == ModeFields(s) && Modes(b) == ModeFields(s[1..])
    ensures CanonicalText(b) == CanonicalText(a)
  {
    var taken := [Entry(RequestedMode, s[0])];
    FoldedEntry(e, taken);
    EncodeConcat(Spelling, [e], taken);
    ModesSplit(s);
    MovedText(a, b, EncodeEntries(Spelling, taken));
  }

  /** A party and two modes: the party takes in the first mode. */
  lemma PartyTakesMode(lib: Library, a: Request) returns (b: Request)
    requires ValidRequest(lib, a) && PartyCount(a) == 1 && |a.requestedModes| >= 2
    ensures ValidRequest(lib, b) && CanonicalText(b) == CanonicalText(a) && !SameRequest(a, b)
  {
    var e, s := Parties(a)[0], SortBy(ModeLess, a.requestedModes);
    RestSorted(a.requestedModes);
    var taken := [Entry(RequestedMode, s[0])];
    FirstParty(a);
    FoldedEntry(e, taken);
    var f := Entry(e.name, Folded(e, taken));
    var fewer := a.(requestedModes := s[1..]);
    b := WithParty(fewer, f);
    WithPartyIs(fewer, f);
    assert Parties(a) == [e];
    PartiesDiffer(a, b);
    TakesText(a, b, e, s);
  }

  lemma SameBeforeDetails(lib: Library, a: Request, b: Request)
    requires ValidRequest(lib, a)
    requires b == a.(resourceVersion := b.resourceVersion, policyVersion := b.policyVersion, resourceMetadata := b.resourceMetadata)
    requires EncodeEntries(Spelling, Details(a)) == EncodeEntries(Spelling, Details(b))
    ensures ValidRequest(lib, b) && CanonicalText(b) == CanonicalText(a)
  {
    ExtraText(a);
    ExtraText(b);
    SameTextFromExtra(a, b);
  }

  lemma NoMetadata(r: Request)
    requires r.resourceMetadata == map[]
    ensures Metadata(r) == []
  {
    DetailsSize(r);
  }

  lemma OneVersion(r: Request)
    requires r.resourceMetadata == map[] && (r.resourceVersion == "" <==> r.policyVersion != "")
    ensures Details(r) == if r.resourceVersion != "" then [Entry(ResourceVersion, r.resourceVersion)]
                          else [Entry(PolicyVersion, r.policyVersion)]
  {
    NoMetadata(r);
  }

  /** A version and something after it: the version takes in the rest. */
  lemma VersionFolds(lib: Library, a: Request) returns (b: Request)
    requires ValidRequest(lib, a) && DetailCount(a) >= 2 && (a.resourceVersion != "" || a.policyVersion != "")
    ensures ValidRequest(lib, b) && CanonicalText(b) == CanonicalText(a) && !SameRequest(a, b)
  {
    DetailsSize(a);
    var e, rest := Details(a)[0], Details(a)[1..];
    assert Details(a) == [e] + rest;
    FoldedEntry(e, rest);
    if a.resourceVersion != "" {
      b := a.(resourceVersion := Folded(e, rest), policyVersion := "", resourceMetadata := map[]);
    } else {
      b := a.(policyVersion := Folded(e, rest), resourceMetadata := map[]);
    }
    OneVersion(b);
    SameBeforeDetails(lib, a, b);
  }

  lemma OneKey(k: string, v: string)
    ensures SortedKeys(map[k := v]) == [k] && MetadataFields([k], map[k := v]) == [Entry(MetadataKey, k), Entry(MetadataValue, v)]
  {
    var m := map[k := v];
    KeyCount(m);
    assert SortedKeys(m)[0] in Elements(SortedKeys(m));
    assert [k][1..] == [];
    assert MetadataFields([], m) == [];
  }

  lemma ValueFolds(k: Entry, v: Entry, rest: seq<Entry>)
    requires rest != []
    ensures EncodeEntries(Spelling, [k] + ([v] + rest)) == EncodeEntries(Spelling, [k] + [Entry(v.name, Folded(v, rest))])
  {
    FoldedEntry(v, rest);
    EncodeConcat(Spelling, [k], [v] + rest);
    EncodeConcat(Spelling, [k], [Entry(v.name, Folded(v, rest))]);
  }

  lemma MetadataSplit(keys: seq<string>, m: map<string, string>)
    requires keys != [] && forall k :: k in keys ==> k in m
    ensures MetadataFields(keys, m)
         == [Entry(MetadataKey, keys[0])] + ([Entry(MetadataValue, m[keys[0]])] + MetadataFields(keys[1..], m))
  {
  }

  lemma MetadataFolded(m: map<string, string>) returns (n: map<string, string>)
    requires |m| >= 2
    ensures |n| == 1
    ensures EncodeEntries(Spelling, MetadataFields(SortedKeys(n), n)) == EncodeEntries(Spelling, MetadataFields(SortedKeys(m), m))
  {
    var keys := SortedKeys(m);
    KeyCount(m);
    MetadataNames(keys[1..], m);
    MetadataSplit(keys, m);
    var k, v, rest := Entry(MetadataKey, keys[0]), Entry(MetadataValue, m[keys[0]]), MetadataFields(keys[1..], m);
    ValueFolds(k, v, rest);
    n := map[keys[0] := Folded(v, rest)];
    OneKey(keys[0], Folded(v, rest));
    assert [k] + [Entry(MetadataValue, Folded(v, rest))] == [k, Entry(MetadataValue, Folded(v, rest))];
  }

  /** Two metadata entries: the value of the first takes in the rest. */
  lemma MetadataFolds(lib: Library, a: Request) returns (b: Request)
    requires ValidRequest(lib, a) && a.resourceVersion == "" && a.policyVersion == "" && |a.resourceMetadata| >= 2
    ensures ValidRequest(lib, b) && CanonicalText(b) == CanonicalText(a) && !SameRequest(a, b)
  {
    var n := MetadataFolded(a.resourceMetadata);
    b := a.(resourceMetadata := n);
    DetailsSize(a);
    DetailsSize(b);
    SameBeforeDetails(lib, a, b);
  }

  lemma NotSparseShares(lib: Library, a: Request) returns (b: Request)
    requires ValidRequest(lib, a) && !Sparse(a)
    ensures ValidRequest(lib, b) && CanonicalText(b) == CanonicalText(a) && !SameRequest(a, b)
  {
    if PartyCount(a) >= 2 {
      b := PartiesFold(lib, a);
    } else if PartyCount(a) == 1 && |a.requestedModes| != 1 {
      b := PartyTakesMode(lib, a);
    } else if a.resourceVersion != "" || a.policyVersion != "" {
      b := VersionFolds(lib, a);
    } else {
      b := MetadataFolds(lib, a);
    }
  }

  /** A valid request without terminators in its strings is determined by its text among all valid
      requests, terminators allowed where validation lets them through, if and only if it names at
      most one party, then with only one mode, and carries at most one version or metadata entry. */
  lemma ValidDeterminedIff(lib: Library, a: Request)
    requires ValidRequest(lib, a) && PlainRequest(a)
    ensures DeterminedAmongValid(lib, a) <==> Sparse(a)
  {
    if Sparse(a) {
      forall b | ValidRequest(lib, b) && CanonicalText(b) == CanonicalText(a) ensures SameRequest(a, b) {
        SparseDetermined(lib, a, b);
      }
    } else {
      var b := NotSparseShares(lib, a);
    }
  }
}
