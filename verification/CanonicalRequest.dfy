/** The canonical text of an authorization request (internal/authz/audit.go), whose digest is
    the request hash of the audit trail. */
module CanonicalRequest {

  import opened Text
  import opened Sequences
  import opened Sorting
  import opened AccessModes

  datatype Request = Request(
    schemaVersion: string,
    requestId: string,
    httpMethod: string,
    resourceUri: string,
    agentWebId: string,
    clientId: string,
    issuer: string,
    origin: string,
    requestedModes: seq<string>,
    resourceVersion: string,
    policyVersion: string,
    resourceMetadata: map<string, string>,
    nowUnix: int)

  // ---------------------------------------------------------------- field names

  datatype Name =
    | SchemaVersion | RequestId | Method | ResourceUri
    | AgentWebId | ClientId | Issuer | Origin
    | RequestedMode | ResourceVersion | PolicyVersion
    | MetadataKey | MetadataValue | NowUnix

  function Spelling(n: Name): string {
    match n
    case SchemaVersion => "schema_version"
    case RequestId => "request_id"
    case Method => "method"
    case ResourceUri => "resource_uri"
    case AgentWebId => "agent_webid"
    case ClientId => "client_id"
    case Issuer => "issuer"
    case Origin => "origin"
    case RequestedMode => "requested_mode"
    case ResourceVersion => "resource_version"
    case PolicyVersion => "policy_version"
    case MetadataKey => "resource_metadata_key"
    case MetadataValue => "resource_metadata_value"
    case NowUnix => "now_unix"
  }

  lemma SpellingInjective(n: Name, m: Name)
    requires Spelling(n) == Spelling(m)
    ensures n == m
  {
    var a, b := Spelling(n), Spelling(m);
    assert |a| == |b| && a[0] == b[0];
  }

  lemma SpellingPlain(n: Name)
    ensures Plain(Spelling(n))
  {
    var s := Spelling(n);
    if |s| <= 12 {
      ShortNamePlain(n);
    } else if |s| <= 16 {
      LongNamePlain(n);
    }
  }

  lemma ShortNamePlain(n: Name)
    requires |Spelling(n)| <= 12
    ensures Plain(Spelling(n))
  {
  }

  lemma LongNamePlain(n: Name)
    requires 12 < |Spelling(n)| <= 16
    ensures Plain(Spelling(n))
  {
  }

  datatype Entry = Entry(name: Name, value: string)

  function AsField(spell: Name -> string): Entry -> Field {
    (e: Entry) => Field(spell(e.name), e.value)
  }

  function AsFields(spell: Name -> string, es: seq<Entry>): seq<Field> {
    Map(AsField(spell), es)
  }

  function EncodeEntries(spell: Name -> string, es: seq<Entry>): string {
    EncodeFields(AsFields(spell, es))
  }

  lemma EncodeConcat(spell: Name -> string, a: seq<Entry>, b: seq<Entry>)
    ensures EncodeEntries(spell, a + b) == EncodeEntries(spell, a) + EncodeEntries(spell, b)
  {
    MapAppend(AsField(spell), a, b);
    EncodeAppend(AsFields(spell, a), AsFields(spell, b));
  }

  lemma EncodeOne(spell: Name -> string, e: Entry)
    ensures EncodeEntries(spell, [e]) == EncodeField(Field(spell(e.name), e.value))
  {
    var fs := AsFields(spell, [e]);
    assert fs == [Field(spell(e.name), e.value)];
    assert fs[1..] == [];
    assert EncodeFields(fs[1..]) == "";
    assert EncodeField(fs[0]) + "" == EncodeField(fs[0]);
  }

  // ---------------------------------------------------------------- the fields, in order

  function Optional(name: Name, value: string): seq<Entry> {
    if value != "" then [Entry(name, value)] else []
  }

  function ModeFields(modes: seq<string>): seq<Entry> {
    if modes == [] then [] else [Entry(RequestedMode, modes[0])] + ModeFields(modes[1..])
  }

  function MetadataFields(keys: seq<string>, metadata: map<string, string>): seq<Entry>
    requires forall k :: k in keys ==> k in metadata
  {
    if keys == [] then []
    else
      [Entry(MetadataKey, keys[0]), Entry(MetadataValue, metadata[keys[0]])]
        + MetadataFields(keys[1..], metadata)
  }

  /** The keys in some order, without repetition. */
  ghost function Enumerate(keys: set<string>): (s: seq<string>)
    ensures Elements(s) == keys && Distinct(s)
  {
    if keys == {} then []
    else
      var k :| k in keys;
      assert keys == {k} + (keys - {k});
      assert forall x :: x in Enumerate(keys - {k}) ==> x in Elements(Enumerate(keys - {k}));
      [k] + Enumerate(keys - {k})
  }

  lemma DistinctComparable(s: seq<string>)
    requires Distinct(s)
    ensures Comparable(Less, s)
  {
    forall i, j | 0 <= i < j < |s| ensures Less(s[i], s[j]) || Less(s[j], s[i]) {
      LessTotal(s[i], s[j]);
    }
  }

  ghost function SortedKeys(metadata: map<string, string>): (keys: seq<string>)
    ensures Elements(keys) == metadata.Keys
    ensures forall k :: k in keys ==> k in metadata
  {
    var s := Enumerate(metadata.Keys);
    SortMultiset(Less, s);
    SameElements(SortBy(Less, s), s);
    assert forall k :: k in SortBy(Less, s) ==> k in Elements(s);
    SortBy(Less, s)
  }

  function TargetFields(r: Request): seq<Entry> {
    [Entry(SchemaVersion, r.schemaVersion)]
    + [Entry(RequestId, r.requestId)]
    + [Entry(Method, r.httpMethod)]
    + [Entry(ResourceUri, r.resourceUri)]
  }

  function PartyFields(r: Request): seq<Entry> {
    TargetFields(r)
    + Optional(AgentWebId, r.agentWebId)
    + Optional(ClientId, r.clientId)
    + Optional(Issuer, r.issuer)
    + Optional(Origin, r.origin)
  }

  function VersionFields(r: Request): seq<Entry> {
    PartyFields(r)
    + ModeFields(SortBy(ModeLess, r.requestedModes))
    + Optional(ResourceVersion, r.resourceVersion)
    + Optional(PolicyVersion, r.policyVersion)
  }

  ghost function RequestFields(r: Request): seq<Entry> {
    VersionFields(r)
    + MetadataFields(SortedKeys(r.resourceMetadata), r.resourceMetadata)
    + [Entry(NowUnix, Decimal(r.nowUnix))]
  }

  ghost function CanonicalText(r: Request): string {
    EncodeEntries(Spelling, RequestFields(r))
  }

  // ---------------------------------------------------------------- the code

  /** Appends to a text builder; the metadata keys come out of the map in any order. */
  method CanonicalRequest(r: Request) returns (text: string)
    ensures text == CanonicalText(r)
  {
    ghost var fs: seq<Entry> := [];
    text := PushField("", fs, SchemaVersion, r.schemaVersion);
    fs := [Entry(SchemaVersion, r.schemaVersion)];
    text := PushField(text, fs, RequestId, r.requestId);
    fs := fs + [Entry(RequestId, r.requestId)];
    text := PushField(text, fs, Method, r.httpMethod);
    fs := fs + [Entry(Method, r.httpMethod)];
    text := PushField(text, fs, ResourceUri, r.resourceUri);
    fs := fs + [Entry(ResourceUri, r.resourceUri)];
    text := PushOptionalField(text, fs, AgentWebId, r.agentWebId);
    fs := fs + Optional(AgentWebId, r.agentWebId);
    text := PushOptionalField(text, fs, ClientId, r.clientId);
    fs := fs + Optional(ClientId, r.clientId);
    text := PushOptionalField(text, fs, Issuer, r.issuer);
    fs := fs + Optional(Issuer, r.issuer);
    text := PushOptionalField(text, fs, Origin, r.origin);
    fs := fs + Optional(Origin, r.origin);
    text := PushModes(text, fs, r.requestedModes);
    fs := fs + ModeFields(SortBy(ModeLess, r.requestedModes));
    text := PushOptionalField(text, fs, ResourceVersion, r.resourceVersion);
    fs := fs + Optional(ResourceVersion, r.resourceVersion);
    text := PushOptionalField(text, fs, PolicyVersion, r.policyVersion);
    fs := fs + Optional(PolicyVersion, r.policyVersion);
    text := PushMetadata(text, fs, r.resourceMetadata);
    fs := fs + MetadataFields(SortedKeys(r.resourceMetadata), r.resourceMetadata);
    text := PushField(text, fs, NowUnix, Decimal(r.nowUnix));
  }

  /** The builder holds the encoding of the fields pushed so far. */
  method PushField(output: string, ghost pushed: seq<Entry>, name: Name, value: string) returns (text: string)
    requires output == EncodeEntries(Spelling, pushed)
    ensures text == EncodeEntries(Spelling, pushed + [Entry(name, value)])
  {
    MapNext(AsField(Spelling), pushed, Entry(name, value));
    text := Text.PushField(output, AsFields(Spelling, pushed), Spelling(name), value);
  }

  method PushOptionalField(output: string, ghost pushed: seq<Entry>, name: Name, value: string) returns (text: string)
    requires output == EncodeEntries(Spelling, pushed)
    ensures text == EncodeEntries(Spelling, pushed + Optional(name, value))
  {
    if value != "" {
      text := PushField(output, pushed, name, value);
    } else {
      assert pushed + [] == pushed;
      text := output;
    }
  }

  method PushModes(output: string, ghost pushed: seq<Entry>, modes: seq<string>) returns (text: string)
    requires output == EncodeEntries(Spelling, pushed)
    ensures text == EncodeEntries(Spelling, pushed + ModeFields(SortBy(ModeLess, modes)))
  {
    var sorted := SortBy(ModeLess, modes);
    text := output;
    ghost var now := pushed;
    for i := 0 to |sorted|
      invariant now == pushed + ModeFields(sorted[..i])
      invariant text == EncodeEntries(Spelling, now)
    {
      ModeFieldsSnoc(sorted[..i], sorted[i]);
      Regroup(pushed, ModeFields(sorted[..i]), [Entry(RequestedMode, sorted[i])]);
      assert sorted[..i + 1] == sorted[..i] + [sorted[i]];
      text := PushField(text, now, RequestedMode, sorted[i]);
      now := now + [Entry(RequestedMode, sorted[i])];
    }
    assert sorted[..|sorted|] == sorted;
  }

  lemma {:induction false} ModeFieldsSnoc(modes: seq<string>, mode: string)
    ensures ModeFields(modes + [mode]) == ModeFields(modes) + [Entry(RequestedMode, mode)]
  {
    if modes == [] {
      assert modes + [mode] == [mode];
    } else {
      ModeFieldsSnoc(modes[1..], mode);
      assert (modes + [mode])[1..] == modes[1..] + [mode];
    }
  }

  method PushMetadata(output: string, ghost pushed: seq<Entry>, metadata: map<string, string>) returns (text: string)
    requires output == EncodeEntries(Spelling, pushed)
    ensures text == EncodeEntries(Spelling, pushed + MetadataFields(SortedKeys(metadata), metadata))
  {
    var keys := KeysInAnyOrder(metadata);
    SortingKeys(metadata, keys);
    text := PushSorted(output, pushed, SortBy(Less, keys), metadata);
  }

  method PushSorted(output: string, ghost pushed: seq<Entry>, keys: seq<string>, metadata: map<string, string>)
    returns (text: string)
    requires output == EncodeEntries(Spelling, pushed)
    requires forall k :: k in keys ==> k in metadata
    ensures text == EncodeEntries(Spelling, pushed + MetadataFields(keys, metadata))
  {
    text := output;
    ghost var now := pushed;
    for i := 0 to |keys|
      invariant now == pushed + MetadataFields(keys[..i], metadata)
      invariant text == EncodeEntries(Spelling, now)
    {
      MetadataFieldsSnoc(keys[..i], keys[i], metadata);
      assert keys[..i + 1] == keys[..i] + [keys[i]];
      text := PushPair(text, now, keys[i], metadata[keys[i]]);
      now := now + [Entry(MetadataKey, keys[i]), Entry(MetadataValue, metadata[keys[i]])];
    }
    assert keys[..|keys|] == keys;
  }

  method PushPair(output: string, ghost pushed: seq<Entry>, key: string, value: string) returns (text: string)
    requires output == EncodeEntries(Spelling, pushed)
    ensures text == EncodeEntries(Spelling, pushed + [Entry(MetadataKey, key), Entry(MetadataValue, value)])
  {
    text := PushField(output, pushed, MetadataKey, key);
    text := PushField(text, pushed + [Entry(MetadataKey, key)], MetadataValue, value);
    assert pushed + [Entry(MetadataKey, key)] + [Entry(MetadataValue, value)]
        == pushed + [Entry(MetadataKey, key), Entry(MetadataValue, value)];
  }

  method KeysInAnyOrder(metadata: map<string, string>) returns (keys: seq<string>)
    ensures forall k :: k in keys <==> k in metadata
    ensures Distinct(keys)
  {
    var rest := metadata.Keys;
    keys := [];
    while rest != {}
      invariant rest <= metadata.Keys
      invariant forall k :: k in keys <==> k in metadata && k !in rest
      invariant Distinct(keys)
      decreases rest
    {
      var k :| k in rest;
      assert forall i :: 0 <= i < |keys| ==> keys[i] in keys;
      keys, rest := keys + [k], rest - {k};
    }
  }

  lemma SortingKeys(metadata: map<string, string>, keys: seq<string>)
    requires Distinct(keys) && forall k :: k in keys <==> k in metadata
    ensures SortBy(Less, keys) == SortedKeys(metadata)
  {
    var s := Enumerate(metadata.Keys);
    LessIsOrder();
    DistinctComparable(keys);
    DistinctComparable(s);
    forall k ensures k in keys <==> k in s {
      assert k in s <==> k in Elements(s);
    }
    SortErasesOrder(Less, keys, s);
  }

  lemma {:induction false} MetadataFieldsSnoc(keys: seq<string>, key: string, metadata: map<string, string>)
    requires forall k :: k in keys + [key] ==> k in metadata
    requires key in metadata && forall k :: k in keys ==> k in metadata
    ensures MetadataFields(keys + [key], metadata) == MetadataFields(keys, metadata)
      + [Entry(MetadataKey, key), Entry(MetadataValue, metadata[key])]
  {
    if keys == [] {
      assert keys + [key] == [key];
    } else {
      MetadataFieldsSnoc(keys[1..], key, metadata);
      assert (keys + [key])[1..] == keys[1..] + [key];
    }
  }

  // ---------------------------------------------------------------- reading the text back

  /** The values of the fields with the given name, in order. */
  function ValuesOf(fs: seq<Entry>, name: Name): seq<string> {
    if fs == [] then [] else ValueOf(fs[0], name) + ValuesOf(fs[1..], name)
  }

  function ValueOf(e: Entry, name: Name): seq<string> {
    if e.name == name then [e.value] else []
  }

  /** Every field of `fs` has the given name. */
  ghost predicate AllNamed(fs: seq<Entry>, name: Name) {
    forall i :: 0 <= i < |fs| ==> fs[i].name == name
  }

  lemma {:induction false} ValuesAppend(a: seq<Entry>, b: seq<Entry>, name: Name)
    ensures ValuesOf(a + b, name) == ValuesOf(a, name) + ValuesOf(b, name)
  {
    if a == [] {
      assert a + b == b;
    } else {
      ValuesAppend(a[1..], b, name);
      assert (a + b)[0] == a[0] && (a + b)[1..] == a[1..] + b;
      Regroup(ValueOf(a[0], name), ValuesOf(a[1..], name), ValuesOf(b, name));
    }
  }

  lemma {:induction false} OtherName(fs: seq<Entry>, segment: Name, name: Name)
    requires AllNamed(fs, segment) && segment != name
    ensures ValuesOf(fs, name) == []
  {
    if fs == [] {
    } else {
      OtherName(fs[1..], segment, name);
    }
  }

  /** Appending a segment of one name leaves the values of every other name alone. */
  lemma AppendSegment(fs: seq<Entry>, segment: seq<Entry>, segmentName: Name, name: Name)
    requires AllNamed(segment, segmentName)
    ensures ValuesOf(fs + segment, name)
         == if name == segmentName then ValuesOf(fs, name) + ValuesOf(segment, name) else ValuesOf(fs, name)
    ensures name == segmentName && ValuesOf(fs, name) == [] ==> ValuesOf(fs + segment, name) == ValuesOf(segment, name)
  {
    ValuesAppend(fs, segment, name);
    if name != segmentName {
      OtherName(segment, segmentName, name);
    }
  }

  lemma AppendOptional(fs: seq<Entry>, field: Name, value: string, name: Name)
    ensures name != field ==> ValuesOf(fs + Optional(field, value), name) == ValuesOf(fs, name)
    ensures name == field && ValuesOf(fs, name) == [] ==> ValuesOf(fs + Optional(field, value), name) == Present(value)
  {
    AppendSegment(fs, Optional(field, value), field, name);
  }

  lemma {:induction false} ModeValues(modes: seq<string>)
    ensures AllNamed(ModeFields(modes), RequestedMode)
    ensures ValuesOf(ModeFields(modes), RequestedMode) == modes
  {
    if modes == [] {
    } else {
      ModeValues(modes[1..]);
      assert modes == [modes[0]] + modes[1..];
    }
  }

  function Project(keys: seq<string>, metadata: map<string, string>): (values: seq<string>)
    requires forall k :: k in keys ==> k in metadata
    ensures |values| == |keys| && forall i :: 0 <= i < |keys| ==> values[i] == metadata[keys[i]]
  {
    if keys == [] then [] else [metadata[keys[0]]] + Project(keys[1..], metadata)
  }

  lemma PairValues(key: string, value: string, rest: seq<Entry>, name: Name)
    ensures var read := ValuesOf([Entry(MetadataKey, key), Entry(MetadataValue, value)] + rest, name);
      && (name == MetadataKey ==> read == [key] + ValuesOf(rest, name))
      && (name == MetadataValue ==> read == [value] + ValuesOf(rest, name))
      && (name != MetadataKey && name != MetadataValue ==> read == ValuesOf(rest, name))
  {
    var one, two := Entry(MetadataKey, key), Entry(MetadataValue, value);
    assert [one, two] + rest == [one] + ([two] + rest);
    ValuesOfFirst(one, [two] + rest, name);
    ValuesOfFirst(two, rest, name);
  }

  lemma ValuesOfFirst(e: Entry, rest: seq<Entry>, name: Name)
    ensures e.name == name ==> ValuesOf([e] + rest, name) == [e.value] + ValuesOf(rest, name)
    ensures e.name != name ==> ValuesOf([e] + rest, name) == ValuesOf(rest, name)
  {
    assert ([e] + rest)[1..] == rest;
  }

  lemma {:induction false} MetadataValues(keys: seq<string>, metadata: map<string, string>, name: Name)
    requires forall k :: k in keys ==> k in metadata
    ensures name == MetadataKey ==> ValuesOf(MetadataFields(keys, metadata), name) == keys
    ensures name == MetadataValue ==> ValuesOf(MetadataFields(keys, metadata), name) == Project(keys, metadata)
    ensures name != MetadataKey && name != MetadataValue ==> ValuesOf(MetadataFields(keys, metadata), name) == []
  {
    if keys == [] {
    } else {
      MetadataValues(keys[1..], metadata, name);
      PairValues(keys[0], metadata[keys[0]], MetadataFields(keys[1..], metadata), name);
      assert keys == [keys[0]] + keys[1..];
    }
  }

  function Present(value: string): seq<string> {
    if value != "" then [value] else []
  }

  /** The values that the canonical text of `r` carries under a name. */
  ghost function RequestValues(r: Request, name: Name): seq<string> {
    match name
    case MetadataKey => SortedKeys(r.resourceMetadata)
    case MetadataValue => Project(SortedKeys(r.resourceMetadata), r.resourceMetadata)
    case NowUnix => [Decimal(r.nowUnix)]
    case _ => VersionValues(r, name)
  }

  function VersionValues(r: Request, name: Name): seq<string> {
    match name
    case RequestedMode => SortBy(ModeLess, r.requestedModes)
    case ResourceVersion => Present(r.resourceVersion)
    case PolicyVersion => Present(r.policyVersion)
    case _ => PartyValues(r, name)
  }

  function PartyValues(r: Request, name: Name): seq<string> {
    match name
    case AgentWebId => Present(r.agentWebId)
    case ClientId => Present(r.clientId)
    case Issuer => Present(r.issuer)
    case Origin => Present(r.origin)
    case _ => TargetValues(r, name)
  }

  function TargetValues(r: Request, name: Name): seq<string> {
    match name
    case SchemaVersion => [r.schemaVersion]
    case RequestId => [r.requestId]
    case Method => [r.httpMethod]
    case ResourceUri => [r.resourceUri]
    case _ => []
  }

  lemma AppendOne(fs: seq<Entry>, e: Entry, name: Name)
    ensures e.name != name ==> ValuesOf(fs + [e], name) == ValuesOf(fs, name)
    ensures e.name == name && ValuesOf(fs, name) == [] ==> ValuesOf(fs + [e], name) == [e.value]
  {
    ValuesAppend(fs, [e], name);
    ValuesOfFirst(e, [], name);
    assert [e] + [] == [e];
  }

  lemma ReadsTarget(r: Request, name: Name)
    ensures ValuesOf(TargetFields(r), name) == TargetValues(r, name)
  {
    var e1, e2 := Entry(SchemaVersion, r.schemaVersion), Entry(RequestId, r.requestId);
    var e3, e4 := Entry(Method, r.httpMethod), Entry(ResourceUri, r.resourceUri);
    AppendOne([], e1, name);
    assert [] + [e1] == [e1];
    AppendOne([e1], e2, name);
    AppendOne([e1] + [e2], e3, name);
    AppendOne([e1] + [e2] + [e3], e4, name);
  }

  lemma ReadsParty(r: Request, name: Name)
    ensures ValuesOf(PartyFields(r), name) == PartyValues(r, name)
  {
    ReadsTarget(r, name);
    var fs := TargetFields(r);
    AppendOptional(fs, AgentWebId, r.agentWebId, name);
    fs := fs + Optional(AgentWebId, r.agentWebId);
    AppendOptional(fs, ClientId, r.clientId, name);
    fs := fs + Optional(ClientId, r.clientId);
    AppendOptional(fs, Issuer, r.issuer, name);
    fs := fs + Optional(Issuer, r.issuer);
    AppendOptional(fs, Origin, r.origin, name);
  }

  lemma ReadsVersion(r: Request, name: Name)
    ensures ValuesOf(VersionFields(r), name) == VersionValues(r, name)
  {
    ReadsParty(r, name);
    var fs, modes := PartyFields(r), SortBy(ModeLess, r.requestedModes);
    ModeValues(modes);
    AppendSegment(fs, ModeFields(modes), RequestedMode, name);
    fs := fs + ModeFields(modes);
    AppendOptional(fs, ResourceVersion, r.resourceVersion, name);
    fs := fs + Optional(ResourceVersion, r.resourceVersion);
    AppendOptional(fs, PolicyVersion, r.policyVersion, name);
  }

  lemma ReadsField(r: Request, name: Name)
    ensures ValuesOf(RequestFields(r), name) == RequestValues(r, name)
  {
    var keys := SortedKeys(r.resourceMetadata);
    ReadsVersion(r, name);
    ReadsMetadata(VersionFields(r), keys, r.resourceMetadata, name);
    AppendOne(VersionFields(r) + MetadataFields(keys, r.resourceMetadata), Entry(NowUnix, Decimal(r.nowUnix)), name);
  }

  lemma ReadsMetadata(fs: seq<Entry>, keys: seq<string>, metadata: map<string, string>, name: Name)
    requires forall k :: k in keys ==> k in metadata
    ensures name != MetadataKey && name != MetadataValue ==>
      ValuesOf(fs + MetadataFields(keys, metadata), name) == ValuesOf(fs, name)
    ensures name == MetadataKey && ValuesOf(fs, name) == [] ==>
      ValuesOf(fs + MetadataFields(keys, metadata), name) == keys
    ensures name == MetadataValue && ValuesOf(fs, name) == [] ==>
      ValuesOf(fs + MetadataFields(keys, metadata), name) == Project(keys, metadata)
  {
    ValuesAppend(fs, MetadataFields(keys, metadata), name);
    MetadataValues(keys, metadata, name);
  }

  // ---------------------------------------------------------------- unique decodability

  ghost predicate PlainEntries(es: seq<Entry>) {
    forall i :: 0 <= i < |es| ==> Unterminated(es[i].value)
  }

  lemma EntriesInjective(a: seq<Entry>, b: seq<Entry>)
    requires PlainEntries(a) && PlainEntries(b)
    requires EncodeEntries(Spelling, a) == EncodeEntries(Spelling, b)
    ensures a == b
  {
    var x, y := AsFields(Spelling, a), AsFields(Spelling, b);
    PlainFields(a);
    PlainFields(b);
    FieldsRoundTrip(x);
    FieldsRoundTrip(y);
    forall i | 0 <= i < |a| ensures a[i] == b[i] {
      assert x[i] == y[i];
      SpellingInjective(a[i].name, b[i].name);
    }
  }

  lemma PlainFields(es: seq<Entry>)
    requires PlainEntries(es)
    ensures forall i :: 0 <= i < |es| ==> PlainField(AsFields(Spelling, es)[i])
  {
    forall i | 0 <= i < |es| ensures PlainField(AsFields(Spelling, es)[i]) {
      SpellingPlain(es[i].name);
    }
  }

  /** No string of the request holds the terminator of a field. */
  ghost predicate PlainRequest(r: Request) {
    && Unterminated(r.schemaVersion) && Unterminated(r.requestId) && Unterminated(r.httpMethod) && Unterminated(r.resourceUri)
    && Unterminated(r.agentWebId) && Unterminated(r.clientId) && Unterminated(r.issuer) && Unterminated(r.origin)
    && Unterminated(r.resourceVersion) && Unterminated(r.policyVersion)
    && (forall k :: k in r.resourceMetadata ==> Unterminated(k) && Unterminated(r.resourceMetadata[k]))
  }

  /** Equal but for the order in which the modes are listed. */
  ghost predicate SameRequest(a: Request, b: Request) {
    && a.(requestedModes := []) == b.(requestedModes := [])
    && Elements(a.requestedModes) == Elements(b.requestedModes)
  }

  lemma {:induction false} ModeFieldsPlain(modes: seq<string>)
    requires forall i :: 0 <= i < |modes| ==> ValidMode(modes[i])
    ensures PlainEntries(ModeFields(modes))
  {
    if modes == [] {
    } else {
      ModeFieldsPlain(modes[1..]);
    }
  }

  lemma {:induction false} MetadataFieldsPlain(keys: seq<string>, metadata: map<string, string>)
    requires forall k :: k in keys ==> k in metadata
    requires forall k :: k in metadata ==> Unterminated(k) && Unterminated(metadata[k])
    ensures PlainEntries(MetadataFields(keys, metadata))
  {
    if keys == [] {
    } else {
      MetadataFieldsPlain(keys[1..], metadata);
    }
  }

  lemma PlainAppend(a: seq<Entry>, b: seq<Entry>)
    requires PlainEntries(a) && PlainEntries(b)
    ensures PlainEntries(a + b)
  {
  }

  lemma PartyFieldsPlain(r: Request)
    requires PlainRequest(r)
    ensures PlainEntries(PartyFields(r))
  {
    var fs := TargetFields(r);
    PlainAppend(fs, Optional(AgentWebId, r.agentWebId));
    fs := fs + Optional(AgentWebId, r.agentWebId);
    PlainAppend(fs, Optional(ClientId, r.clientId));
    fs := fs + Optional(ClientId, r.clientId);
    PlainAppend(fs, Optional(Issuer, r.issuer));
    PlainAppend(fs + Optional(Issuer, r.issuer), Optional(Origin, r.origin));
  }

  lemma SortedModesPlain(modes: seq<string>)
    requires ValidModes(modes)
    ensures PlainEntries(ModeFields(SortBy(ModeLess, modes)))
  {
    var sorted := SortBy(ModeLess, modes);
    SortMultiset(ModeLess, modes);
    SameElements(sorted, modes);
    assert forall i :: 0 <= i < |sorted| ==> sorted[i] in modes;
    ModeFieldsPlain(sorted);
  }

  lemma RequestFieldsPlain(r: Request)
    requires PlainRequest(r) && ValidModes(r.requestedModes)
    ensures PlainEntries(RequestFields(r))
  {
    PartyFieldsPlain(r);
    SortedModesPlain(r.requestedModes);
    var fs := PartyFields(r) + ModeFields(SortBy(ModeLess, r.requestedModes));
    PlainAppend(PartyFields(r), ModeFields(SortBy(ModeLess, r.requestedModes)));
    PlainAppend(fs, Optional(ResourceVersion, r.resourceVersion));
    PlainAppend(fs + Optional(ResourceVersion, r.resourceVersion), Optional(PolicyVersion, r.policyVersion));
    var metadata := MetadataFields(SortedKeys(r.resourceMetadata), r.resourceMetadata);
    MetadataFieldsPlain(SortedKeys(r.resourceMetadata), r.resourceMetadata);
    PlainAppend(VersionFields(r), metadata);
    DecimalRoundTrip(r.nowUnix);
    PlainAppend(VersionFields(r) + metadata, [Entry(NowUnix, Decimal(r.nowUnix))]);
  }

  lemma SameTextSameModes(a: Request, b: Request)
    requires SortBy(ModeLess, a.requestedModes) == SortBy(ModeLess, b.requestedModes)
    ensures Elements(a.requestedModes) == Elements(b.requestedModes)
  {
    SortMultiset(ModeLess, a.requestedModes);
    SortMultiset(ModeLess, b.requestedModes);
    SameElements(a.requestedModes, b.requestedModes);
  }

  lemma SameTextSameMetadata(a: map<string, string>, b: map<string, string>)
    requires SortedKeys(a) == SortedKeys(b)
    requires Project(SortedKeys(a), a) == Project(SortedKeys(b), b)
    ensures a == b
  {
    var keys := SortedKeys(a);
    assert a.Keys == b.Keys;
    forall k | k in a ensures a[k] == b[k] {
      assert k in Elements(keys);
      var i :| 0 <= i < |keys| && keys[i] == k;
      assert Project(keys, a)[i] == Project(keys, b)[i];
    }
  }

  lemma SameValues(a: Request, b: Request, name: Name)
    requires RequestFields(a) == RequestFields(b)
    ensures RequestValues(a, name) == RequestValues(b, name)
  {
    ReadsField(a, name);
    ReadsField(b, name);
  }

  lemma SameTargets(a: Request, b: Request)
    requires RequestFields(a) == RequestFields(b)
    ensures a.schemaVersion == b.schemaVersion && a.requestId == b.requestId
    ensures a.httpMethod == b.httpMethod && a.resourceUri == b.resourceUri
  {
    SameValues(a, b, SchemaVersion);
    SameValues(a, b, RequestId);
    SameValues(a, b, Method);
    SameValues(a, b, ResourceUri);
  }

  lemma SameParties(a: Request, b: Request)
    requires RequestFields(a) == RequestFields(b)
    ensures a.agentWebId == b.agentWebId && a.clientId == b.clientId
    ensures a.issuer == b.issuer && a.origin == b.origin
  {
    SameValues(a, b, AgentWebId);
    SameValues(a, b, ClientId);
    SameValues(a, b, Issuer);
    SameValues(a, b, Origin);
  }

  lemma SameVersions(a: Request, b: Request)
    requires RequestFields(a) == RequestFields(b)
    ensures a.resourceVersion == b.resourceVersion && a.policyVersion == b.policyVersion
    ensures a.nowUnix == b.nowUnix
  {
    SameValues(a, b, ResourceVersion);
    SameValues(a, b, PolicyVersion);
    SameValues(a, b, NowUnix);
    assert [Decimal(a.nowUnix)][0] == [Decimal(b.nowUnix)][0];
    DecimalInjective(a.nowUnix, b.nowUnix);
  }

  lemma SameModes(a: Request, b: Request)
    requires RequestFields(a) == RequestFields(b)
    ensures Elements(a.requestedModes) == Elements(b.requestedModes)
  {
    SameValues(a, b, RequestedMode);
    SameTextSameModes(a, b);
  }

  lemma SameMetadata(a: Request, b: Request)
    requires RequestFields(a) == RequestFields(b)
    ensures a.resourceMetadata == b.resourceMetadata
  {
    SameValues(a, b, MetadataKey);
    SameValues(a, b, MetadataValue);
    SameTextSameMetadata(a.resourceMetadata, b.resourceMetadata);
  }

  lemma SameTextSameRequest(a: Request, b: Request)
    requires RequestFields(a) == RequestFields(b)
    ensures SameRequest(a, b)
  {
    SameTargets(a, b);
    SameParties(a, b);
    SameVersions(a, b);
    SameModes(a, b);
    SameMetadata(a, b);
  }

  /** Two requests with valid, distinct modes and no terminator in their strings have one canonical
      text if and only if they are the same request up to the order of their modes. */
  lemma UniquelyDecodable(a: Request, b: Request)
    requires PlainRequest(a) && ValidModes(a.requestedModes)
    requires PlainRequest(b) && ValidModes(b.requestedModes)
    ensures CanonicalText(a) == CanonicalText(b) <==> SameRequest(a, b)
  {
    if CanonicalText(a) == CanonicalText(b) {
      RequestFieldsPlain(a);
      RequestFieldsPlain(b);
      EntriesInjective(RequestFields(a), RequestFields(b));
      SameTextSameRequest(a, b);
    }
    if SameRequest(a, b) {
      ValidModesComparable(a.requestedModes);
      ValidModesComparable(b.requestedModes);
      forall m ensures m in a.requestedModes <==> m in b.requestedModes {
        assert m in a.requestedModes <==> m in Elements(a.requestedModes);
        assert m in b.requestedModes <==> m in Elements(b.requestedModes);
      }
      SortErasesOrder(ModeLess, a.requestedModes, b.requestedModes);
    }
  }

  // ---------------------------------------------------------------- what terminators in values break

  /** The fields between the four at the start and the time at the end. */
  ghost function ExtraFields(r: Request): seq<Entry> {
    Optional(AgentWebId, r.agentWebId)
    + Optional(ClientId, r.clientId)
    + Optional(Issuer, r.issuer)
    + Optional(Origin, r.origin)
    + ModeFields(SortBy(ModeLess, r.requestedModes))
    + Optional(ResourceVersion, r.resourceVersion)
    + Optional(PolicyVersion, r.policyVersion)
    + MetadataFields(SortedKeys(r.resourceMetadata), r.resourceMetadata)
  }

  /** Carries none of them. */
  predicate Minimal(r: Request) {
    && r.agentWebId == "" && r.clientId == "" && r.issuer == "" && r.origin == ""
    && r.requestedModes == [] && r.resourceVersion == "" && r.policyVersion == "" && r.resourceMetadata == map[]
  }

  lemma AppendTo(start: seq<Entry>, a: seq<Entry>, whole: seq<Entry>, b: seq<Entry>)
    requires whole == start + a
    ensures whole + b == start + (a + b)
  {
    Regroup(start, a, b);
  }

  lemma FieldsInThree(r: Request)
    ensures RequestFields(r) == TargetFields(r) + ExtraFields(r) + [Entry(NowUnix, Decimal(r.nowUnix))]
  {
    var start := TargetFields(r);
    var a1 := Optional(AgentWebId, r.agentWebId);
    var a2 := a1 + Optional(ClientId, r.clientId);
    var a3 := a2 + Optional(Issuer, r.issuer);
    var a4 := a3 + Optional(Origin, r.origin);
    var modes := ModeFields(SortBy(ModeLess, r.requestedModes));
    var a5 := a4 + modes;
    var a6 := a5 + Optional(ResourceVersion, r.resourceVersion);
    var a7 := a6 + Optional(PolicyVersion, r.policyVersion);
    AppendTo(start, a1, start + a1, Optional(ClientId, r.clientId));
    AppendTo(start, a2, start + a2, Optional(Issuer, r.issuer));
    AppendTo(start, a3, start + a3, Optional(Origin, r.origin));
    AppendTo(start, a4, start + a4, modes);
    AppendTo(start, a5, start + a5, Optional(ResourceVersion, r.resourceVersion));
    AppendTo(start, a6, start + a6, Optional(PolicyVersion, r.policyVersion));
    AppendTo(start, a7, start + a7, MetadataFields(SortedKeys(r.resourceMetadata), r.resourceMetadata));
  }

  lemma MinimalIff(r: Request)
    ensures ExtraFields(r) == [] <==> Minimal(r)
  {
    var modes, keys := SortBy(ModeLess, r.requestedModes), SortedKeys(r.resourceMetadata);
    SortMultiset(ModeLess, r.requestedModes);
    assert |multiset(modes)| == |modes| && |multiset(r.requestedModes)| == |r.requestedModes|;
    assert modes == [] <==> r.requestedModes == [];
    assert keys == [] <==> r.resourceMetadata == map[] by {
      assert Elements(keys) == r.resourceMetadata.Keys;
      if keys != [] {
        assert keys[0] in keys;
      }
    }
  }

  /** The text of a non-empty list of fields ends with a terminator. */
  lemma EndsTerminated(fs: seq<Field>)
    requires fs != []
    ensures var text := EncodeFields(fs);
      text != "" && text == text[..|text| - 1] + [RS]
  {
    var front, last := fs[..|fs| - 1], fs[|fs| - 1];
    assert fs == front + [last];
    EncodeAppend(front, [last]);
    assert [last][1..] == [];
  }

  lemma TextInThree(r: Request)
    ensures CanonicalText(r) == EncodeEntries(Spelling, TargetFields(r)) + EncodeEntries(Spelling, ExtraFields(r))
      + EncodeEntries(Spelling, [Entry(NowUnix, Decimal(r.nowUnix))])
  {
    FieldsInThree(r);
    EncodeConcat(Spelling, TargetFields(r) + ExtraFields(r), [Entry(NowUnix, Decimal(r.nowUnix))]);
    EncodeConcat(Spelling, TargetFields(r), ExtraFields(r));
  }

  function BeforeUri(r: Request): seq<Entry> {
    [Entry(SchemaVersion, r.schemaVersion)] + [Entry(RequestId, r.requestId)] + [Entry(Method, r.httpMethod)]
  }

  lemma TargetText(r: Request)
    ensures EncodeEntries(Spelling, TargetFields(r)) ==
      EncodeEntries(Spelling, BeforeUri(r)) + EncodeField(Field(Spelling(ResourceUri), r.resourceUri))
  {
    EncodeConcat(Spelling, BeforeUri(r), [Entry(ResourceUri, r.resourceUri)]);
    EncodeOne(Spelling, Entry(ResourceUri, r.resourceUri));
  }

  lemma FoldedField(name: string, value: string, rest: string)
    ensures EncodeField(Field(name, value)) + (rest + [RS]) == EncodeField(Field(name, value + [RS] + rest))
  {
  }

  function WithAllInUri(a: Request, uri: string): Request {
    Request(a.schemaVersion, a.requestId, a.httpMethod, uri, "", "", "", "", [], "", "", map[], a.nowUnix)
  }

  /** A request that carries any further field shares its text with one that has all of them folded
      into its resource. */
  lemma SeparatorsMatter(a: Request) returns (b: Request)
    requires !Minimal(a)
    ensures Minimal(b) && b == WithAllInUri(a, b.resourceUri)
    ensures CanonicalText(b) == CanonicalText(a) && !SameRequest(a, b)
  {
    var extra := EncodeEntries(Spelling, ExtraFields(a));
    MinimalIff(a);
    EndsTerminated(AsFields(Spelling, ExtraFields(a)));
    var rest := extra[..|extra| - 1];
    b := WithAllInUri(a, a.resourceUri + [RS] + rest);
    assert |b.resourceUri| > |a.resourceUri|;
    FoldedText(a, b, rest);
  }

  lemma FoldedText(a: Request, b: Request, rest: string)
    requires EncodeEntries(Spelling, ExtraFields(a)) == rest + [RS]
    requires b == WithAllInUri(a, a.resourceUri + [RS] + rest)
    ensures CanonicalText(b) == CanonicalText(a)
  {
    MinimalIff(b);
    TextInThree(a);
    TextInThree(b);
    TargetText(a);
    TargetText(b);
    FoldedField(Spelling(ResourceUri), a.resourceUri, rest);
    Regroup(EncodeEntries(Spelling, BeforeUri(a)), EncodeField(Field(Spelling(ResourceUri), a.resourceUri)), rest + [RS]);
    NoFieldsNoText(ExtraFields(b), EncodeEntries(Spelling, TargetFields(b)));
  }

  lemma NoFieldsNoText(es: seq<Entry>, before: string)
    requires es == []
    ensures before + EncodeEntries(Spelling, es) == before
  {
    assert AsFields(Spelling, es) == [];
  }

  /** No other request has this one's text. */
  ghost predicate Determined(a: Request) {
    forall b :: CanonicalText(b) == CanonicalText(a) ==> SameRequest(a, b)
  }

  lemma FieldCount(r: Request)
    ensures |RequestFields(r)| == 5 + |ExtraFields(r)|
  {
    FieldsInThree(r);
  }

  lemma SpelledNamesPlain(es: seq<Entry>)
    ensures forall i :: 0 <= i < |es| ==> Plain(AsFields(Spelling, es)[i].name)
  {
    forall i | 0 <= i < |es| ensures Plain(AsFields(Spelling, es)[i].name) {
      SpellingPlain(es[i].name);
    }
  }

  lemma EntriesTerminators(es: seq<Entry>)
    ensures Terminators(EncodeEntries(Spelling, es)) >= |es|
    ensures Terminators(EncodeEntries(Spelling, es)) == |es| <==> PlainEntries(es)
  {
    var fs := AsFields(Spelling, es);
    SpelledNamesPlain(es);
    FieldsTerminators(fs);
    assert forall i :: 0 <= i < |es| ==> fs[i].value == es[i].value;
  }

  /** A request with the text of a minimal one has as many terminators, so it has no further field
      and no terminator in a value. */
  lemma MinimalIsDetermined(a: Request, b: Request)
    requires PlainRequest(a) && Minimal(a) && CanonicalText(b) == CanonicalText(a)
    ensures SameRequest(a, b)
  {
    RequestFieldsPlain(a);
    MinimalIff(a);
    FieldCount(a);
    FieldCount(b);
    EntriesTerminators(RequestFields(a));
    EntriesTerminators(RequestFields(b));
    EntriesInjective(RequestFields(a), RequestFields(b));
    SameTextSameRequest(a, b);
  }

  /** A request without terminators in its strings is determined by its text among all requests,
      terminators allowed, if and only if it carries none of the further fields. */
  lemma DeterminedIff(a: Request)
    requires PlainRequest(a)
    ensures Determined(a) <==> Minimal(a)
  {
    if Minimal(a) {
      forall b | CanonicalText(b) == CanonicalText(a) ensures SameRequest(a, b) {
        MinimalIsDetermined(a, b);
      }
    } else {
      var b := SeparatorsMatter(a);
    }
  }
}
