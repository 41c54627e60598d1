/** Policy sources (internal/authz/policy_source.go): normalisation and the version of a set of
    sources. */
module PolicySources {

  import opened Wrappers
  import opened Text
  import opened Sorting
  import opened Normalization
  import opened PolicyInput

  datatype Source = Source(uri: string, kind: string, priority: int, contentType: string)

  predicate ValidKind(kind: string) {
    kind == "explicit" || kind == "link" || kind == "derived"
  }

  function NormalizeSource(lib: Library, s: Source): Option<Source> {
    var uri := Trim(s.uri);
    var kind := if s.kind == "" then "explicit" else s.kind;
    if !ValidResourceUri(lib, uri) || !ValidKind(kind) || s.priority < 0 || s.priority > 10000 then None
    else if Trim(s.contentType) == "" then Some(Source(uri, kind, s.priority, ""))
    else
      var contentType :- NormalizeContentType(lib, Trim(s.contentType));
      Some(Source(uri, kind, s.priority, contentType))
  }

  predicate SourceLess(a: Source, b: Source) {
    if a.priority != b.priority then a.priority < b.priority
    else if a.uri != b.uri then Less(a.uri, b.uri)
    else if a.kind != b.kind then Less(a.kind, b.kind)
    else Less(a.contentType, b.contentType)
  }

  lemma SourceOrder()
    ensures StrictOrder(SourceLess) && Total(SourceLess)
  {
    forall x ensures !SourceLess(x, x) {
      LessIrreflexive(x.contentType);
    }
    forall x, y, z | SourceLess(x, y) && SourceLess(y, z) ensures SourceLess(x, z) {
      ChainTransitive(x.uri, y.uri, z.uri);
      ChainTransitive(x.kind, y.kind, z.kind);
      ChainTransitive(x.contentType, y.contentType, z.contentType);
    }
    forall x, y ensures x == y || SourceLess(x, y) || SourceLess(y, x) {
      LessTotal(x.uri, y.uri);
      LessTotal(x.kind, y.kind);
      LessTotal(x.contentType, y.contentType);
    }
  }

  function SourceScheme(lib: Library): Scheme<Source> {
    Scheme(
      (s: Source) => NormalizeSource(lib, s),
      (s: Source) => s.uri,
      (a: Source, b: Source) => a.kind == b.kind && a.priority == b.priority && a.contentType == b.contentType,
      SourceLess)
  }

  lemma SourcesLawful(lib: Library)
    ensures Lawful(SourceScheme(lib)) && Separating(SourceScheme(lib))
  {
    SourceOrder();
  }

  method NormalizePolicySources(lib: Library, input: seq<Source>) returns (r: Outcome<Source>)
    ensures r == NormalForm(SourceScheme(lib), input)
  {
    if input == [] {
      return Normal([]);
    }
    SourcesLawful(lib);
    r := Normalize(SourceScheme(lib), input);
  }

  ghost function NormalSources(lib: Library, input: seq<Source>): set<Option<Source>> {
    set s | s in input :: NormalizeSource(lib, s)
  }

  lemma NormalSourcesAre(lib: Library, input: seq<Source>)
    ensures Norms(SourceScheme(lib), input) == NormalSources(lib, input)
  {
  }

  /** Every source is valid, and sources with one URI are one source. */
  ghost predicate OneSourcePerUri(sources: set<Option<Source>>) {
    && None !in sources
    && forall x, y :: x in sources && y in sources && x.value.uri == y.value.uri ==> x == y
  }

  /** Normalisation succeeds if and only if every source is valid and no URI has two normal
      forms, whatever the order. */
  lemma SourcesSucceedIff(lib: Library, input: seq<Source>)
    ensures NormalForm(SourceScheme(lib), input).Normal? <==> OneSourcePerUri(NormalSources(lib, input))
  {
    SourcesLawful(lib);
    NormalSourcesAre(lib, input);
    SucceedsIff(SourceScheme(lib), input);
  }

  /** On success the result is sorted, has one source for each URI, and consists of exactly the
      normal forms of the input. */
  lemma SourcesContents(lib: Library, input: seq<Source>)
    requires NormalForm(SourceScheme(lib), input).Normal?
    ensures var items := NormalForm(SourceScheme(lib), input).items;
      && Sorted(SourceLess, items)
      && (forall i, j :: 0 <= i < j < |items| ==> items[i].priority <= items[j].priority)
      && (forall i, j :: 0 <= i < j < |items| && items[i].priority == items[j].priority ==> Less(items[i].uri, items[j].uri))
      && (forall i, j :: 0 <= i < j < |items| ==> items[i].uri != items[j].uri)
      && (forall s :: s in items <==> Some(s) in NormalSources(lib, input))
  {
    var sch := SourceScheme(lib);
    SourcesLawful(lib);
    NormalFormMeaning(sch, input);
    NormalSourcesAre(lib, input);
    ItemsAreNorms(sch, input);
    var items := NormalForm(sch, input).items;
    assert forall i, j :: 0 <= i < j < |items| ==> sch.key(items[i]) != sch.key(items[j]);
    assert forall i, j :: 0 <= i < j < |items| ==> SourceLess(items[i], items[j]);
  }

  /** A source that can be normalised: no kind means explicit, and the content type may be missing. */
  predicate Presentable(lib: Library, s: Source) {
    && ValidResourceUri(lib, Trim(s.uri))
    && s.kind in {"", "explicit", "link", "derived"}
    && 0 <= s.priority <= 10000
    && (Trim(s.contentType) == "" || lib.mediaType(Trim(s.contentType)).Some?)
  }

  predicate Presents(lib: Library, s: Source, n: Source) {
    && n.uri == Trim(s.uri)
    && n.kind == (if s.kind == "" then "explicit" else s.kind)
    && n.priority == s.priority
    && (if Trim(s.contentType) == "" then n.contentType == "" else lib.mediaType(Trim(s.contentType)) == Some(n.contentType))
  }

  lemma PresentableIff(lib: Library, s: Source)
    ensures NormalizeSource(lib, s).Some? <==> Presentable(lib, s)
    ensures Presentable(lib, s) ==> Presents(lib, s, NormalizeSource(lib, s).value)
  {
    TrimTrims(s.contentType);
    TrimTrims(Trim(s.contentType));
  }

  /** The sources present one and the same source. */
  ghost predicate SamePresented(lib: Library, a: Source, b: Source) {
    exists n :: Presents(lib, a, n) && Presents(lib, b, n)
  }

  /** Normalisation succeeds if and only if every source is presentable and sources with one URI
      present the same. */
  lemma SourcesAcceptedIff(lib: Library, input: seq<Source>)
    ensures NormalForm(SourceScheme(lib), input).Normal? <==>
      && (forall i :: 0 <= i < |input| ==> Presentable(lib, input[i]))
      && (forall i, j :: 0 <= i < |input| && 0 <= j < |input| && Trim(input[i].uri) == Trim(input[j].uri) ==>
            SamePresented(lib, input[i], input[j]))
  {
    var sources := NormalSources(lib, input);
    SourcesSucceedIff(lib, input);
    forall i | 0 <= i < |input|
      ensures NormalizeSource(lib, input[i]) in sources
      ensures NormalizeSource(lib, input[i]).Some? <==> Presentable(lib, input[i])
      ensures Presentable(lib, input[i]) ==> Presents(lib, input[i], NormalizeSource(lib, input[i]).value)
    {
      assert input[i] in input;
      PresentableIff(lib, input[i]);
    }
    forall x | x in sources ensures exists i :: 0 <= i < |input| && NormalizeSource(lib, input[i]) == x {
      var s :| s in input && NormalizeSource(lib, s) == x;
      var i :| 0 <= i < |input| && input[i] == s;
      assert NormalizeSource(lib, input[i]) == x;
    }
  }

  /** The result then holds exactly what the sources present. */
  lemma SourcesAre(lib: Library, input: seq<Source>, n: Source)
    requires NormalForm(SourceScheme(lib), input).Normal?
    ensures n in NormalForm(SourceScheme(lib), input).items <==> exists i :: 0 <= i < |input| && Presents(lib, input[i], n)
  {
    SourcesContents(lib, input);
    SourcesAcceptedIff(lib, input);
    forall i | 0 <= i < |input| ensures Presents(lib, input[i], n) <==> NormalizeSource(lib, input[i]) == Some(n) {
      PresentableIff(lib, input[i]);
    }
    if Some(n) in NormalSources(lib, input) {
      var s :| s in input && NormalizeSource(lib, s) == Some(n);
      var i :| 0 <= i < |input| && input[i] == s;
      assert Presents(lib, input[i], n);
    }
    if i :| 0 <= i < |input| && Presents(lib, input[i], n) {
      assert input[i] in input;
    }
  }

  // ---------------------------------------------------------------- the version of a set

  function SourceParts(s: Source): seq<string> {
    [s.uri, s.kind, PaddedInt(s.priority, 10), s.contentType]
  }

  ghost predicate Encodable(s: Source) {
    Plain(s.uri) && Plain(s.kind) && 0 <= s.priority && Plain(s.contentType)
  }

  function SourceLines(sources: seq<Source>): string {
    if sources == [] then "" else Join(SourceParts(sources[0])) + [RS] + SourceLines(sources[1..])
  }

  lemma SourcePartsInjective(a: Source, b: Source)
    requires Encodable(a) && Encodable(b)
    requires Join(SourceParts(a)) == Join(SourceParts(b))
    ensures a == b
  {
    PaddedValue(a.priority, 10);
    PaddedValue(b.priority, 10);
    JoinInjective(SourceParts(a), SourceParts(b));
    assert SourceParts(a)[0] == SourceParts(b)[0] && SourceParts(a)[1] == SourceParts(b)[1];
    assert SourceParts(a)[2] == SourceParts(b)[2] && SourceParts(a)[3] == SourceParts(b)[3];
  }

  lemma LineHasNoTerminator(s: Source)
    requires Encodable(s)
    ensures forall i :: 0 <= i < |Join(SourceParts(s))| ==> Join(SourceParts(s))[i] != RS
  {
    PaddedValue(s.priority, 10);
    JoinNoTerminator(SourceParts(s));
  }

  lemma {:induction false} JoinNoTerminator(parts: seq<string>)
    requires AllPlain(parts)
    ensures forall i :: 0 <= i < |Join(parts)| ==> Join(parts)[i] != RS
  {
    if |parts| <= 1 {
    } else {
      JoinNoTerminator(parts[1..]);
    }
  }

  lemma {:induction false} SourceLinesInjective(a: seq<Source>, b: seq<Source>)
    requires forall i :: 0 <= i < |a| ==> Encodable(a[i])
    requires forall i :: 0 <= i < |b| ==> Encodable(b[i])
    requires SourceLines(a) == SourceLines(b)
    ensures a == b
  {
    if a == [] || b == [] {
    } else {
      var la, lb := Join(SourceParts(a[0])), Join(SourceParts(b[0]));
      LineHasNoTerminator(a[0]);
      LineHasNoTerminator(b[0]);
      FindPrefix(la, RS, SourceLines(a[1..]));
      FindPrefix(lb, RS, SourceLines(b[1..]));
      assert la == SourceLines(a)[..|la|] && lb == SourceLines(b)[..|lb|];
      SourcePartsInjective(a[0], b[0]);
      assert SourceLines(a[1..]) == SourceLines(a)[|la| + 1..];
      assert SourceLines(b[1..]) == SourceLines(b)[|lb| + 1..];
      SourceLinesInjective(a[1..], b[1..]);
      assert a == [a[0]] + a[1..] && b == [b[0]] + b[1..];
    }
  }

  lemma NormalSourceFacts(lib: Library, s: Source)
    requires MediaTypesPlain(lib) && NormalizeSource(lib, s).Some?
    ensures Encodable(NormalizeSource(lib, s).value)
  {
    NoControlIsPlain(Trim(s.uri));
  }

  /** The text that is digested. */
  function SourcesPreimage(lib: Library, sources: seq<Source>): string {
    var r := NormalForm(SourceScheme(lib), sources);
    if r.Normal? then SourceLines(r.items) else ""
  }

  function SourceSetVersion(lib: Library, digest: Digest, sources: seq<Source>): string {
    var r := NormalForm(SourceScheme(lib), sources);
    if !r.Normal? || r.items == [] then "" else "sha256:" + digest(SourcesPreimage(lib, sources))
  }

  lemma NormalSourcesEncodable(lib: Library, sources: seq<Source>)
    requires MediaTypesPlain(lib) && NormalForm(SourceScheme(lib), sources).Normal?
    ensures var items := NormalForm(SourceScheme(lib), sources).items;
      && (forall i :: 0 <= i < |items| ==> Encodable(items[i]))
      && SourcesPreimage(lib, sources) == SourceLines(items)
  {
    SourcesContents(lib, sources);
    var items := NormalForm(SourceScheme(lib), sources).items;
    forall i | 0 <= i < |items| ensures Encodable(items[i]) {
      assert items[i] in items;
      var s :| s in sources && NormalizeSource(lib, s) == Some(items[i]);
      NormalSourceFacts(lib, s);
    }
  }

  ghost predicate VersionedSources(lib: Library, sources: seq<Source>) {
    sources != [] && OneSourcePerUri(NormalSources(lib, sources))
  }

  lemma VersionedSourcesIff(lib: Library, sources: seq<Source>)
    ensures VersionedSources(lib, sources) <==>
      NormalForm(SourceScheme(lib), sources).Normal? && NormalForm(SourceScheme(lib), sources).items != []
  {
    SourcesSucceedIff(lib, sources);
    if NormalForm(SourceScheme(lib), sources).Normal? {
      SourcesContents(lib, sources);
      var items := NormalForm(SourceScheme(lib), sources).items;
      if sources != [] {
        assert NormalizeSource(lib, sources[0]) in NormalSources(lib, sources);
        assert NormalizeSource(lib, sources[0]).value in items;
      }
      if items != [] {
        assert Some(items[0]) in NormalSources(lib, sources);
      }
    }
  }

  /** Two lists of sources have one version if and only if both have none to give or both
      normalise to the same set of sources. */
  lemma SourceSetVersions(lib: Library, digest: Digest, a: seq<Source>, b: seq<Source>)
    requires MediaTypesPlain(lib)
    requires Apart(digest, SourcesPreimage(lib, a), SourcesPreimage(lib, b))
    ensures SourceSetVersion(lib, digest, a) == SourceSetVersion(lib, digest, b) <==>
      || (!VersionedSources(lib, a) && !VersionedSources(lib, b))
      || (VersionedSources(lib, a) && VersionedSources(lib, b) && NormalSources(lib, a) == NormalSources(lib, b))
  {
    VersionedSourcesIff(lib, a);
    VersionedSourcesIff(lib, b);
    if VersionedSources(lib, a) && VersionedSources(lib, b) {
      var sch := SourceScheme(lib);
      SourcesLawful(lib);
      NormalSourcesAre(lib, a);
      NormalSourcesAre(lib, b);
      NormalSourcesEncodable(lib, a);
      NormalSourcesEncodable(lib, b);
      if NormalSources(lib, a) == NormalSources(lib, b) {
        OrderIrrelevant(sch, a, b);
      }
      if SourceSetVersion(lib, digest, a) == SourceSetVersion(lib, digest, b) {
        assert digest(SourcesPreimage(lib, a)) == SourceSetVersion(lib, digest, a)[7..];
        assert digest(SourcesPreimage(lib, b)) == SourceSetVersion(lib, digest, b)[7..];
        SourceLinesInjective(NormalForm(sch, a).items, NormalForm(sch, b).items);
        SetsSeparated(sch, a, b);
      }
    }
  }
}
