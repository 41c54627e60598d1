/** Policy documents and policy sources (internal/authz/policy_input.go and
    internal/authz/policy_source.go): normalisation, canonical text and versions. */
module PolicyInput {

  import opened Wrappers
  import opened Sequences
  import opened Text
  import opened Sorting
  import opened Normalization

  /** The library functions the normalisers call: the canonical form of a media type, and
      whether a text parses as an http or https URL with a host. */
  datatype Library = Library(mediaType: string -> Option<string>, isHttpUrl: string -> bool)

  /** Canonical media types consist of tokens and of parameter values without control
      characters. */
  ghost predicate MediaTypesPlain(lib: Library) {
    forall s :: lib.mediaType(s).Some? ==> Plain(lib.mediaType(s).value)
  }

  predicate ValidResourceUri(lib: Library, uri: string) {
    && uri != "" && Utf8Length(uri) <= 4096
    && (forall i :: 0 <= i < |uri| ==> uri[i] != '\\' && uri[i] != '#')
    && NoControl(uri)
    && lib.isHttpUrl(uri)
  }

  function NormalizeContentType(lib: Library, value: string): Option<string> {
    if Trim(value) == "" then None else lib.mediaType(Trim(value))
  }

  // ---------------------------------------------------------------- documents

  datatype Document = Document(uri: string, sha256: string, contentType: string)

  function NormalizeDocument(lib: Library, d: Document): Option<Document> {
    var uri, sha := Trim(d.uri), Lower(Trim(d.sha256));
    if !ValidResourceUri(lib, uri) || !ValidSha256Hex(sha) then None
    else
      var contentType :- NormalizeContentType(lib, d.contentType);
      Some(Document(uri, sha, contentType))
  }

  predicate DocumentLess(a: Document, b: Document) {
    if a.uri != b.uri then Less(a.uri, b.uri)
    else if a.sha256 != b.sha256 then Less(a.sha256, b.sha256)
    else Less(a.contentType, b.contentType)
  }

  lemma DocumentOrder()
    ensures StrictOrder(DocumentLess) && Total(DocumentLess)
  {
    forall x ensures !DocumentLess(x, x) {
      LessIrreflexive(x.contentType);
    }
    forall x, y, z | DocumentLess(x, y) && DocumentLess(y, z) ensures DocumentLess(x, z) {
      ChainTransitive(x.uri, y.uri, z.uri);
      ChainTransitive(x.sha256, y.sha256, z.sha256);
      ChainTransitive(x.contentType, y.contentType, z.contentType);
    }
    forall x, y ensures x == y || DocumentLess(x, y) || DocumentLess(y, x) {
      LessTotal(x.uri, y.uri);
      LessTotal(x.sha256, y.sha256);
      LessTotal(x.contentType, y.contentType);
    }
  }

  lemma ChainTransitive(a: string, b: string, c: string)
    ensures Less(a, b) && Less(b, c) ==> Less(a, c) && a != c
    ensures Less(a, b) ==> a != b
  {
    LessIrreflexive(a);
    if Less(a, b) && Less(b, c) {
      LessTransitive(a, b, c);
    }
  }

  function DocumentScheme(lib: Library): Scheme<Document> {
    Scheme(
      (d: Document) => NormalizeDocument(lib, d),
      (d: Document) => d.uri,
      (a: Document, b: Document) => a.sha256 == b.sha256 && a.contentType == b.contentType,
      DocumentLess)
  }

  lemma DocumentsLawful(lib: Library)
    ensures Lawful(DocumentScheme(lib)) && Separating(DocumentScheme(lib))
  {
    DocumentOrder();
  }

  method NormalizePolicyDocuments(lib: Library, input: seq<Document>) returns (r: Outcome<Document>)
    ensures r == NormalForm(DocumentScheme(lib), input)
  {
    if input == [] {
      return Normal([]);
    }
    DocumentsLawful(lib);
    r := Normalize(DocumentScheme(lib), input);
  }

  /** The set of normal forms of a list of documents; `None` stands for an invalid one. */
  ghost function NormalDocuments(lib: Library, input: seq<Document>): set<Option<Document>> {
    set d | d in input :: NormalizeDocument(lib, d)
  }

  lemma NormalDocumentsAre(lib: Library, input: seq<Document>)
    ensures Norms(DocumentScheme(lib), input) == NormalDocuments(lib, input)
  {
  }

  /** Every element is valid, and elements with one URI are one element. */
  ghost predicate OnePerUri(docs: set<Option<Document>>) {
    && None !in docs
    && forall x, y :: x in docs && y in docs && x.value.uri == y.value.uri ==> x == y
  }

  /** Normalisation succeeds if and only if every document is valid and no URI has two normal
      forms, whatever the order. */
  lemma DocumentsSucceedIff(lib: Library, input: seq<Document>)
    ensures NormalForm(DocumentScheme(lib), input).Normal? <==> OnePerUri(NormalDocuments(lib, input))
  {
    DocumentsLawful(lib);
    NormalDocumentsAre(lib, input);
    SucceedsIff(DocumentScheme(lib), input);
  }

  /** On success the result is sorted, has one document for each URI, and consists of exactly
      the normal forms of the input. */
  lemma DocumentsContents(lib: Library, input: seq<Document>)
    requires NormalForm(DocumentScheme(lib), input).Normal?
    ensures var items := NormalForm(DocumentScheme(lib), input).items;
      && Sorted(DocumentLess, items)
      && (forall i, j :: 0 <= i < j < |items| ==> items[i].uri != items[j].uri && Less(items[i].uri, items[j].uri))
      && (forall d :: d in items <==> Some(d) in NormalDocuments(lib, input))
  {
    var sch := DocumentScheme(lib);
    DocumentsLawful(lib);
    NormalFormMeaning(sch, input);
    NormalDocumentsAre(lib, input);
    ItemsAreNorms(sch, input);
    var items := NormalForm(sch, input).items;
    assert forall i, j :: 0 <= i < j < |items| ==> sch.key(items[i]) != sch.key(items[j]) && DocumentLess(items[i], items[j]);
  }

  /** What a resource URI is: an http or https URL of at most 4096 bytes without backslash, fragment
      and control characters. */
  lemma ResourceUriIff(lib: Library, uri: string)
    ensures ValidResourceUri(lib, uri) <==>
      && uri != "" && Utf8Length(uri) <= 4096 && lib.isHttpUrl(uri)
      && '\\' !in uri && '#' !in uri && 0x7f as char !in uri
      && (forall c :: c in uri ==> 0x20 as char <= c)
  {
    if ValidResourceUri(lib, uri) {
      forall c | c in uri ensures 0x20 as char <= c && c != '\\' && c != '#' && c != 0x7f as char {
        var i :| 0 <= i < |uri| && uri[i] == c;
      }
    } else {
      forall i | 0 <= i < |uri| ensures uri[i] in uri {
      }
    }
  }

  /** A document that can be normalised: the hash may be in upper case, and the content type must be
      given. */
  predicate Presentable(lib: Library, d: Document) {
    && ValidResourceUri(lib, Trim(d.uri))
    && |Trim(d.sha256)| == 64 && (forall i :: 0 <= i < 64 ==> IsHexDigit(Trim(d.sha256)[i]))
    && Trim(d.contentType) != "" && lib.mediaType(Trim(d.contentType)).Some?
  }

  /** The hash, case aside, and the media type are those of another document. */
  predicate SameContent(lib: Library, a: Document, b: Document) {
    Lower(Trim(a.sha256)) == Lower(Trim(b.sha256)) && lib.mediaType(Trim(a.contentType)) == lib.mediaType(Trim(b.contentType))
  }

  predicate Presents(lib: Library, d: Document, n: Document) {
    && n.uri == Trim(d.uri) && n.sha256 == Lower(Trim(d.sha256))
    && lib.mediaType(Trim(d.contentType)) == Some(n.contentType)
  }

  lemma PresentableIff(lib: Library, d: Document)
    ensures NormalizeDocument(lib, d).Some? <==> Presentable(lib, d)
    ensures Presentable(lib, d) ==> Presents(lib, d, NormalizeDocument(lib, d).value)
  {
    LowerHexIff(Trim(d.sha256));
  }

  /** Normalisation succeeds if and only if every document is presentable and documents at one URI have
      the same content. */
  lemma DocumentsAcceptedIff(lib: Library, input: seq<Document>)
    ensures NormalForm(DocumentScheme(lib), input).Normal? <==>
      && (forall i :: 0 <= i < |input| ==> Presentable(lib, input[i]))
      && (forall i, j :: 0 <= i < |input| && 0 <= j < |input| && Trim(input[i].uri) == Trim(input[j].uri) ==>
            SameContent(lib, input[i], input[j]))
  {
    var docs := NormalDocuments(lib, input);
    DocumentsSucceedIff(lib, input);
    forall i | 0 <= i < |input|
      ensures NormalizeDocument(lib, input[i]) in docs
      ensures NormalizeDocument(lib, input[i]).Some? <==> Presentable(lib, input[i])
      ensures Presentable(lib, input[i]) ==> Presents(lib, input[i], NormalizeDocument(lib, input[i]).value)
    {
      assert input[i] in input;
      PresentableIff(lib, input[i]);
    }
    forall x | x in docs ensures exists i :: 0 <= i < |input| && NormalizeDocument(lib, input[i]) == x {
      var d :| d in input && NormalizeDocument(lib, d) == x;
      var i :| 0 <= i < |input| && input[i] == d;
      assert NormalizeDocument(lib, input[i]) == x;
    }
  }

  /** The result then holds exactly what the documents present. */
  lemma DocumentsAre(lib: Library, input: seq<Document>, n: Document)
    requires NormalForm(DocumentScheme(lib), input).Normal?
    ensures n in NormalForm(DocumentScheme(lib), input).items <==>
      exists i :: 0 <= i < |input| && Presents(lib, input[i], n)
  {
    DocumentsContents(lib, input);
    DocumentsAcceptedIff(lib, input);
    forall i | 0 <= i < |input| ensures Presents(lib, input[i], n) <==> NormalizeDocument(lib, input[i]) == Some(n) {
      PresentableIff(lib, input[i]);
    }
    if Some(n) in NormalDocuments(lib, input) {
      var d :| d in input && NormalizeDocument(lib, d) == Some(n);
      var i :| 0 <= i < |input| && input[i] == d;
      assert Presents(lib, input[i], n);
    }
    if i :| 0 <= i < |input| && Presents(lib, input[i], n) {
      assert input[i] in input;
    }
  }

  // ---------------------------------------------------------------- canonical documents

  function OneDocumentFields(d: Document): seq<Field> {
    [Field("policy_uri", d.uri), Field("policy_sha256", d.sha256), Field("policy_content_type", d.contentType)]
  }

  function DocumentFields(docs: seq<Document>): seq<Field> {
    if docs == [] then [] else OneDocumentFields(docs[0]) + DocumentFields(docs[1..])
  }

  function CanonicalDocuments(docs: seq<Document>): string {
    EncodeFields(DocumentFields(SortBy(DocumentLess, docs)))
  }

  method PushDocument(output: string, ghost pushed: seq<Field>, d: Document) returns (text: string)
    requires output == EncodeFields(pushed)
    ensures text == EncodeFields(pushed + DocumentFields([d]))
  {
    ghost var uri, sha := Field("policy_uri", d.uri), Field("policy_sha256", d.sha256);
    ghost var contentType := Field("policy_content_type", d.contentType);
    text := PushField(output, pushed, "policy_uri", d.uri);
    text := PushField(text, pushed + [uri], "policy_sha256", d.sha256);
    text := PushField(text, pushed + [uri] + [sha], "policy_content_type", d.contentType);
    assert [d][1..] == [];
    assert DocumentFields([d]) == [uri, sha, contentType];
    assert pushed + [uri] + [sha] + [contentType] == pushed + [uri, sha, contentType];
  }

  method CanonicalPolicyDocuments(docs: seq<Document>) returns (text: string)
    ensures text == CanonicalDocuments(docs)
  {
    var sorted := SortBy(DocumentLess, docs);
    text := "";
    ghost var pushed: seq<Field> := [];
    for i := 0 to |sorted|
      invariant pushed == DocumentFields(sorted[..i])
      invariant text == EncodeFields(pushed)
    {
      DocumentFieldsSnoc(sorted[..i], sorted[i]);
      assert sorted[..i + 1] == sorted[..i] + [sorted[i]];
      text := PushDocument(text, pushed, sorted[i]);
      pushed := pushed + DocumentFields([sorted[i]]);
    }
    assert sorted[..|sorted|] == sorted;
  }

  lemma {:induction false} DocumentFieldsSnoc(docs: seq<Document>, d: Document)
    ensures DocumentFields(docs + [d]) == DocumentFields(docs) + DocumentFields([d])
  {
    if docs == [] {
      assert docs + [d] == [d];
    } else {
      DocumentFieldsSnoc(docs[1..], d);
      assert (docs + [d])[0] == docs[0] && (docs + [d])[1..] == docs[1..] + [d];
      Regroup(OneDocumentFields(docs[0]), DocumentFields(docs[1..]), DocumentFields([d]));
    }
  }

  ghost predicate PlainDocuments(docs: seq<Document>) {
    forall i :: 0 <= i < |docs| ==> Plain(docs[i].uri) && Plain(docs[i].sha256) && Plain(docs[i].contentType)
  }

  lemma {:induction false} DocumentFieldsPlain(docs: seq<Document>)
    requires PlainDocuments(docs)
    ensures forall i :: 0 <= i < |DocumentFields(docs)| ==> PlainField(DocumentFields(docs)[i])
  {
    if docs == [] {
    } else {
      DocumentFieldsPlain(docs[1..]);
    }
  }

  lemma {:induction false} DocumentFieldsInjective(a: seq<Document>, b: seq<Document>)
    requires DocumentFields(a) == DocumentFields(b)
    ensures a == b
  {
    if a == [] || b == [] {
    } else {
      var fa, fb := DocumentFields(a), DocumentFields(b);
      assert fa[0] == fb[0] && fa[1] == fb[1] && fa[2] == fb[2];
      assert fa[3..] == DocumentFields(a[1..]) && fb[3..] == DocumentFields(b[1..]);
      DocumentFieldsInjective(a[1..], b[1..]);
      assert a == [a[0]] + a[1..] && b == [b[0]] + b[1..];
    }
  }

  /** The canonical text of separator-free documents forgets their order and nothing else. */
  lemma DocumentsText(a: seq<Document>, b: seq<Document>)
    requires PlainDocuments(a) && PlainDocuments(b)
    ensures CanonicalDocuments(a) == CanonicalDocuments(b) <==> multiset(a) == multiset(b)
  {
    var sa, sb := SortBy(DocumentLess, a), SortBy(DocumentLess, b);
    DocumentOrder();
    SortMultiset(DocumentLess, a);
    SortMultiset(DocumentLess, b);
    if multiset(a) == multiset(b) {
      SortAscending(DocumentLess, a);
      SortAscending(DocumentLess, b);
      AscendingUnique(DocumentLess, sa, sb);
    }
    if CanonicalDocuments(a) == CanonicalDocuments(b) {
      SortedPlain(a);
      SortedPlain(b);
      DocumentFieldsPlain(sa);
      DocumentFieldsPlain(sb);
      FieldsRoundTrip(DocumentFields(sa));
      FieldsRoundTrip(DocumentFields(sb));
      DocumentFieldsInjective(sa, sb);
    }
  }

  lemma SortedPlain(docs: seq<Document>)
    requires PlainDocuments(docs)
    ensures PlainDocuments(SortBy(DocumentLess, docs))
  {
    var s := SortBy(DocumentLess, docs);
    SortMultiset(DocumentLess, docs);
    SameElements(s, docs);
    forall i | 0 <= i < |s| ensures Plain(s[i].uri) && Plain(s[i].sha256) && Plain(s[i].contentType) {
      assert s[i] in docs;
    }
  }

  // ---------------------------------------------------------------- versions

  type Digest = string -> string

  /** The digest does not confuse the two texts. */
  predicate Apart(digest: Digest, a: string, b: string) {
    digest(a) == digest(b) ==> a == b
  }

  /** The version of a list of documents; empty when there is nothing to version. */
  function DocumentsVersion(lib: Library, digest: Digest, docs: seq<Document>): string {
    var r := NormalForm(DocumentScheme(lib), docs);
    if !r.Normal? || r.items == [] then "" else "sha256:" + digest(CanonicalDocuments(r.items))
  }

  /** The text that is digested. */
  function DocumentsPreimage(lib: Library, docs: seq<Document>): string {
    var r := NormalForm(DocumentScheme(lib), docs);
    if r.Normal? then CanonicalDocuments(r.items) else ""
  }

  ghost predicate Versioned(lib: Library, docs: seq<Document>) {
    docs != [] && OnePerUri(NormalDocuments(lib, docs))
  }

  /** Two lists have one version if and only if both have none to give or both normalise to the
      same set of documents.  Order and repetition do not matter. */
  lemma DocumentVersions(lib: Library, digest: Digest, a: seq<Document>, b: seq<Document>)
    requires MediaTypesPlain(lib)
    requires Apart(digest, DocumentsPreimage(lib, a), DocumentsPreimage(lib, b))
    ensures DocumentsVersion(lib, digest, a) == DocumentsVersion(lib, digest, b) <==>
      || (!Versioned(lib, a) && !Versioned(lib, b))
      || (Versioned(lib, a) && Versioned(lib, b) && NormalDocuments(lib, a) == NormalDocuments(lib, b))
  {
    VersionedIff(lib, a);
    VersionedIff(lib, b);
    if Versioned(lib, a) && Versioned(lib, b) {
      var sch := DocumentScheme(lib);
      var x, y := NormalForm(sch, a).items, NormalForm(sch, b).items;
      DocumentsLawful(lib);
      NormalDocumentsAre(lib, a);
      NormalDocumentsAre(lib, b);
      if NormalDocuments(lib, a) == NormalDocuments(lib, b) {
        OrderIrrelevant(sch, a, b);
      }
      if DocumentsVersion(lib, digest, a) == DocumentsVersion(lib, digest, b) {
        assert digest(CanonicalDocuments(x)) == DocumentsVersion(lib, digest, a)[7..];
        assert digest(CanonicalDocuments(y)) == DocumentsVersion(lib, digest, b)[7..];
        NormalDocumentsPlain(lib, a);
        NormalDocumentsPlain(lib, b);
        DocumentsText(x, y);
        DocumentsContents(lib, a);
        DocumentsContents(lib, b);
        DocumentOrder();
        SameElements(x, y);
        SortedUnique(DocumentLess, x, y);
        SetsSeparated(sch, a, b);
      }
    }
  }

  lemma VersionedIff(lib: Library, docs: seq<Document>)
    ensures Versioned(lib, docs) <==>
      NormalForm(DocumentScheme(lib), docs).Normal? && NormalForm(DocumentScheme(lib), docs).items != []
  {
    DocumentsSucceedIff(lib, docs);
    if NormalForm(DocumentScheme(lib), docs).Normal? {
      DocumentsContents(lib, docs);
      var items := NormalForm(DocumentScheme(lib), docs).items;
      if docs != [] {
        assert NormalizeDocument(lib, docs[0]) in NormalDocuments(lib, docs);
        assert NormalizeDocument(lib, docs[0]).value in items;
      }
      if items != [] {
        assert Some(items[0]) in NormalDocuments(lib, docs);
      }
    }
  }

  lemma NormalDocumentsPlain(lib: Library, docs: seq<Document>)
    requires MediaTypesPlain(lib) && NormalForm(DocumentScheme(lib), docs).Normal?
    ensures PlainDocuments(NormalForm(DocumentScheme(lib), docs).items)
  {
    DocumentsContents(lib, docs);
    var items := NormalForm(DocumentScheme(lib), docs).items;
    forall i | 0 <= i < |items|
      ensures Plain(items[i].uri) && Plain(items[i].sha256) && Plain(items[i].contentType)
    {
      assert items[i] in items;
      var d :| d in docs && NormalizeDocument(lib, d) == Some(items[i]);
      NoControlIsPlain(items[i].uri);
      HexPlain(items[i].sha256);
    }
  }
}
