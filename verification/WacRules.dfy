/** Access rules read from the RDF triples of a Web Access Control document
    (internal/authz/wac_parser.go). */
module WacRules {

  import opened Wrappers
  import opened Text
  import opened Sequences
  import opened AccessModes

  datatype Triple = Triple(subject: string, predicate_: string, object_: string)

  datatype Rule = Rule(
    authorization: string, accessTo: string, agent: string, agentClass: string,
    modes: seq<string>, defaultAccess: bool, origin: string)

  // ---------------------------------------------------------------- reading one triple

  predicate OccursAt(s: string, part: string, i: int) {
    0 <= i <= |s| - |part| && s[i..i + |part|] == part
  }

  predicate Contains(s: string, part: string) {
    exists i :: 0 <= i <= |s| && OccursAt(s, part, i)
  }

  /** What a predicate says about an authorization; the first keyword found decides. */
  datatype Role = AccessTo | AgentClass | Agent | Mode | Default | Origin | Other

  function RoleOf(p: string): Role {
    if Contains(p, "accessTo") then AccessTo
    else if Contains(p, "agent") || Contains(p, "agentClass") then
      if Contains(p, "agentClass") then AgentClass else Agent
    else if Contains(p, "mode") then Mode
    else if Contains(p, "default") then Default
    else if Contains(p, "origin") then Origin
    else Other
  }

  predicate DeclaresAuthorization(t: Triple) {
    && Contains(t.predicate_, "type")
    && (Contains(t.object_, "acl:Authorization") || Contains(t.object_, "Authorization"))
    && Trim(t.subject) != ""
  }

  /** The text after the last `c`; all of it when there is none. */
  function AfterLast(s: string, c: char): string {
    if s == "" || s[|s| - 1] == c then ""
    else AfterLast(s[..|s| - 1], c) + [s[|s| - 1]]
  }

  /** Without the angle brackets around an IRI. */
  function Unwrapped(s: string): string {
    if s != "" && s[0] == '<' && s[|s| - 1] == '>' then s[1..|s| - 1] else s
  }

  function LocalName(s: string): string {
    AfterLast(AfterLast(AfterLast(s, '#'), '/'), ':')
  }

  function KnownMode(name: string): string {
    if ValidMode(name) then name else ""
  }

  /** The mode an object names, or nothing. */
  function ParseAccessMode(text: string): (mode: string)
    ensures mode == "" || ValidMode(mode)
  {
    KnownMode(LocalName(Unwrapped(Lower(Trim(text)))))
  }

  predicate IsTrue(text: string) {
    Lower(Trim(text)) == "true"
  }

  // ---------------------------------------------------------------- subjects

  function About(subject: string): Triple -> bool {
    (t: Triple) => Trim(t.subject) == subject
  }

  function OfSubject(ts: seq<Triple>, subject: string): seq<Triple> {
    Filter(About(subject), ts)
  }

  method FindTriplesForSubject(ts: seq<Triple>, subject: string) returns (own: seq<Triple>)
    ensures own == OfSubject(ts, subject)
  {
    own := [];
    for i := 0 to |ts|
      invariant own == Filter(About(subject), ts[..i])
    {
      FilterNext(About(subject), ts[..i], ts[i]);
      assert ts[..i + 1] == ts[..i] + [ts[i]];
      if Trim(ts[i].subject) == subject {
        own := own + [ts[i]];
      }
    }
    assert ts[..|ts|] == ts;
  }

  // ---------------------------------------------------------------- authorizations

  function Declaring(ts: seq<Triple>): seq<Triple> {
    Filter(DeclaresAuthorization, ts)
  }

  function TrimmedSubjects(ts: seq<Triple>): seq<string> {
    if ts == [] then [] else TrimmedSubjects(ts[..|ts| - 1]) + [Trim(ts[|ts| - 1].subject)]
  }

  /** The subjects declared to be authorizations, in order, with repetitions. */
  function Declared(ts: seq<Triple>): seq<string> {
    TrimmedSubjects(Declaring(ts))
  }

  /** The first occurrence of each text. */
  function FirstOccurrences(s: seq<string>): seq<string> {
    if s == [] then []
    else Including(FirstOccurrences(s[..|s| - 1]), s[|s| - 1])
  }

  function Including(s: seq<string>, x: string): seq<string> {
    if x in s then s else s + [x]
  }

  lemma {:induction false} FirstOccurrencesMeaning(s: seq<string>)
    ensures forall x :: x in FirstOccurrences(s) <==> x in s
    ensures Distinct(FirstOccurrences(s))
    ensures Distinct(s) ==> FirstOccurrences(s) == s
  {
    if s == [] {
    } else {
      var front, x := s[..|s| - 1], s[|s| - 1];
      FirstOccurrencesMeaning(front);
      assert s == front + [x];
    }
  }

  lemma DeclaredNext(ts: seq<Triple>, t: Triple)
    ensures FirstOccurrences(Declared(ts + [t])) ==
      if DeclaresAuthorization(t) then Including(FirstOccurrences(Declared(ts)), Trim(t.subject))
      else FirstOccurrences(Declared(ts))
  {
    FilterNext(DeclaresAuthorization, ts, t);
    if DeclaresAuthorization(t) {
      SubjectsNext(Declaring(ts), t);
      FirstOccurrencesNext(Declared(ts), Trim(t.subject));
    } else {
      assert Declaring(ts + [t]) == Declaring(ts);
    }
  }

  lemma SubjectsNext(ts: seq<Triple>, t: Triple)
    ensures TrimmedSubjects(ts + [t]) == TrimmedSubjects(ts) + [Trim(t.subject)]
  {
    assert (ts + [t])[..|ts|] == ts;
  }

  lemma FirstOccurrencesNext(s: seq<string>, x: string)
    ensures FirstOccurrences(s + [x]) == Including(FirstOccurrences(s), x)
  {
    assert (s + [x])[..|s|] == s;
  }

  lemma {:induction false} SubjectsHave(ts: seq<Triple>, a: string)
    ensures a in TrimmedSubjects(ts) <==> exists i :: 0 <= i < |ts| && Trim(ts[i].subject) == a
  {
    if ts == [] {
    } else {
      SubjectsHave(ts[..|ts| - 1], a);
    }
  }

  /** The triple is about `a`, with the word "type" at one place of its predicate and the word
      "Authorization" at one of its object. */
  predicate TypesAuthorization(t: Triple, a: string, p: int, q: int) {
    Trim(t.subject) == a && OccursAt(t.predicate_, "type", p) && OccursAt(t.object_, "Authorization", q)
  }

  /** A text is declared an authorization if and only if it is not empty and is the trimmed subject of
      a triple whose predicate holds the word "type" and whose object the word "Authorization". */
  lemma DeclaredIff(ts: seq<Triple>, a: string)
    ensures a in Declared(ts) <==>
      a != "" && exists i, p, q :: 0 <= i < |ts| && TypesAuthorization(ts[i], a, p, q)
  {
    SubjectsHave(Declaring(ts), a);
    if a in Declared(ts) {
      var i :| 0 <= i < |Declaring(ts)| && Trim(Declaring(ts)[i].subject) == a;
      var t := Declaring(ts)[i];
      FilterHas(DeclaresAuthorization, ts, t);
      AuthorizationIff(t);
      var j :| 0 <= j < |ts| && ts[j] == t;
      var p, q :| OccursAt(t.predicate_, "type", p) && OccursAt(t.object_, "Authorization", q);
      assert TypesAuthorization(ts[j], a, p, q);
    }
    if i, p, q :| 0 <= i < |ts| && a != "" && TypesAuthorization(ts[i], a, p, q) {
      AuthorizationIff(ts[i]);
      FilterHas(DeclaresAuthorization, ts, ts[i]);
      var j :| 0 <= j < |Declaring(ts)| && Declaring(ts)[j] == ts[i];
    }
  }

  lemma AuthorizationIff(t: Triple)
    ensures DeclaresAuthorization(t) <==>
      && Trim(t.subject) != ""
      && (exists p :: OccursAt(t.predicate_, "type", p)) && (exists q :: OccursAt(t.object_, "Authorization", q))
  {
    if i :| 0 <= i <= |t.object_| && OccursAt(t.object_, "acl:Authorization", i) {
      assert "acl:Authorization"[4..] == "Authorization";
      assert t.object_[i + 4..i + 17] == t.object_[i..i + 17][4..];
      assert OccursAt(t.object_, "Authorization", i + 4);
    }
  }

  method Note(uris: seq<string>, seen: set<string>, subject: string) returns (more: seq<string>, now: set<string>)
    requires forall x :: x in seen <==> x in uris
    ensures more == Including(uris, subject)
    ensures forall x :: x in now <==> x in more
  {
    more, now := uris, seen;
    if subject !in seen {
      more, now := more + [subject], now + {subject};
    }
  }

  method FindAuthorizationUris(ts: seq<Triple>) returns (uris: seq<string>)
    ensures uris == FirstOccurrences(Declared(ts))
  {
    uris := [];
    var seen: set<string> := {};
    for i := 0 to |ts|
      invariant uris == FirstOccurrences(Declared(ts[..i]))
      invariant forall x :: x in seen <==> x in uris
    {
      DeclaredNext(ts[..i], ts[i]);
      assert ts[..i + 1] == ts[..i] + [ts[i]];
      if DeclaresAuthorization(ts[i]) {
        uris, seen := Note(uris, seen, Trim(ts[i].subject));
      }
    }
    assert ts[..|ts|] == ts;
  }

  // ---------------------------------------------------------------- the rule of an authorization

  function Absorb(rule: Rule, t: Triple): Rule {
    match RoleOf(t.predicate_)
    case AccessTo => rule.(accessTo := Trim(t.object_))
    case AgentClass => rule.(agentClass := Trim(t.object_))
    case Agent => rule.(agent := Trim(t.object_))
    case Mode =>
      var mode := ParseAccessMode(t.object_);
      if mode != "" then rule.(modes := rule.modes + [mode]) else rule
    case Default => rule.(defaultAccess := IsTrue(t.object_))
    case Origin => rule.(origin := Trim(t.object_))
    case Other => rule
  }

  function Empty(authorization: string): Rule {
    Rule(authorization, "", "", "", [], false, "")
  }

  /** The rule after reading all the triples. */
  function Absorbed(rule: Rule, ts: seq<Triple>): Rule {
    Fold(Absorb, rule, ts)
  }

  /** A rule needs a resource, an agent or a class of agents, and a mode. */
  predicate Complete(rule: Rule) {
    rule.accessTo != "" && (rule.agent != "" || rule.agentClass != "") && rule.modes != []
  }

  predicate Blank(rule: Rule) {
    rule.accessTo == "" && rule.agent == "" && rule.agentClass == "" && rule.modes == []
  }

  /** The rule an authorization states. */
  function Stated(ts: seq<Triple>, authorization: string): Rule {
    Absorbed(Empty(authorization), OfSubject(ts, authorization))
  }

  /** A complete rule is extracted, a blank one is skipped and any other is an error. */
  function Accepted(rule: Rule): Option<seq<Rule>> {
    if Complete(rule) then Some([rule]) else if Blank(rule) then Some([]) else None
  }

  method AbsorbTriple(rule: Rule, t: Triple) returns (r: Rule)
    ensures r == Absorb(rule, t)
  {
    r := rule;
    if Contains(t.predicate_, "accessTo") {
      r := r.(accessTo := Trim(t.object_));
    } else if Contains(t.predicate_, "agent") || Contains(t.predicate_, "agentClass") {
      if Contains(t.predicate_, "agentClass") {
        r := r.(agentClass := Trim(t.object_));
      } else {
        r := r.(agent := Trim(t.object_));
      }
    } else if Contains(t.predicate_, "mode") {
      var mode := ParseAccessMode(t.object_);
      if mode != "" {
        r := r.(modes := r.modes + [mode]);
      }
    } else if Contains(t.predicate_, "default") {
      r := r.(defaultAccess := IsTrue(t.object_));
    } else if Contains(t.predicate_, "origin") {
      r := r.(origin := Trim(t.object_));
    }
  }

  method ExtractRulesForAuthorization(ts: seq<Triple>, authorization: string) returns (rules: Option<seq<Rule>>)
    ensures rules == Accepted(Stated(ts, authorization))
  {
    var own := FindTriplesForSubject(ts, authorization);
    var rule := Rule(authorization, "", "", "", [], false, "");
    for i := 0 to |own|
      invariant rule == Fold(Absorb, Empty(authorization), own[..i])
    {
      assert own[..i + 1][..i] == own[..i];
      rule := AbsorbTriple(rule, own[i]);
    }
    assert own[..|own|] == own;
    if Complete(rule) {
      rules := Some([rule]);
    } else if Blank(rule) {
      rules := Some([]);
    } else {
      rules := None;
    }
  }

  // ---------------------------------------------------------------- all rules

  function StatedBy(ts: seq<Triple>): string -> Rule {
    (authorization: string) => Stated(ts, authorization)
  }

  function AcceptedBy(stated: string -> Rule): string -> Option<seq<Rule>> {
    (authorization: string) => Accepted(stated(authorization))
  }

  function RulesBy(ts: seq<Triple>): string -> Option<seq<Rule>> {
    AcceptedBy(StatedBy(ts))
  }

  function RulesOfAll(f: string -> Option<seq<Rule>>, authorizations: seq<string>): Option<seq<Rule>> {
    var rows :- Collect(f, authorizations);
    Some(Flatten(rows))
  }

  function Extracted(ts: seq<Triple>): Option<seq<Rule>> {
    RulesOfAll(RulesBy(ts), FirstOccurrences(Declared(ts)))
  }

  method ExtractWacRules(ts: seq<Triple>) returns (rules: Option<seq<Rule>>)
    ensures rules == Extracted(ts)
  {
    ghost var f := RulesBy(ts);
    var uris := FindAuthorizationUris(ts);
    var all: seq<Rule> := [];
    ghost var rows: seq<seq<Rule>> := [];
    for i := 0 to |uris|
      invariant Collect(f, uris[..i]) == Some(rows) && all == Flatten(rows)
    {
      var own := ExtractRulesForAuthorization(ts, uris[i]);
      assert own == f(uris[i]);
      if own.None? {
        CollectFails(f, uris, i);
        return None;
      }
      CollectNext(f, uris, i);
      FlattenNext(rows, own.value);
      all, rows := all + own.value, rows + [own.value];
    }
    assert uris[..|uris|] == uris;
    rules := Some(all);
  }
}
