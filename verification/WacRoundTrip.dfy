/** Rules written as triples and read back (internal/authz/wac_parser.go). */
module WacRoundTrip {

  import opened Wrappers
  import opened Sequences
  import opened Text
  import opened AccessModes
  import opened WacRules
  import opened WacVocabulary

  // ---------------------------------------------------------------- what extraction reads

  /** The object of the last triple in a role. */
  function Last(ts: seq<Triple>, role: Role): Option<string> {
    if ts == [] then None
    else if RoleOf(ts[|ts| - 1].predicate_) == role then Some(ts[|ts| - 1].object_)
    else Last(ts[..|ts| - 1], role)
  }

  function LastText(ts: seq<Triple>, role: Role): string {
    match Last(ts, role)
    case Some(object_) => Trim(object_)
    case None => ""
  }

  predicate StatesMode(t: Triple) {
    RoleOf(t.predicate_) == Mode
  }

  function ModeTriples(ts: seq<Triple>): seq<Triple> {
    Filter(StatesMode, ts)
  }

  /** The modes that a list of objects names; what names none is dropped. */
  function Named(ts: seq<Triple>): (modes: seq<string>)
    ensures forall i :: 0 <= i < |modes| ==> ValidMode(modes[i])
  {
    if ts == [] then []
    else
      var mode := ParseAccessMode(ts[|ts| - 1].object_);
      Named(ts[..|ts| - 1]) + if mode != "" then [mode] else []
  }

  predicate IsText(role: Role) {
    role.AccessTo? || role.Agent? || role.AgentClass? || role.Origin?
  }

  function TextOf(rule: Rule, role: Role): string
    requires IsText(role)
  {
    match role
    case AccessTo => rule.accessTo
    case Agent => rule.agent
    case AgentClass => rule.agentClass
    case Origin => rule.origin
  }

  lemma {:induction false} AbsorbedText(authorization: string, ts: seq<Triple>, role: Role)
    requires IsText(role)
    ensures TextOf(Absorbed(Empty(authorization), ts), role) == LastText(ts, role)
  {
    if ts == [] {
    } else {
      AbsorbedText(authorization, ts[..|ts| - 1], role);
    }
  }

  predicate LastIsTrue(last: Option<string>) {
    last.Some? && IsTrue(last.value)
  }

  lemma {:induction false} AbsorbedDefault(authorization: string, ts: seq<Triple>)
    ensures Absorbed(Empty(authorization), ts).authorization == authorization
    ensures Absorbed(Empty(authorization), ts).defaultAccess == LastIsTrue(Last(ts, Default))
  {
    if ts == [] {
    } else {
      AbsorbedDefault(authorization, ts[..|ts| - 1]);
    }
  }

  lemma {:induction false} AbsorbedModes(authorization: string, ts: seq<Triple>)
    ensures Absorbed(Empty(authorization), ts).modes == Named(ModeTriples(ts))
  {
    if ts == [] {
    } else {
      var front, t := ts[..|ts| - 1], ts[|ts| - 1];
      AbsorbedModes(authorization, front);
      if StatesMode(t) {
        assert ModeTriples(ts)[..|ModeTriples(front)|] == ModeTriples(front);
      } else {
        assert ModeTriples(ts) == ModeTriples(front);
      }
    }
  }

  /** The rule read depends on the last object in each role and on the list of modes alone. */
  lemma AbsorbedDetermined(a: string, ts: seq<Triple>, us: seq<Triple>)
    requires ModeTriples(ts) == ModeTriples(us)
    requires forall role :: role != Mode ==> Last(ts, role) == Last(us, role)
    ensures Absorbed(Empty(a), ts) == Absorbed(Empty(a), us)
  {
    AbsorbedModes(a, ts);
    AbsorbedModes(a, us);
    AbsorbedDefault(a, ts);
    AbsorbedDefault(a, us);
    forall role | IsText(role)
      ensures TextOf(Absorbed(Empty(a), ts), role) == TextOf(Absorbed(Empty(a), us), role)
    {
      AbsorbedText(a, ts, role);
      AbsorbedText(a, us, role);
    }
    assert IsText(AccessTo) && IsText(Agent) && IsText(AgentClass) && IsText(Origin);
  }

  /** A rule that can be written and read: a trimmed, complete rule with known modes. */
  predicate WellFormed(rule: Rule) {
    && rule.authorization != "" && Trimmed(rule.authorization)
    && Trimmed(rule.accessTo) && Trimmed(rule.agent) && Trimmed(rule.agentClass) && Trimmed(rule.origin)
    && (forall i :: 0 <= i < |rule.modes| ==> ValidMode(rule.modes[i]))
    && rule.accessTo != "" && (rule.agent != "" || rule.agentClass != "") && rule.modes != []
  }

  function Authorizations(rules: seq<Rule>): (r: seq<string>)
    ensures |r| == |rules|
    ensures forall i :: 0 <= i < |r| ==> r[i] == rules[i].authorization
  {
    seq(|rules|, i requires 0 <= i < |rules| => rules[i].authorization)
  }

  lemma StatedWellFormed(ts: seq<Triple>, authorization: string)
    requires authorization != "" && Trimmed(authorization)
    ensures Stated(ts, authorization).authorization == authorization
    ensures Complete(Stated(ts, authorization)) ==> WellFormed(Stated(ts, authorization))
  {
    var own := OfSubject(ts, authorization);
    AbsorbedDefault(authorization, own);
    AbsorbedModes(authorization, own);
    forall role | IsText(role) ensures Trimmed(TextOf(Stated(ts, authorization), role)) {
      AbsorbedText(authorization, own, role);
      LastTextTrimmed(own, role);
    }
    assert IsText(AccessTo) && IsText(Agent) && IsText(AgentClass) && IsText(Origin);
  }

  lemma LastTextTrimmed(ts: seq<Triple>, role: Role)
    ensures Trimmed(LastText(ts, role))
  {
    match Last(ts, role)
    case Some(object_) => TrimTrims(object_);
    case None =>
  }

  lemma {:induction false} SubjectsTrimmed(ts: seq<Triple>)
    ensures forall i :: 0 <= i < |TrimmedSubjects(ts)| ==> Trimmed(TrimmedSubjects(ts)[i])
    ensures (forall i :: 0 <= i < |ts| ==> Trim(ts[i].subject) != "") ==> "" !in TrimmedSubjects(ts)
  {
    if ts == [] {
    } else {
      SubjectsTrimmed(ts[..|ts| - 1]);
      TrimTrims(ts[|ts| - 1].subject);
    }
  }

  /** A declared authorization has a trimmed name that is not empty. */
  lemma DeclaredTrimmed(ts: seq<Triple>, a: string)
    requires a in Declared(ts)
    ensures a != "" && Trimmed(a)
  {
    FilterHolds(DeclaresAuthorization, ts);
    SubjectsTrimmed(Declaring(ts));
  }

  lemma OneMore(all: seq<Rule>, row: seq<Rule>, uris: seq<string>, uri: string)
    requires Distinct(Authorizations(all)) && forall i :: 0 <= i < |all| ==> all[i].authorization in uris
    requires uri !in uris
    requires |row| <= 1 && (row != [] ==> row[0].authorization == uri)
    ensures Distinct(Authorizations(all + row))
    ensures forall i :: 0 <= i < |all + row| ==> (all + row)[i].authorization in uris + [uri]
  {
    var names := Authorizations(all + row);
    forall i, j | 0 <= i < j < |names| ensures names[i] != names[j] {
      assert names[i] == Authorizations(all)[i];
    }
  }

  lemma {:induction false} RowsDistinct(uris: seq<string>, rows: seq<seq<Rule>>)
    requires Distinct(uris) && |rows| == |uris|
    requires forall i :: 0 <= i < |rows| ==>
      |rows[i]| <= 1 && (rows[i] != [] ==> rows[i][0].authorization == uris[i])
    ensures Distinct(Authorizations(Flatten(rows)))
    ensures forall i :: 0 <= i < |Flatten(rows)| ==> Flatten(rows)[i].authorization in uris
  {
    if rows == [] {
    } else {
      var n := |rows| - 1;
      RowsDistinct(uris[..n], rows[..n]);
      assert forall i :: 0 <= i < n ==> uris[..n][i] != uris[n];
      OneMore(Flatten(rows[..n]), rows[n], uris[..n], uris[n]);
      assert uris == uris[..n] + [uris[n]];
    }
  }

  lemma AnyFails(stated: string -> Rule, uris: seq<string>)
    ensures RulesOfAll(AcceptedBy(stated), uris).None? <==>
      exists a :: a in uris && !Complete(stated(a)) && !Blank(stated(a))
  {
    CollectMeaning(AcceptedBy(stated), uris);
    if i :| 0 <= i < |uris| && AcceptedBy(stated)(uris[i]).None? {
      assert uris[i] in uris && !Complete(stated(uris[i])) && !Blank(stated(uris[i]));
    }
    if a :| a in uris && !Complete(stated(a)) && !Blank(stated(a)) {
      var i :| 0 <= i < |uris| && uris[i] == a;
      assert AcceptedBy(stated)(uris[i]).None?;
    }
  }

  lemma AcceptedRows(stated: string -> Rule, uris: seq<string>) returns (rows: seq<seq<Rule>>)
    requires RulesOfAll(AcceptedBy(stated), uris).Some?
    ensures |rows| == |uris| && RulesOfAll(AcceptedBy(stated), uris).value == Flatten(rows)
    ensures forall i :: 0 <= i < |uris| ==> rows[i] == if Complete(stated(uris[i])) then [stated(uris[i])] else []
  {
    CollectMeaning(AcceptedBy(stated), uris);
    rows := Collect(AcceptedBy(stated), uris).value;
    forall i | 0 <= i < |uris|
      ensures rows[i] == if Complete(stated(uris[i])) then [stated(uris[i])] else []
    {
      assert AcceptedBy(stated)(uris[i]) == Some(rows[i]);
    }
  }

  lemma AcceptedMembers(stated: string -> Rule, uris: seq<string>, rule: Rule)
    requires RulesOfAll(AcceptedBy(stated), uris).Some?
    ensures rule in RulesOfAll(AcceptedBy(stated), uris).value <==>
      Complete(rule) && exists a :: a in uris && rule == stated(a)
  {
    var rows: seq<seq<Rule>> := AcceptedRows(stated, uris);
    FlattenMembers(rows, rule);
    if i :| 0 <= i < |rows| && rule in rows[i] {
      assert uris[i] in uris;
    }
    if a :| a in uris && rule == stated(a) {
      var i :| 0 <= i < |uris| && uris[i] == a;
      assert Complete(rule) ==> rule in rows[i];
    }
  }

  lemma AcceptedDistinct(stated: string -> Rule, uris: seq<string>)
    requires RulesOfAll(AcceptedBy(stated), uris).Some? && Distinct(uris)
    requires forall i :: 0 <= i < |uris| ==> stated(uris[i]).authorization == uris[i]
    ensures Distinct(Authorizations(RulesOfAll(AcceptedBy(stated), uris).value))
  {
    var rows: seq<seq<Rule>> := AcceptedRows(stated, uris);
    RowsDistinct(uris, rows);
  }

  /** What the triples of an authorization state: the last resource, agent, class and origin, the
      modes, and whether the last default is true. */
  function Said(a: string, own: seq<Triple>): Rule {
    Rule(a, LastText(own, AccessTo), LastText(own, Agent), LastText(own, AgentClass), Named(ModeTriples(own)),
         LastIsTrue(Last(own, Default)), LastText(own, Origin))
  }

  lemma StatedIsSaid(ts: seq<Triple>, a: string)
    ensures Stated(ts, a) == Said(a, OfSubject(ts, a))
  {
    var own := OfSubject(ts, a);
    AbsorbedText(a, own, AccessTo);
    AbsorbedText(a, own, Agent);
    AbsorbedText(a, own, AgentClass);
    AbsorbedText(a, own, Origin);
    AbsorbedModes(a, own);
    AbsorbedDefault(a, own);
  }

  /** The triples state a resource, an agent or a class of agents, and a mode. */
  predicate SaysAll(own: seq<Triple>) {
    && LastText(own, AccessTo) != ""
    && (LastText(own, Agent) != "" || LastText(own, AgentClass) != "")
    && Named(ModeTriples(own)) != []
  }

  /** The triples state at least one of them. */
  predicate SaysSome(own: seq<Triple>) {
    || LastText(own, AccessTo) != "" || LastText(own, Agent) != "" || LastText(own, AgentClass) != ""
    || Named(ModeTriples(own)) != []
  }

  lemma CompleteIff(ts: seq<Triple>, a: string)
    ensures Complete(Stated(ts, a)) <==> SaysAll(OfSubject(ts, a))
    ensures Blank(Stated(ts, a)) <==> !SaysSome(OfSubject(ts, a))
  {
    StatedIsSaid(ts, a);
  }

  /** Extraction fails exactly when some declared authorization states some, but not all, of a
      resource, an agent or class, and a mode. */
  lemma FailsIff(ts: seq<Triple>)
    ensures Extracted(ts).None? <==>
      exists a :: a in Declared(ts) && SaysSome(OfSubject(ts, a)) && !SaysAll(OfSubject(ts, a))
  {
    forall a
      ensures Complete(Stated(ts, a)) <==> SaysAll(OfSubject(ts, a))
      ensures Blank(Stated(ts, a)) <==> !SaysSome(OfSubject(ts, a))
    {
      CompleteIff(ts, a);
    }
    RulesFail(ts);
  }

  lemma RulesFail(ts: seq<Triple>)
    ensures Extracted(ts).None? <==>
      exists a :: a in Declared(ts) && !Complete(Stated(ts, a)) && !Blank(Stated(ts, a))
  {
    var uris := FirstOccurrences(Declared(ts));
    FirstOccurrencesMeaning(Declared(ts));
    AnyFails(StatedBy(ts), uris);
    assert forall a :: StatedBy(ts)(a) == Stated(ts, a);
  }

  // ---------------------------------------------------------------- rules for what a container holds

  /** An authorization that names no resource makes extraction fail if it names an agent, a class of
      agents or a mode, whatever its default says. */
  lemma WithoutResource(ts: seq<Triple>, a: string)
    requires a in Declared(ts) && LastText(OfSubject(ts, a), AccessTo) == ""
    ensures var own := OfSubject(ts, a);
      Blank(Stated(ts, a)) <==>
        LastText(own, Agent) == "" && LastText(own, AgentClass) == "" && Named(ModeTriples(own)) == []
    ensures !Blank(Stated(ts, a)) ==> Extracted(ts).None?
  {
    var own := OfSubject(ts, a);
    CompleteIff(ts, a);
    FailsIff(ts);
  }

  /** The triples of a rule for what a container holds: the container is the object of the default
      property, and no other resource is named. */
  function Inherited(a: string, container: string, agent: string, mode: string): seq<Triple> {
    [Triple(a, Property(Other), AUTHORIZATION)] + [Triple(a, Property(Default), container)]
    + [Triple(a, Property(Agent), agent)] + [Triple(a, Property(Mode), mode)]
  }

  lemma LastNext(ts: seq<Triple>, a: string, stated: Role, object_: string, role: Role)
    ensures Last(ts + [Triple(a, Property(stated), object_)], role) ==
      if stated == role then Some(object_) else Last(ts, role)
  {
    PropertyRole(stated);
    assert (ts + [Triple(a, Property(stated), object_)])[..|ts|] == ts;
  }

  lemma InheritedRead(a: string, container: string, agent: string, mode: string, role: Role)
    ensures Last(Inherited(a, container, agent, mode), role) ==
      match role
      case Mode => Some(mode)
      case Agent => Some(agent)
      case Default => Some(container)
      case Other => Some(AUTHORIZATION)
      case _ => None
  {
    var one := [Triple(a, Property(Other), AUTHORIZATION)];
    var two := one + [Triple(a, Property(Default), container)];
    assert [] + one == one;
    LastNext([], a, Other, AUTHORIZATION, role);
    LastNext(one, a, Default, container, role);
    LastNext(two, a, Agent, agent, role);
    LastNext(two + [Triple(a, Property(Agent), agent)], a, Mode, mode, role);
  }

  lemma InheritedOwn(a: string, container: string, agent: string, mode: string)
    requires Trimmed(a)
    ensures OfSubject(Inherited(a, container, agent, mode), a) == Inherited(a, container, agent, mode)
  {
    TrimTrims(a);
    FilterAll(About(a), Inherited(a, container, agent, mode));
  }

  /** Such a rule is refused, and with it the document: only the text "true" is read as a default,
      and a rule needs a resource of its own. */
  lemma InheritedRefused(a: string, container: string, agent: string, mode: string)
    requires a != "" && Trimmed(a) && Trim(agent) != ""
    ensures Extracted(Inherited(a, container, agent, mode)).None?
    ensures Stated(Inherited(a, container, agent, mode), a).defaultAccess == IsTrue(container)
  {
    var ts := Inherited(a, container, agent, mode);
    InheritedOwn(a, container, agent, mode);
    InheritedRead(a, container, agent, mode, AccessTo);
    InheritedRead(a, container, agent, mode, Agent);
    InheritedRead(a, container, agent, mode, Default);
    AbsorbedDefault(a, ts);
    InheritedDeclared(a, container, agent, mode);
    WithoutResource(ts, a);
  }

  lemma InheritedDeclared(a: string, container: string, agent: string, mode: string)
    requires a != "" && Trimmed(a)
    ensures a in Declared(Inherited(a, container, agent, mode))
  {
    var ts := Inherited(a, container, agent, mode);
    PropertyRole(Other);
    AuthorizationDeclared();
    TrimTrims(a);
    assert DeclaresAuthorization(ts[0]);
    DeclaredMember(ts, 0);
    FirstOccurrencesMeaning(Declared(ts));
  }

  lemma {:induction false} DeclaredMember(ts: seq<Triple>, i: nat)
    requires i < |ts| && DeclaresAuthorization(ts[i])
    ensures Trim(ts[i].subject) in FirstOccurrences(Declared(ts))
  {
    var n := |ts| - 1;
    assert ts == ts[..n] + [ts[n]];
    DeclaredNext(ts[..n], ts[n]);
    if i == n {
    } else {
      DeclaredMember(ts[..n], i);
    }
  }

  /** What extraction returns is well formed, one rule to an authorization, and made of exactly the
      complete rules stated in the document. */
  lemma ExtractedMeaning(ts: seq<Triple>)
    requires Extracted(ts).Some?
    ensures Distinct(Authorizations(Extracted(ts).value))
    ensures forall rule :: rule in Extracted(ts).value ==> WellFormed(rule)
    ensures forall rule :: rule in Extracted(ts).value ==>
      rule.accessTo != "" && (rule.agent != "" || rule.agentClass != "") && rule.modes != []
    ensures forall rule :: rule in Extracted(ts).value <==>
      exists a :: a in Declared(ts) && SaysAll(OfSubject(ts, a)) && rule == Said(a, OfSubject(ts, a))
  {
    forall rule ensures rule in Extracted(ts).value <==>
      exists a :: a in Declared(ts) && SaysAll(OfSubject(ts, a)) && rule == Said(a, OfSubject(ts, a))
    {
      MemberSaid(ts, rule);
    }
    RulesMeaning(ts);
  }

  lemma MemberSaid(ts: seq<Triple>, rule: Rule)
    requires Extracted(ts).Some?
    ensures rule in Extracted(ts).value <==>
      exists a :: a in Declared(ts) && SaysAll(OfSubject(ts, a)) && rule == Said(a, OfSubject(ts, a))
  {
    RulesMeaning(ts);
    forall a
      ensures Complete(Stated(ts, a)) <==> SaysAll(OfSubject(ts, a))
      ensures Stated(ts, a) == Said(a, OfSubject(ts, a))
    {
      CompleteIff(ts, a);
      StatedIsSaid(ts, a);
    }
  }

  lemma RulesMeaning(ts: seq<Triple>)
    requires Extracted(ts).Some?
    ensures Distinct(Authorizations(Extracted(ts).value))
    ensures forall rule :: rule in Extracted(ts).value ==> WellFormed(rule)
    ensures forall rule :: rule in Extracted(ts).value <==>
      Complete(rule) && exists a :: a in Declared(ts) && rule == Stated(ts, a)
  {
    var stated, uris := StatedBy(ts), FirstOccurrences(Declared(ts));
    FirstOccurrencesMeaning(Declared(ts));
    assert forall a :: stated(a) == Stated(ts, a);
    forall i | 0 <= i < |uris| ensures stated(uris[i]).authorization == uris[i] {
      AbsorbedDefault(uris[i], OfSubject(ts, uris[i]));
    }
    AcceptedDistinct(stated, uris);
    forall rule
      ensures rule in Extracted(ts).value <==> Complete(rule) && exists a :: a in Declared(ts) && rule == Stated(ts, a)
      ensures rule in Extracted(ts).value ==> WellFormed(rule)
    {
      AcceptedMembers(stated, uris, rule);
      MemberWellFormed(ts, rule);
    }
  }

  lemma MemberWellFormed(ts: seq<Triple>, rule: Rule)
    ensures Complete(rule) && (exists a :: a in Declared(ts) && rule == Stated(ts, a)) ==> WellFormed(rule)
  {
    if a :| a in Declared(ts) && rule == Stated(ts, a) {
      DeclaredTrimmed(ts, a);
      StatedWellFormed(ts, a);
    }
  }

  // ---------------------------------------------------------------- writing rules

  function Optional(subject: string, role: Role, object_: string): seq<Triple> {
    if object_ == "" then [] else [Triple(subject, Property(role), object_)]
  }

  function ModeTriple(subject: string): string -> Triple {
    (mode: string) => Triple(subject, Property(Mode), ModeClass(mode))
  }

  function PrintModes(subject: string, modes: seq<string>): seq<Triple> {
    Map(ModeTriple(subject), modes)
  }

  function PrintWhom(rule: Rule): seq<Triple> {
    var a := rule.authorization;
    [Triple(a, Property(Other), AUTHORIZATION)]
      + Optional(a, AccessTo, rule.accessTo)
      + Optional(a, Agent, rule.agent)
      + Optional(a, AgentClass, rule.agentClass)
  }

  /** The triples that state a rule. */
  function Print(rule: Rule): seq<Triple> {
    var a := rule.authorization;
    PrintWhom(rule)
      + PrintModes(a, rule.modes)
      + Optional(a, Default, if rule.defaultAccess then "true" else "")
      + Optional(a, Origin, rule.origin)
  }

  function Printed(rules: seq<Rule>): (rows: seq<seq<Triple>>)
    ensures |rows| == |rules|
    ensures forall i :: 0 <= i < |rows| ==> rows[i] == Print(rules[i])
  {
    seq(|rules|, i requires 0 <= i < |rules| => Print(rules[i]))
  }

  function PrintAll(rules: seq<Rule>): seq<Triple> {
    Flatten(Printed(rules))
  }

  /** The written triples in an order that keeps that of the declarations and, for each subject,
      that of its modes. */
  ghost predicate Arranged(rules: seq<Rule>, ts: seq<Triple>) {
    && multiset(ts) == multiset(PrintAll(rules))
    && Declaring(ts) == Declaring(PrintAll(rules))
    && forall a :: ModeTriples(OfSubject(ts, a)) == ModeTriples(OfSubject(PrintAll(rules), a))
  }

  // ---------------------------------------------------------------- reading one rule back

  lemma AbsorbedThen(first: Rule, a: seq<Triple>, second: Rule, b: seq<Triple>, third: Rule)
    requires Absorbed(first, a) == second && Absorbed(second, b) == third
    ensures Absorbed(first, a + b) == third
  {
    FoldAppend(Absorb, first, a, b);
  }

  lemma ModeAbsorbed(rule: Rule, subject: string, mode: string)
    requires ValidMode(mode)
    ensures Absorb(rule, ModeTriple(subject)(mode)) == rule.(modes := rule.modes + [mode])
  {
    PropertyRole(Mode);
    ModeClassRead(mode);
  }

  function WithMode(rule: Rule, mode: string): Rule {
    rule.(modes := rule.modes + [mode])
  }

  lemma {:induction false} ModesAdded(rule: Rule, modes: seq<string>)
    ensures Fold(WithMode, rule, modes) == rule.(modes := rule.modes + modes)
  {
    if modes == [] {
      assert rule.modes + modes == rule.modes;
    } else {
      var front, mode := modes[..|modes| - 1], modes[|modes| - 1];
      ModesAdded(rule, front);
      Regroup(rule.modes, front, [mode]);
      assert modes == front + [mode];
    }
  }

  lemma ModesAbsorbed(rule: Rule, subject: string, modes: seq<string>)
    requires forall i :: 0 <= i < |modes| ==> ValidMode(modes[i])
    ensures Absorbed(rule, PrintModes(subject, modes)) == rule.(modes := rule.modes + modes)
  {
    forall i, r: Rule | 0 <= i < |modes| ensures Absorb(r, ModeTriple(subject)(modes[i])) == WithMode(r, modes[i]) {
      ModeAbsorbed(r, subject, modes[i]);
    }
    FoldMap(Absorb, ModeTriple(subject), WithMode, rule, modes);
    ModesAdded(rule, modes);
  }

  lemma OneAbsorbed(rule: Rule, t: Triple)
    ensures Absorbed(rule, [t]) == Absorb(rule, t)
  {
    assert [t][..0] == [];
    assert Absorbed(rule, []) == rule;
  }

  function WithText(rule: Rule, role: Role, text: string): Rule
    requires IsText(role)
  {
    match role
    case AccessTo => rule.(accessTo := text)
    case Agent => rule.(agent := text)
    case AgentClass => rule.(agentClass := text)
    case Origin => rule.(origin := text)
  }

  lemma TextAbsorbed(rule: Rule, subject: string, role: Role, text: string)
    requires IsText(role) && Trimmed(text)
    requires TextOf(rule, role) == ""
    ensures Absorbed(rule, Optional(subject, role, text)) == WithText(rule, role, text)
  {
    if text != "" {
      var t := Triple(subject, Property(role), text);
      OneAbsorbed(rule, t);
      PropertyRole(role);
      TrimTrims(text);
    }
  }

  lemma DefaultAbsorbed(rule: Rule, subject: string, value: bool)
    requires !rule.defaultAccess
    ensures Absorbed(rule, Optional(subject, Default, if value then "true" else "")) == rule.(defaultAccess := value)
  {
    if value {
      OneAbsorbed(rule, Triple(subject, Property(Default), "true"));
      PropertyRole(Default);
      TrueIsTrue();
    }
  }

  lemma TrueIsTrue()
    ensures IsTrue("true")
  {
    TrimTrims("true");
    LowerLength("true");
  }

  lemma WhomAbsorbed(rule: Rule)
    requires WellFormed(rule)
    ensures Absorbed(Empty(rule.authorization), PrintWhom(rule)) ==
      Empty(rule.authorization).(accessTo := rule.accessTo, agent := rule.agent, agentClass := rule.agentClass)
  {
    var a, r0 := rule.authorization, Empty(rule.authorization);
    var declaration := Triple(a, Property(Other), AUTHORIZATION);
    PropertyRole(Other);
    OneAbsorbed(r0, declaration);
    var r1 := r0.(accessTo := rule.accessTo);
    TextAbsorbed(r0, a, AccessTo, rule.accessTo);
    AbsorbedThen(r0, [declaration], r0, Optional(a, AccessTo, rule.accessTo), r1);
    var r2 := r1.(agent := rule.agent);
    TextAbsorbed(r1, a, Agent, rule.agent);
    AbsorbedThen(r0, [declaration] + Optional(a, AccessTo, rule.accessTo), r1, Optional(a, Agent, rule.agent), r2);
    TextAbsorbed(r2, a, AgentClass, rule.agentClass);
    AbsorbedThen(
      r0, [declaration] + Optional(a, AccessTo, rule.accessTo) + Optional(a, Agent, rule.agent),
      r2, Optional(a, AgentClass, rule.agentClass), r2.(agentClass := rule.agentClass));
  }

  lemma PrintAbsorbed(rule: Rule)
    requires WellFormed(rule)
    ensures Absorbed(Empty(rule.authorization), Print(rule)) == rule
  {
    var a, r0, whom := rule.authorization, Empty(rule.authorization), PrintWhom(rule);
    WhomAbsorbed(rule);
    var r1 := r0.(accessTo := rule.accessTo, agent := rule.agent, agentClass := rule.agentClass);
    var r2 := r1.(modes := rule.modes);
    ModesAbsorbed(r1, a, rule.modes);
    assert r1.modes + rule.modes == rule.modes;
    AbsorbedThen(r0, whom, r1, PrintModes(a, rule.modes), r2);
    var default_ := Optional(a, Default, if rule.defaultAccess then "true" else "");
    var r3 := r2.(defaultAccess := rule.defaultAccess);
    DefaultAbsorbed(r2, a, rule.defaultAccess);
    AbsorbedThen(r0, whom + PrintModes(a, rule.modes), r2, default_, r3);
    TextAbsorbed(r3, a, Origin, rule.origin);
    AbsorbedThen(r0, whom + PrintModes(a, rule.modes) + default_, r3, Optional(a, Origin, rule.origin), rule);
  }

  // ---------------------------------------------------------------- the triples of one rule

  /** What a rule says in each role but that of its modes. */
  function Content(rule: Rule, role: Role): string {
    match role
    case AccessTo => rule.accessTo
    case Agent => rule.agent
    case AgentClass => rule.agentClass
    case Origin => rule.origin
    case Default => "true"
    case Mode => ""
    case Other => AUTHORIZATION
  }

  predicate Writes(rule: Rule, t: Triple, role: Role) {
    && t.subject == rule.authorization
    && t.predicate_ == Property(role)
    && (role == Mode || t.object_ == Content(rule, role))
  }

  function RoleWritten(rule: Rule, i: nat): (role: Role)
    requires i < |Print(rule)|
    ensures Writes(rule, Print(rule)[i], role)
    ensures role == Other <==> i == 0
  {
    var a := rule.authorization;
    var n1 := 1 + |Optional(a, AccessTo, rule.accessTo)|;
    var n2 := n1 + |Optional(a, Agent, rule.agent)|;
    var n3 := |PrintWhom(rule)|;
    var n4 := n3 + |PrintModes(a, rule.modes)|;
    var n5 := n4 + if rule.defaultAccess then 1 else 0;
    if i == 0 then Other
    else if i < n1 then AccessTo
    else if i < n2 then Agent
    else if i < n3 then AgentClass
    else if i < n4 then Mode
    else if i < n5 then Default
    else Origin
  }

  lemma PrintedRole(rule: Rule, i: nat)
    requires i < |Print(rule)|
    ensures Writes(rule, Print(rule)[i], RoleOf(Print(rule)[i].predicate_))
    ensures DeclaresAuthorization(Print(rule)[i]) <==> i == 0 && Trim(rule.authorization) != ""
  {
    PropertyRole(RoleWritten(rule, i));
    AuthorizationDeclared();
  }

  /** Two written triples of one rule in one role other than the mode's are equal. */
  lemma SingleValued(rule: Rule, t: Triple, u: Triple)
    requires t in Print(rule) && u in Print(rule)
    requires RoleOf(t.predicate_) == RoleOf(u.predicate_) != Mode
    ensures t == u
  {
    var i :| 0 <= i < |Print(rule)| && Print(rule)[i] == t;
    var j :| 0 <= j < |Print(rule)| && Print(rule)[j] == u;
    PrintedRole(rule, i);
    PrintedRole(rule, j);
  }

  predicate Under(row: seq<Triple>, subject: string) {
    forall i :: 0 <= i < |row| ==> row[i].subject == subject
  }

  lemma PrintUnder(rule: Rule)
    ensures Under(Print(rule), rule.authorization)
  {
    forall i | 0 <= i < |Print(rule)| ensures Print(rule)[i].subject == rule.authorization {
      PrintedRole(rule, i);
    }
  }

  // ---------------------------------------------------------------- the triples of one subject

  lemma RowAbout(row: seq<Triple>, written: string, subject: string)
    requires Under(row, written) && Trim(written) == written
    ensures if written == subject then Each(About(subject), row) else NoneOf(About(subject), row)
  {
  }

  lemma PrintedOnce(rules: seq<Rule>, k: nat)
    requires k < |rules|
    requires forall i :: 0 <= i < |rules| ==> WellFormed(rules[i])
    requires Distinct(Authorizations(rules))
    ensures OfSubject(PrintAll(rules), rules[k].authorization) == Print(rules[k])
  {
    var rows, names := Printed(rules), Authorizations(rules);
    forall i | 0 <= i < |rules|
      ensures if i == k then Each(About(names[k]), rows[i]) else NoneOf(About(names[k]), rows[i])
    {
      TrimTrims(names[i]);
      PrintUnder(rules[i]);
      assert names[i] == names[k] <==> i == k;
      RowAbout(rows[i], names[i], names[k]);
    }
    FilterOneRow(About(names[k]), rows, k);
  }

  // ---------------------------------------------------------------- the declarations

  lemma FirstDeclares(row: seq<Triple>)
    requires row != [] && DeclaresAuthorization(row[0])
    requires forall i :: 0 < i < |row| ==> !DeclaresAuthorization(row[i])
    ensures Declaring(row) == [row[0]]
  {
    FilterAppend(DeclaresAuthorization, row[..1], row[1..]);
    FilterAll(DeclaresAuthorization, row[..1]);
    FilterNone(DeclaresAuthorization, row[1..]);
    assert row == row[..1] + row[1..];
  }

  lemma PrintDeclares(rule: Rule)
    requires WellFormed(rule)
    ensures Declaring(Print(rule)) == [Print(rule)[0]] && Trim(Print(rule)[0].subject) == rule.authorization
  {
    TrimTrims(rule.authorization);
    forall i | 0 <= i < |Print(rule)| ensures DeclaresAuthorization(Print(rule)[i]) <==> i == 0 {
      PrintedRole(rule, i);
    }
    PrintedRole(rule, 0);
    FirstDeclares(Print(rule));
  }

  lemma {:induction false} DeclaredInOrder(rows: seq<seq<Triple>>, firsts: seq<Triple>, names: seq<string>)
    requires |rows| == |firsts| == |names|
    requires forall i :: 0 <= i < |rows| ==> Declaring(rows[i]) == [firsts[i]] && Trim(firsts[i].subject) == names[i]
    ensures Declaring(Flatten(rows)) == firsts && TrimmedSubjects(firsts) == names
  {
    if rows == [] {
    } else {
      var n := |rows| - 1;
      DeclaredInOrder(rows[..n], firsts[..n], names[..n]);
      FilterAppend(DeclaresAuthorization, Flatten(rows[..n]), rows[n]);
      assert firsts == firsts[..n] + [firsts[n]] && names == names[..n] + [names[n]];
    }
  }

  lemma DeclaredAgain(rules: seq<Rule>, ts: seq<Triple>)
    requires forall i :: 0 <= i < |rules| ==> WellFormed(rules[i])
    requires Declaring(ts) == Declaring(PrintAll(rules))
    ensures Declared(ts) == Authorizations(rules)
  {
    var rows := Printed(rules);
    var firsts := seq(|rules|, i requires 0 <= i < |rules| => Print(rules[i])[0]);
    forall i | 0 <= i < |rules|
      ensures Declaring(rows[i]) == [firsts[i]] && Trim(firsts[i].subject) == rules[i].authorization
    {
      PrintDeclares(rules[i]);
    }
    DeclaredInOrder(rows, firsts, Authorizations(rules));
  }

  // ---------------------------------------------------------------- every arrangement

  lemma {:induction false} LastMeaning(ts: seq<Triple>, role: Role)
    ensures match Last(ts, role)
      case None => forall t :: t in ts ==> RoleOf(t.predicate_) != role
      case Some(object_) => exists t :: t in ts && RoleOf(t.predicate_) == role && t.object_ == object_
  {
    if ts == [] {
    } else {
      LastMeaning(ts[..|ts| - 1], role);
      assert ts == ts[..|ts| - 1] + [ts[|ts| - 1]];
    }
  }

  lemma LastIs(rule: Rule, ts: seq<Triple>, u: Triple)
    requires forall t :: t in ts <==> t in Print(rule)
    requires u in Print(rule) && RoleOf(u.predicate_) != Mode
    ensures Last(ts, RoleOf(u.predicate_)) == Some(u.object_)
  {
    var role := RoleOf(u.predicate_);
    LastMeaning(ts, role);
    assert u in ts;
    var t :| t in ts && RoleOf(t.predicate_) == role && Last(ts, role) == Some(t.object_);
    SingleValued(rule, t, u);
  }

  lemma LastForgetsOrder(rule: Rule, ts: seq<Triple>, role: Role)
    requires forall t :: t in ts <==> t in Print(rule)
    requires role != Mode
    ensures Last(ts, role) == Last(Print(rule), role)
  {
    if u :| u in Print(rule) && RoleOf(u.predicate_) == role {
      LastIs(rule, ts, u);
      LastIs(rule, Print(rule), u);
    } else {
      LastMeaning(ts, role);
      LastMeaning(Print(rule), role);
    }
  }

  lemma AbsorbedForgetsOrder(rule: Rule, ts: seq<Triple>)
    requires multiset(ts) == multiset(Print(rule))
    requires ModeTriples(ts) == ModeTriples(Print(rule))
    ensures Absorbed(Empty(rule.authorization), ts) == Absorbed(Empty(rule.authorization), Print(rule))
  {
    assert forall t :: t in ts <==> t in multiset(ts);
    forall role | role != Mode ensures Last(ts, role) == Last(Print(rule), role) {
      LastForgetsOrder(rule, ts, role);
    }
    AbsorbedDetermined(rule.authorization, ts, Print(rule));
  }

  lemma StatedAgain(rules: seq<Rule>, ts: seq<Triple>, k: nat)
    requires k < |rules|
    requires forall i :: 0 <= i < |rules| ==> WellFormed(rules[i])
    requires Distinct(Authorizations(rules))
    requires Arranged(rules, ts)
    ensures Stated(ts, rules[k].authorization) == rules[k]
  {
    var rule, a := rules[k], rules[k].authorization;
    PrintedOnce(rules, k);
    FilterForgetsOrder(About(a), ts, PrintAll(rules));
    AbsorbedForgetsOrder(rule, OfSubject(ts, a));
    PrintAbsorbed(rule);
  }

  lemma AcceptedAgain(rules: seq<Rule>, ts: seq<Triple>, k: nat)
    requires k < |rules|
    requires forall i :: 0 <= i < |rules| ==> WellFormed(rules[i])
    requires Distinct(Authorizations(rules))
    requires Arranged(rules, ts)
    ensures RulesBy(ts)(rules[k].authorization) == Some([rules[k]])
  {
    StatedAgain(rules, ts, k);
    assert StatedBy(ts)(rules[k].authorization) == rules[k];
  }

  lemma RulesInOrder(f: string -> Option<seq<Rule>>, names: seq<string>, rules: seq<Rule>)
    requires |names| == |rules|
    requires forall k :: 0 <= k < |rules| ==> f(names[k]) == Some([rules[k]])
    ensures RulesOfAll(f, names) == Some(rules)
  {
    CollectMeaning(f, names);
    FlattenSingles(Collect(f, names).value, rules);
  }

  /** Rules written as triples, in any arrangement, are read back unchanged if and only if each is
      well formed and no two share an authorization. */
  lemma RoundTripIff(rules: seq<Rule>, ts: seq<Triple>)
    requires Arranged(rules, ts)
    ensures Extracted(ts) == Some(rules) <==>
      && (forall i :: 0 <= i < |rules| ==> WellFormed(rules[i]))
      && Distinct(Authorizations(rules))
  {
    if Extracted(ts) == Some(rules) {
      ExtractedMeaning(ts);
      assert forall i :: 0 <= i < |rules| ==> rules[i] in rules;
    }
    if (forall i :: 0 <= i < |rules| ==> WellFormed(rules[i])) && Distinct(Authorizations(rules)) {
      ReadBack(rules, ts);
    }
  }

  lemma ReadBack(rules: seq<Rule>, ts: seq<Triple>)
    requires forall i :: 0 <= i < |rules| ==> WellFormed(rules[i])
    requires Distinct(Authorizations(rules))
    requires Arranged(rules, ts)
    ensures Extracted(ts) == Some(rules)
  {
    var f, names := RulesBy(ts), Authorizations(rules);
    DeclaredAgain(rules, ts);
    FirstOccurrencesMeaning(names);
    forall k | 0 <= k < |rules| ensures f(names[k]) == Some([rules[k]]) {
      AcceptedAgain(rules, ts, k);
    }
    RulesInOrder(f, names, rules);
  }
}
