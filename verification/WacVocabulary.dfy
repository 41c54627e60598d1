/** The IRIs of the Web Access Control vocabulary and the keywords the parser finds in them
    (internal/authz/wac_parser.go). */
module WacVocabulary {

  import opened Text
  import opened AccessModes
  import opened WacRules

  const W3 := "http://www.w3.org/"
  const ACL_PATH := "ns/auth/acl#"
  const RDF_PATH := "1999/02/22-rdf-syntax-ns#"

  function Acl(name: string): string {
    W3 + ACL_PATH + name
  }

  const TYPE := W3 + RDF_PATH + "type"
  const AUTHORIZATION := Acl("Authorization")

  /** The property that states each part of a rule. */
  function Property(role: Role): string {
    match role
    case AccessTo => Acl("accessTo")
    case AgentClass => Acl("agentClass")
    case Agent => Acl("agent")
    case Mode => Acl("mode")
    case Default => Acl("default")
    case Origin => Acl("origin")
    case Other => TYPE
  }

  /** The class that names an access mode in the vocabulary. */
  function ModeClass(mode: string): string {
    Acl(ClassName(mode))
  }

  function ClassName(mode: string): string {
    if mode == "read" then "Read"
    else if mode == "append" then "Append"
    else if mode == "write" then "Write"
    else if mode == "control" then "Control"
    else mode
  }

  // ---------------------------------------------------------------- absence of a keyword

  /** No `c` is followed by `d`. */
  predicate Avoids(s: string, c: char, d: char) {
    forall i :: 0 <= i < |s| - 1 && s[i] == c ==> s[i + 1] != d
  }

  lemma AvoidsAppend(a: string, b: string, c: char, d: char)
    requires Avoids(a, c, d) && Avoids(b, c, d)
    requires a == "" || a[|a| - 1] != c
    ensures Avoids(a + b, c, d)
  {
    var s := a + b;
    forall i | 0 <= i < |s| - 1 && s[i] == c ensures s[i + 1] != d {
      if i < |a| - 1 {
        assert s[i] == a[i] && s[i + 1] == a[i + 1];
      } else if i >= |a| {
        assert s[i] == b[i - |a|] && s[i + 1] == b[i + 1 - |a|];
      }
    }
  }

  lemma AvoidsExcludes(s: string, part: string, k: nat)
    requires k + 1 < |part|
    requires Avoids(s, part[k], part[k + 1])
    ensures !Contains(s, part)
  {
    forall i | 0 <= i <= |s| - |part| ensures !OccursAt(s, part, i) {
      var at := s[i..i + |part|];
      assert at[k] == s[i + k] && at[k + 1] == s[i + k + 1];
    }
  }

  /** The letter pairs by which the keywords are told apart. */
  const PAIRS := ["To", "ag", "Cl", "mo", "de", "ri", "ty"]

  predicate AvoidsPair(s: string, p: nat)
    requires p < |PAIRS|
  {
    Avoids(s, PAIRS[p][0], PAIRS[p][1])
  }

  lemma HostNeutral(p: nat)
    requires p < |PAIRS|
    ensures AvoidsPair(W3, p) && W3[|W3| - 1] != PAIRS[p][0]
  {
  }

  lemma AclNeutral(p: nat)
    requires p < |PAIRS|
    ensures AvoidsPair(ACL_PATH, p) && ACL_PATH[|ACL_PATH| - 1] != PAIRS[p][0]
  {
  }

  lemma RdfNeutral(p: nat)
    requires p < |PAIRS|
    ensures AvoidsPair(RDF_PATH, p) && RDF_PATH[|RDF_PATH| - 1] != PAIRS[p][0]
  {
  }

  lemma AclAvoids(name: string, p: nat)
    requires p < |PAIRS| && AvoidsPair(name, p)
    ensures AvoidsPair(Acl(name), p)
  {
    HostNeutral(p);
    AclNeutral(p);
    AvoidsAppend(W3, ACL_PATH, PAIRS[p][0], PAIRS[p][1]);
    AvoidsAppend(W3 + ACL_PATH, name, PAIRS[p][0], PAIRS[p][1]);
  }

  lemma TypeAvoids(p: nat)
    requires p < 6
    ensures AvoidsPair(TYPE, p)
  {
    HostNeutral(p);
    RdfNeutral(p);
    AvoidsAppend(W3, RDF_PATH, PAIRS[p][0], PAIRS[p][1]);
    assert AvoidsPair("type", p);
    AvoidsAppend(W3 + RDF_PATH, "type", PAIRS[p][0], PAIRS[p][1]);
  }

  lemma Ends(base: string, name: string, part: string)
    requires part <= name
    ensures Contains(base + name, part)
  {
    assert OccursAt(base + name, part, |base|);
  }

  // ---------------------------------------------------------------- the role of each property

  lemma NotAccessTo(s: string)
    requires AvoidsPair(s, 0)
    ensures !Contains(s, "accessTo")
  {
    AvoidsExcludes(s, "accessTo", 6);
  }

  lemma NotAgent(s: string)
    requires AvoidsPair(s, 1)
    ensures !Contains(s, "agent") && !Contains(s, "agentClass")
  {
    AvoidsExcludes(s, "agent", 0);
    AvoidsExcludes(s, "agentClass", 0);
  }

  lemma NotAgentClass(s: string)
    requires AvoidsPair(s, 2)
    ensures !Contains(s, "agentClass")
  {
    AvoidsExcludes(s, "agentClass", 5);
  }

  lemma NotMode(s: string)
    requires AvoidsPair(s, 3)
    ensures !Contains(s, "mode")
  {
    AvoidsExcludes(s, "mode", 0);
  }

  lemma NotDefault(s: string)
    requires AvoidsPair(s, 4)
    ensures !Contains(s, "default")
  {
    AvoidsExcludes(s, "default", 0);
  }

  lemma NotOrigin(s: string)
    requires AvoidsPair(s, 5)
    ensures !Contains(s, "origin")
  {
    AvoidsExcludes(s, "origin", 1);
  }

  lemma NotType(s: string)
    requires AvoidsPair(s, 6)
    ensures !Contains(s, "type")
  {
    AvoidsExcludes(s, "type", 0);
  }

  /** Every property is read in the role it was written for, and only the type property
      declares an authorization. */
  lemma PropertyRole(role: Role)
    ensures RoleOf(Property(role)) == role
    ensures Contains(Property(role), "type") <==> role == Other
  {
    match role {
      case AccessTo => AccessToRole();
      case AgentClass => AgentClassRole();
      case Agent => AgentRole();
      case Mode => ModeRole();
      case Default => DefaultRole();
      case Origin => OriginRole();
      case Other => TypeRole();
    }
  }

  lemma AccessToRole()
    ensures RoleOf(Acl("accessTo")) == AccessTo && !Contains(Acl("accessTo"), "type")
  {
    AccessToRoleOf("accessTo");
  }

  lemma AccessToRoleOf(name: string)
    requires "accessTo" <= name
    requires AvoidsPair(name, 6)
    ensures RoleOf(Acl(name)) == AccessTo && !Contains(Acl(name), "type")
  {
    Ends(W3 + ACL_PATH, name, "accessTo");
    AclAvoids(name, 6);
    NotType(Acl(name));
  }

  lemma AgentClassRole()
    ensures RoleOf(Acl("agentClass")) == AgentClass && !Contains(Acl("agentClass"), "type")
  {
    AgentClassRoleOf("agentClass");
  }

  lemma AgentClassRoleOf(name: string)
    requires "agentClass" <= name
    requires AvoidsPair(name, 0) && AvoidsPair(name, 6)
    ensures RoleOf(Acl(name)) == AgentClass && !Contains(Acl(name), "type")
  {
    Ends(W3 + ACL_PATH, name, "agentClass");
    assert Contains(Acl(name), "agentClass");
    AclAvoids(name, 0);
    NotAccessTo(Acl(name));
    AclAvoids(name, 6);
    NotType(Acl(name));
  }

  lemma AgentRole()
    ensures RoleOf(Acl("agent")) == Agent && !Contains(Acl("agent"), "type")
  {
    AgentRoleOf("agent");
  }

  lemma AgentRoleOf(name: string)
    requires "agent" <= name
    requires AvoidsPair(name, 0) && AvoidsPair(name, 2) && AvoidsPair(name, 6)
    ensures RoleOf(Acl(name)) == Agent && !Contains(Acl(name), "type")
  {
    Ends(W3 + ACL_PATH, name, "agent");
    AclAvoids(name, 0);
    NotAccessTo(Acl(name));
    AclAvoids(name, 2);
    NotAgentClass(Acl(name));
    AclAvoids(name, 6);
    NotType(Acl(name));
  }

  lemma ModeRole()
    ensures RoleOf(Acl("mode")) == Mode && !Contains(Acl("mode"), "type")
  {
    ModeRoleOf("mode");
  }

  lemma ModeRoleOf(name: string)
    requires "mode" <= name
    requires AvoidsPair(name, 0) && AvoidsPair(name, 1) && AvoidsPair(name, 6)
    ensures RoleOf(Acl(name)) == Mode && !Contains(Acl(name), "type")
  {
    Ends(W3 + ACL_PATH, name, "mode");
    AclAvoids(name, 0);
    NotAccessTo(Acl(name));
    AclAvoids(name, 1);
    NotAgent(Acl(name));
    AclAvoids(name, 6);
    NotType(Acl(name));
  }

  lemma DefaultRole()
    ensures RoleOf(Acl("default")) == Default && !Contains(Acl("default"), "type")
  {
    DefaultRoleOf("default");
  }

  lemma DefaultRoleOf(name: string)
    requires "default" <= name
    requires AvoidsPair(name, 0) && AvoidsPair(name, 1) && AvoidsPair(name, 3) && AvoidsPair(name, 6)
    ensures RoleOf(Acl(name)) == Default && !Contains(Acl(name), "type")
  {
    Ends(W3 + ACL_PATH, name, "default");
    AclAvoids(name, 0);
    NotAccessTo(Acl(name));
    AclAvoids(name, 1);
    NotAgent(Acl(name));
    AclAvoids(name, 3);
    NotMode(Acl(name));
    AclAvoids(name, 6);
    NotType(Acl(name));
  }

  lemma OriginRole()
    ensures RoleOf(Acl("origin")) == Origin && !Contains(Acl("origin"), "type")
  {
    OriginRoleOf("origin");
  }

  lemma OriginRoleOf(name: string)
    requires "origin" <= name
    requires AvoidsPair(name, 0) && AvoidsPair(name, 1) && AvoidsPair(name, 3) && AvoidsPair(name, 4) && AvoidsPair(name, 6)
    ensures RoleOf(Acl(name)) == Origin && !Contains(Acl(name), "type")
  {
    Ends(W3 + ACL_PATH, name, "origin");
    AclAvoids(name, 0);
    NotAccessTo(Acl(name));
    AclAvoids(name, 1);
    NotAgent(Acl(name));
    AclAvoids(name, 3);
    NotMode(Acl(name));
    AclAvoids(name, 4);
    NotDefault(Acl(name));
    AclAvoids(name, 6);
    NotType(Acl(name));
  }

  lemma TypeRole()
    ensures RoleOf(TYPE) == Other && Contains(TYPE, "type")
  {
    Ends(W3 + RDF_PATH, "type", "type");
    TypeAvoids(0);
    TypeAvoids(1);
    TypeAvoids(3);
    TypeAvoids(4);
    TypeAvoids(5);
    NotAccessTo(TYPE);
    NotAgent(TYPE);
    NotMode(TYPE);
    NotDefault(TYPE);
    NotOrigin(TYPE);
  }

  // ---------------------------------------------------------------- the names of the modes

  lemma {:induction false} LowerAppend(a: string, b: string)
    ensures Lower(a + b) == Lower(a) + Lower(b)
  {
    if a == "" {
      assert a + b == b;
    } else {
      LowerAppend(a[1..], b);
      assert (a + b)[0] == a[0] && (a + b)[1..] == a[1..] + b;
      Associative([LowerChar(a[0])], Lower(a[1..]), Lower(b));
    }
  }

  lemma {:induction false} LowerLength(s: string)
    ensures |Lower(s)| == |s|
    ensures forall i :: 0 <= i < |s| ==> Lower(s)[i] == LowerChar(s[i])
  {
    if s == "" {
    } else {
      LowerLength(s[1..]);
    }
  }

  /** `part` is all of `s`, or ends it and follows one of the separators. */
  predicate SuffixAfter(s: string, part: string, separators: set<char>) {
    && |part| <= |s|
    && (forall i :: 0 <= i < |part| ==> part[i] == s[|s| - |part| + i])
    && (|part| < |s| ==> s[|s| - |part| - 1] in separators)
  }

  /** What follows the last `c` is a suffix without `c`. */
  lemma {:induction false} AfterLastIs(s: string, c: char)
    ensures SuffixAfter(s, AfterLast(s, c), {c})
    ensures forall i :: 0 <= i < |AfterLast(s, c)| ==> AfterLast(s, c)[i] != c
  {
    if s == "" || s[|s| - 1] == c {
    } else {
      var front, last := s[..|s| - 1], s[|s| - 1];
      AfterLastIs(front, c);
      SuffixExtended(front, AfterLast(front, c), {c}, last);
      assert s == front + [last];
    }
  }

  lemma SuffixExtended(s: string, part: string, seps: set<char>, x: char)
    requires SuffixAfter(s, part, seps)
    ensures SuffixAfter(s + [x], part + [x], seps)
  {
    var s', part' := s + [x], part + [x];
    forall i | 0 <= i < |part'| ensures part'[i] == s'[|s'| - |part'| + i] {
      if i < |part| {
        assert part[i] == s[|s| - |part| + i];
      }
    }
  }

  lemma SuffixOfSuffix(s: string, t: string, u: string, a: set<char>, b: set<char>)
    requires SuffixAfter(s, t, a) && SuffixAfter(t, u, b)
    ensures SuffixAfter(s, u, a + b)
  {
    forall i | 0 <= i < |u| ensures u[i] == s[|s| - |u| + i] {
      assert u[i] == t[|t| - |u| + i];
    }
    if |u| < |t| {
      assert t[|t| - |u| - 1] == s[|s| - |u| - 1];
    }
  }

  const SEPARATORS: set<char> := {'#', '/', ':'}

  predicate NoSeparator(s: string) {
    forall i :: 0 <= i < |s| ==> s[i] !in SEPARATORS
  }

  lemma SuffixLacks(s: string, t: string, seps: set<char>, c: char)
    requires SuffixAfter(s, t, seps) && forall i :: 0 <= i < |s| ==> s[i] != c
    ensures forall i :: 0 <= i < |t| ==> t[i] != c
  {
  }

  lemma LocalNameIs(s: string)
    ensures SuffixAfter(s, LocalName(s), SEPARATORS) && NoSeparator(LocalName(s))
  {
    var r1 := AfterLast(s, '#');
    var r2 := AfterLast(r1, '/');
    AfterLastIs(s, '#');
    AfterLastIs(r1, '/');
    AfterLastIs(r2, ':');
    NamesAfter(s, r1, r2, LocalName(s));
  }

  lemma NamesAfter(s: string, r1: string, r2: string, r3: string)
    requires SuffixAfter(s, r1, {'#'}) && forall i :: 0 <= i < |r1| ==> r1[i] != '#'
    requires SuffixAfter(r1, r2, {'/'}) && forall i :: 0 <= i < |r2| ==> r2[i] != '/'
    requires SuffixAfter(r2, r3, {':'}) && forall i :: 0 <= i < |r3| ==> r3[i] != ':'
    ensures SuffixAfter(s, r3, SEPARATORS) && NoSeparator(r3)
  {
    SuffixOfSuffix(s, r1, r2, {'#'}, {'/'});
    SuffixOfSuffix(s, r2, r3, {'#'} + {'/'}, {':'});
    assert {'#'} + {'/'} + {':'} == SEPARATORS;
    SuffixLacks(r1, r2, {'/'}, '#');
    SuffixLacks(r2, r3, {':'}, '#');
    SuffixLacks(r2, r3, {':'}, '/');
  }

  lemma LongerHoldsSeparator(s: string, t: string, u: string)
    requires SuffixAfter(s, t, SEPARATORS) && SuffixAfter(s, u, SEPARATORS) && |t| < |u|
    ensures !NoSeparator(u)
  {
    var i := |u| - |t| - 1;
    assert u[i] == s[|s| - |t| - 1];
  }

  /** A text has one local name: the separator-free suffix that is all of it or follows a separator. */
  lemma LocalNameUnique(s: string, t: string, u: string)
    requires SuffixAfter(s, t, SEPARATORS) && NoSeparator(t)
    requires SuffixAfter(s, u, SEPARATORS) && NoSeparator(u)
    ensures t == u
  {
    if |t| < |u| {
      LongerHoldsSeparator(s, t, u);
    } else if |u| < |t| {
      LongerHoldsSeparator(s, u, t);
    }
  }

  /** An object names a mode if and only if, trimmed, in lower case and without angle brackets, it is
      the mode or ends with it after `#`, `/` or `:`. */
  lemma ModeParsedIff(text: string, mode: string)
    requires ValidMode(mode)
    ensures ParseAccessMode(text) == mode <==> SuffixAfter(Unwrapped(Lower(Trim(text))), mode, SEPARATORS)
  {
    var bare := Unwrapped(Lower(Trim(text)));
    LocalNameIs(bare);
    ModeHasNoSeparator(mode);
    if SuffixAfter(bare, mode, SEPARATORS) {
      LocalNameUnique(bare, mode, LocalName(bare));
    }
  }

  lemma ModeHasNoSeparator(mode: string)
    requires ValidMode(mode)
    ensures NoSeparator(mode) && mode != ""
  {
  }

  lemma LowerHash(head: string, name: string)
    ensures Lower(head + "#" + name) == Lower(head) + "#" + Lower(name)
  {
    LowerAppend(head + "#", name);
    LowerAppend(head, "#");
    assert Lower("#") == "#";
  }

  lemma BareText(text: string)
    requires text != "" && Trimmed(text) && text[0] != '<'
    ensures Unwrapped(Lower(Trim(text))) == Lower(text)
  {
    TrimTrims(text);
    LowerLength(text);
  }

  lemma EndsAfterHash(head: string, mode: string)
    ensures SuffixAfter(head + "#" + mode, mode, SEPARATORS)
  {
    var s := head + "#" + mode;
    assert s[|s| - |mode|..] == mode && s[|s| - |mode| - 1] == '#';
  }

  /** An IRI that does not start with `<` names the mode after its last `#`. */
  lemma ModeAfterHash(head: string, name: string)
    requires head != "" && !IsSpace(head[0]) && head[0] != '<'
    requires name != "" && !IsSpace(name[|name| - 1])
    requires ValidMode(Lower(name))
    ensures ParseAccessMode(head + "#" + name) == Lower(name)
  {
    var text := head + "#" + name;
    assert text[0] == head[0] && text[|text| - 1] == name[|name| - 1];
    BareText(text);
    LowerHash(head, name);
    EndsAfterHash(Lower(head), Lower(name));
    ModeParsedIff(text, Lower(name));
  }

  lemma LowerIs(s: string, t: string)
    requires |s| == |t| && forall i :: 0 <= i < |s| ==> LowerChar(s[i]) == t[i]
    ensures Lower(s) == t
  {
    LowerLength(s);
  }

  lemma ClassNameLower(mode: string)
    requires ValidMode(mode)
    ensures Lower(ClassName(mode)) == mode
  {
    if mode == "read" {
      LowerIs("Read", "read");
    } else if mode == "append" {
      LowerIs("Append", "append");
    } else if mode == "write" {
      LowerIs("Write", "write");
    } else {
      LowerIs("Control", "control");
    }
  }

  lemma AclHash(name: string)
    ensures Acl(name) == (W3 + "ns/auth/acl") + "#" + name
  {
    assert ACL_PATH == "ns/auth/acl" + "#";
    Associative(W3, "ns/auth/acl", "#");
  }

  lemma ClassNameText(mode: string)
    requires ValidMode(mode)
    ensures ClassName(mode) != "" && !IsSpace(ClassName(mode)[|ClassName(mode)| - 1])
  {
  }

  /** Each valid mode is read back from its class. */
  lemma ModeClassRead(mode: string)
    requires ValidMode(mode)
    ensures ParseAccessMode(ModeClass(mode)) == mode
  {
    var head := W3 + "ns/auth/acl";
    ClassNameText(mode);
    ClassNameLower(mode);
    AclHash(ClassName(mode));
    assert head[0] == 'h';
    ModeAfterHash(head, ClassName(mode));
  }

  lemma AuthorizationDeclared()
    ensures Contains(AUTHORIZATION, "Authorization")
  {
    Ends(W3 + ACL_PATH, "Authorization", "Authorization");
  }
}
