/** Allowlist patterns of the enforcement gate (internal/authz/enforcement_gate.go).

    A pattern is turned into regular-expression text by quoting it and then running two
    left-to-right replacements over the quoted text.  The module reads that text back as an
    anchored regular expression and proves that it accepts what the glob accepts. */
module GlobPattern {

  import opened Wrappers

  const BACKSLASH: char := '\\'
  const NEWLINE: char := '\n'

  /** Characters that the regular-expression library quotes. */
  predicate IsMeta(c: char) {
    c in {'\\', '.', '+', '*', '?', '(', ')', '|', '[', ']', '{', '}', '^', '$'}
  }

  /** The characters that a configured pattern may contain. */
  predicate IsPatternChar(c: char) {
    || 'a' <= c <= 'z'
    || 'A' <= c <= 'Z'
    || '0' <= c <= '9'
    || c in {'-', '_', '.', '/', '*', '?'}
  }

  predicate ValidPattern(p: string) {
    forall c :: c in p ==> IsPatternChar(c)
  }

  // ---------------------------------------------------------------- the glob, independently

  /** What a glob means: `*` covers any run, `?` covers one character, everything else is
      literal.  Wildcards do not cover the characters of `excluded`. */
  predicate GlobAccepts(p: string, s: string, excluded: set<char>)
    decreases |p|
  {
    if p == "" then s == ""
    else if p[0] == '*' then
      exists k :: 0 <= k <= |s| && Avoids(s[..k], excluded) && GlobAccepts(p[1..], s[k..], excluded)
    else
      && s != ""
      && (if p[0] == '?' then s[0] !in excluded else p[0] == s[0])
      && GlobAccepts(p[1..], s[1..], excluded)
  }

  predicate Avoids(s: string, excluded: set<char>) {
    forall c :: c in s ==> c !in excluded
  }

  // ---------------------------------------------------------------- the translation

  function QuoteChar(c: char): string {
    if IsMeta(c) then [BACKSLASH, c] else [c]
  }

  function QuoteMeta(p: string): string {
    if p == "" then "" else QuoteChar(p[0]) + QuoteMeta(p[1..])
  }

  /** Left-to-right, non-overlapping replacement. */
  function ReplaceAll(s: string, what: string, with: string): string
    requires what != ""
  {
    if |s| < |what| then s
    else if s[..|what|] == what then with + ReplaceAll(s[|what|..], what, with)
    else [s[0]] + ReplaceAll(s[1..], what, with)
  }

  function RegexText(p: string): string {
    "^" + ReplaceAll(ReplaceAll(QuoteMeta(p), "\\*", ".*"), "\\?", ".") + "$"
  }

  // ---------------------------------------------------------------- reading regex text

  datatype Atom = Lit(c: char) | AnyChar
  datatype Item = One(atom: Atom) | Star(atom: Atom)

  /** Reads the fragment of regular-expression syntax that consists of plain characters,
      quoted characters, `.` and a postfix `*`.  Text outside the fragment is not compiled. */
  function ReadItems(text: string): Option<seq<Item>> {
    if text == "" then Some([])
    else
      var atom :- ReadAtom(text);
      var rest := text[AtomWidth(text)..];
      if rest != "" && rest[0] == '*' then
        var tail := rest[1..];
        if tail != "" && tail[0] in {'*', '?', '+', '{'} then None
        else
          var items :- ReadItems(tail);
          Some([Star(atom)] + items)
      else
        var items :- ReadItems(rest);
        Some([One(atom)] + items)
  }

  function ReadAtom(text: string): Option<Atom>
    requires text != ""
  {
    if text[0] == BACKSLASH then
      if |text| >= 2 && IsMeta(text[1]) then Some(Lit(text[1])) else None
    else if text[0] == '.' then Some(AnyChar)
    else if IsMeta(text[0]) then None
    else Some(Lit(text[0]))
  }

  function AtomWidth(text: string): nat
    requires text != "" && ReadAtom(text).Some?
    ensures 1 <= AtomWidth(text) <= |text|
  {
    if text[0] == BACKSLASH then 2 else 1
  }

  /** Only text anchored at both ends is compiled. */
  function Compile(text: string): Option<seq<Item>> {
    if |text| >= 2 && text[0] == '^' && text[|text| - 1] == '$'
    then ReadItems(text[1..|text| - 1])
    else None
  }

  predicate AtomAccepts(a: Atom, c: char) {
    match a
    case Lit(d) => c == d
    case AnyChar => c != NEWLINE
  }

  /** The whole of `s` is matched by the items in order. */
  predicate Accepts(items: seq<Item>, s: string)
    decreases |items|
  {
    if items == [] then s == ""
    else
      match items[0]
      case One(a) => s != "" && AtomAccepts(a, s[0]) && Accepts(items[1..], s[1..])
      case Star(a) =>
        exists k :: 0 <= k <= |s| && (forall c :: c in s[..k] ==> AtomAccepts(a, c)) && Accepts(items[1..], s[k..])
  }

  predicate MatchPattern(p: string, s: string) {
    var compiled := Compile(RegexText(p));
    compiled.Some? && Accepts(compiled.value, s)
  }

  // ---------------------------------------------------------------- the two passes

  function StarDone(c: char): string {
    if c == '*' then ".*" else QuoteChar(c)
  }

  function StarsDone(p: string): string {
    if p == "" then "" else StarDone(p[0]) + StarsDone(p[1..])
  }

  function BothDone(p: string): string {
    if p == "" then "" else (if p[0] == '?' then "." else StarDone(p[0])) + BothDone(p[1..])
  }

  /** A replacement pass moves over a character that does not start an occurrence. */
  lemma ReplaceSkips(s: string, what: char, with: string)
    requires s != ""
    requires |s| >= 2 && s[0] == BACKSLASH ==> s[1] != what
    ensures ReplaceAll(s, [BACKSLASH, what], with) == [s[0]] + ReplaceAll(s[1..], [BACKSLASH, what], with)
  {
    if |s| >= 2 {
      assert s[..2][0] == s[0] && s[..2][1] == s[1];
    } else {
      assert s == [s[0]] + s[1..];
    }
  }

  lemma ReplaceHit(rest: string, what: char, with: string)
    ensures ReplaceAll([BACKSLASH, what] + rest, [BACKSLASH, what], with) == with + ReplaceAll(rest, [BACKSLASH, what], with)
  {
    var text := [BACKSLASH, what] + rest;
    assert text[..2] == [BACKSLASH, what] && text[2..] == rest;
  }

  lemma ReplaceMiss(c: char, rest: string, what: char, with: string)
    requires c != what && (rest == "" || rest[0] != what)
    ensures ReplaceAll([c] + rest, [BACKSLASH, what], with) == [c] + ReplaceAll(rest, [BACKSLASH, what], with)
  {
    ReplaceSkips([c] + rest, what, with);
    assert ([c] + rest)[1..] == rest;
  }

  lemma ReplaceMissBoth(c: char, d: char, rest: string, what: char, with: string)
    requires c != what && d != what && (rest == "" || rest[0] != what)
    ensures ReplaceAll([c, d] + rest, [BACKSLASH, what], with) == [c, d] + ReplaceAll(rest, [BACKSLASH, what], with)
  {
    ReplaceMiss(d, rest, what, with);
    ReplaceSkips([c, d] + rest, what, with);
    assert ([c, d] + rest)[1..] == [d] + rest;
  }

  lemma {:induction false} FirstPass(p: string)
    ensures ReplaceAll(QuoteMeta(p), "\\*", ".*") == StarsDone(p)
  {
    if p == "" {
    } else {
      var rest := QuoteMeta(p[1..]);
      FirstPass(p[1..]);
      assert rest == "" || rest[0] != '*';
      assert "\\*" == [BACKSLASH, '*'];
      if p[0] == '*' {
        ReplaceHit(rest, '*', ".*");
      } else if IsMeta(p[0]) {
        ReplaceMissBoth(BACKSLASH, p[0], rest, '*', ".*");
      } else {
        ReplaceMiss(p[0], rest, '*', ".*");
      }
    }
  }

  lemma SecondPassStep(c: char, rest: string)
    requires rest == "" || rest[0] != '?'
    ensures ReplaceAll(StarDone(c) + rest, [BACKSLASH, '?'], ".")
         == (if c == '?' then "." else StarDone(c)) + ReplaceAll(rest, [BACKSLASH, '?'], ".")
  {
    if c == '?' {
      ReplaceHit(rest, '?', ".");
    } else if c == '*' {
      ReplaceMissBoth('.', '*', rest, '?', ".");
    } else if IsMeta(c) {
      ReplaceMissBoth(BACKSLASH, c, rest, '?', ".");
    } else {
      ReplaceMiss(c, rest, '?', ".");
    }
  }

  lemma {:induction false} SecondPass(p: string)
    ensures ReplaceAll(StarsDone(p), [BACKSLASH, '?'], ".") == BothDone(p)
  {
    if p == "" {
    } else {
      SecondPass(p[1..]);
      SecondPassStep(p[0], StarsDone(p[1..]));
    }
  }

  // ---------------------------------------------------------------- reading the result back

  function ItemOf(c: char): Item {
    if c == '*' then Star(AnyChar) else if c == '?' then One(AnyChar) else One(Lit(c))
  }

  function ItemsOf(p: string): seq<Item> {
    if p == "" then [] else [ItemOf(p[0])] + ItemsOf(p[1..])
  }

  lemma {:induction false} ReadsBack(p: string)
    ensures ReadItems(BothDone(p)) == Some(ItemsOf(p))
  {
    if p == "" {
    } else {
      var c, rest := p[0], BothDone(p[1..]);
      ReadsBack(p[1..]);
      assert rest == "" || rest[0] !in {'*', '?', '+', '{'};
      var text := BothDone(p);
      if c == '*' {
        assert text[1..][1..] == rest;
      } else if c != '?' && IsMeta(c) {
        assert text[2..] == rest;
      } else {
        assert text[1..] == rest;
      }
    }
  }

  lemma Compiles(p: string)
    ensures Compile(RegexText(p)) == Some(ItemsOf(p))
  {
    FirstPass(p);
    SecondPass(p);
    ReadsBack(p);
    var text := RegexText(p);
    assert text == "^" + BothDone(p) + "$";
    assert text[1..|text| - 1] == BothDone(p);
  }

  lemma {:induction false} ItemsMeanGlob(p: string, s: string)
    ensures Accepts(ItemsOf(p), s) == GlobAccepts(p, s, {NEWLINE})
    decreases |p|
  {
    if p == "" {
    } else {
      var items, rest := ItemsOf(p), ItemsOf(p[1..]);
      assert items[1..] == rest;
      forall k | 0 <= k <= |s|
        ensures Accepts(rest, s[k..]) == GlobAccepts(p[1..], s[k..], {NEWLINE})
      {
        ItemsMeanGlob(p[1..], s[k..]);
      }
      if p[0] == '*' {
        assert forall k :: 0 <= k <= |s| ==>
          ((forall c :: c in s[..k] ==> AtomAccepts(AnyChar, c)) <==> Avoids(s[..k], {NEWLINE}));
      }
    }
  }

  // ---------------------------------------------------------------- main results

  /** For every pattern and every string: the compiled text accepts exactly what the glob
      accepts when wildcards do not cover a newline. */
  lemma MatchIsGlob(p: string, s: string)
    ensures MatchPattern(p, s) == GlobAccepts(p, s, {NEWLINE})
  {
    Compiles(p);
    ItemsMeanGlob(p, s);
  }

  lemma {:induction false} ExclusionIdle(p: string, s: string)
    requires NEWLINE !in s
    ensures GlobAccepts(p, s, {NEWLINE}) == GlobAccepts(p, s, {})
    decreases |p|
  {
    if p == "" {
    } else {
      forall k | 0 <= k <= |s|
        ensures GlobAccepts(p[1..], s[k..], {NEWLINE}) == GlobAccepts(p[1..], s[k..], {})
      {
        ExclusionIdle(p[1..], s[k..]);
      }
      assert forall k :: 0 <= k <= |s| ==> Avoids(s[..k], {NEWLINE}) == Avoids(s[..k], {});
    }
  }

  /** On newline-free strings the match is the plain glob. */
  lemma MatchIsPlainGlob(p: string, s: string)
    requires NEWLINE !in s
    ensures MatchPattern(p, s) == GlobAccepts(p, s, {})
  {
    MatchIsGlob(p, s);
    ExclusionIdle(p, s);
  }

  // ---------------------------------------------------------------- strings with newlines

  predicate HasWildcard(p: string) {
    '*' in p || '?' in p
  }

  function Newlines(s: string): nat {
    if s == "" then 0 else (if s[0] == NEWLINE then 1 else 0) + Newlines(s[1..])
  }

  lemma {:induction false} NewlinesDrop(s: string, k: nat)
    requires k <= |s|
    requires NEWLINE !in s[..k]
    ensures Newlines(s[k..]) == Newlines(s)
  {
    if k == 0 {
    } else {
      assert s[0] in s[..k];
      assert s[1..][..k - 1] == s[..k][1..];
      assert s[1..][k - 1..] == s[k..];
      NewlinesDrop(s[1..], k - 1);
    }
  }

  lemma {:induction false} AcceptedNewlinesAreLiteral(p: string, s: string)
    requires GlobAccepts(p, s, {NEWLINE})
    ensures Newlines(s) == Newlines(p)
    decreases |p|
  {
    if p == "" {
    } else {
      if p[0] == '*' {
        var k :| 0 <= k <= |s| && Avoids(s[..k], {NEWLINE}) && GlobAccepts(p[1..], s[k..], {NEWLINE});
        AcceptedNewlinesAreLiteral(p[1..], s[k..]);
        NewlinesDrop(s, k);
      } else {
        AcceptedNewlinesAreLiteral(p[1..], s[1..]);
      }
    }
  }

  /** The pattern with a newline in place of every wildcard. */
  function NewlineWitness(p: string): string {
    if p == "" then "" else [if p[0] in {'*', '?'} then NEWLINE else p[0]] + NewlineWitness(p[1..])
  }

  lemma {:induction false} WitnessFacts(p: string)
    ensures GlobAccepts(p, NewlineWitness(p), {})
    ensures Newlines(NewlineWitness(p)) >= Newlines(p)
    ensures HasWildcard(p) ==> Newlines(NewlineWitness(p)) > Newlines(p)
  {
    if p == "" {
    } else {
      WitnessFacts(p[1..]);
      var w := NewlineWitness(p);
      assert w[1..] == NewlineWitness(p[1..]);
      assert p == [p[0]] + p[1..];
      if p[0] == '*' {
        assert 0 <= 1 <= |w| && Avoids(w[..1], {}) && GlobAccepts(p[1..], w[1..], {});
      }
    }
  }

  lemma {:induction false} NoWildcardIsLiteral(p: string, s: string, excluded: set<char>)
    requires !HasWildcard(p)
    ensures GlobAccepts(p, s, excluded) == (p == s)
  {
    if p == "" {
    } else {
      assert p[0] in p;
      assert forall c :: c in p[1..] ==> c in p;
      if s != "" {
        NoWildcardIsLiteral(p[1..], s[1..], excluded);
        assert p == [p[0]] + p[1..] && s == [s[0]] + s[1..];
      }
    }
  }

  /** The match agrees with the plain glob on every string, newlines included, if and only if
      the pattern holds no wildcard. */
  lemma AgreesEverywhereIffLiteral(p: string)
    ensures (forall s :: MatchPattern(p, s) == GlobAccepts(p, s, {})) <==> !HasWildcard(p)
  {
    if HasWildcard(p) {
      var s := NewlineWitness(p);
      WitnessFacts(p);
      MatchIsGlob(p, s);
      if GlobAccepts(p, s, {NEWLINE}) {
        AcceptedNewlinesAreLiteral(p, s);
      }
      assert MatchPattern(p, s) != GlobAccepts(p, s, {});
    } else {
      forall s ensures MatchPattern(p, s) == GlobAccepts(p, s, {}) {
        MatchIsGlob(p, s);
        NoWildcardIsLiteral(p, s, {});
        NoWildcardIsLiteral(p, s, {NEWLINE});
      }
    }
  }

  /** The scan of an allowlist: some pattern of the list accepts the text. */
  method AnyPatternMatches(patterns: seq<string>, s: string) returns (matched: bool)
    ensures matched <==> exists i :: 0 <= i < |patterns| && GlobAccepts(patterns[i], s, {NEWLINE})
  {
    for i := 0 to |patterns|
      invariant forall j :: 0 <= j < i ==> !GlobAccepts(patterns[j], s, {NEWLINE})
    {
      MatchIsGlob(patterns[i], s);
      if MatchPattern(patterns[i], s) {
        return true;
      }
    }
    return false;
  }
}
