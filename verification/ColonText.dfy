/** Texts made of parts with colons between them (internal/authz/fixture_distribution.go). */
module ColonText {

  import opened Text

  function Joined(parts: seq<string>): string
    requires parts != []
  {
    if |parts| == 1 then parts[0] else parts[0] + ":" + Joined(parts[1..])
  }

  function Colons(s: string): nat {
    multiset(s)[':']
  }

  ghost predicate AllColonless(parts: seq<string>) {
    forall i :: 0 <= i < |parts| ==> Colons(parts[i]) == 0
  }

  lemma ColonlessAt(s: string, i: nat)
    requires Colons(s) == 0 && i < |s|
    ensures s[i] != ':'
  {
    assert s[i] in multiset(s);
  }

  lemma ColonlessIff(s: string)
    ensures Colons(s) == 0 <==> forall i :: 0 <= i < |s| ==> s[i] != ':'
  {
    if Colons(s) == 0 {
      forall i | 0 <= i < |s| ensures s[i] != ':' {
        ColonlessAt(s, i);
      }
    } else {
      assert ':' in multiset(s);
    }
  }

  lemma ColonsBetween(a: string, b: string)
    ensures Colons(a + ":" + b) == Colons(a) + 1 + Colons(b)
  {
    assert multiset(a + ":" + b) == multiset(a) + multiset(":") + multiset(b);
  }

  /** The colons of a text are those between its parts and those inside them. */
  lemma {:induction false} ColonsJoined(parts: seq<string>)
    requires parts != []
    ensures Colons(Joined(parts)) >= |parts| - 1
    ensures Colons(Joined(parts)) == |parts| - 1 <==> AllColonless(parts)
  {
    if |parts| == 1 {
    } else {
      ColonsJoined(parts[1..]);
      ColonsBetween(parts[0], Joined(parts[1..]));
      AllColonlessCons(parts);
    }
  }

  lemma AllColonlessCons(parts: seq<string>)
    requires parts != []
    ensures AllColonless(parts) <==> Colons(parts[0]) == 0 && AllColonless(parts[1..])
  {
    assert parts == [parts[0]] + parts[1..];
  }

  lemma FirstPart(parts: seq<string>)
    requires |parts| > 1 && Colons(parts[0]) == 0
    ensures Find(Joined(parts), ':') == |parts[0]| < |Joined(parts)|
    ensures Joined(parts)[..|parts[0]|] == parts[0] && Joined(parts)[|parts[0]| + 1..] == Joined(parts[1..])
  {
    ColonlessIff(parts[0]);
    FindPrefix(parts[0], ':', Joined(parts[1..]));
  }

  lemma {:induction false} ColonlessDetermined(a: seq<string>, b: seq<string>)
    requires |a| == |b| > 0 && AllColonless(a) && AllColonless(b) && Joined(a) == Joined(b)
    ensures a == b
  {
    if |a| == 1 {
    } else {
      FirstPart(a);
      FirstPart(b);
      AllColonlessCons(a);
      AllColonlessCons(b);
      ColonlessDetermined(a[1..], b[1..]);
      assert a == [a[0]] + a[1..] && b == [b[0]] + b[1..];
    }
  }

  /** Parts without colons are determined by their text among all lists of as many parts. */
  lemma JoinedDetermines(a: seq<string>, b: seq<string>)
    requires |a| == |b| > 0 && AllColonless(a) && Joined(a) == Joined(b)
    ensures a == b
  {
    ColonsJoined(a);
    ColonsJoined(b);
    ColonlessDetermined(a, b);
  }

  lemma {:induction false} JoinedAppend(a: seq<string>, b: seq<string>)
    requires a != [] && b != []
    ensures Joined(a + b) == Joined(a) + ":" + Joined(b)
  {
    if |a| == 1 {
      assert (a + b)[1..] == b;
    } else {
      JoinedAppend(a[1..], b);
      assert (a + b)[1..] == a[1..] + b;
    }
  }

  /** A part in the middle can be read off. */
  lemma JoinedPart(before: seq<string>, x: string, y: string, after: seq<string>)
    requires before != []
    ensures Joined(before + [x] + after) == Joined(before + [y] + after) <==> x == y
  {
    JoinedAround(before, x, after);
    JoinedAround(before, y, after);
    var p, s := Joined(before) + ":", if after == [] then "" else ":" + Joined(after);
    if p + x + s == p + y + s {
      assert |x| == |y|;
      assert x == (p + x + s)[|p|..|p| + |x|] && y == (p + y + s)[|p|..|p| + |y|];
    }
  }

  lemma JoinedAround(before: seq<string>, x: string, after: seq<string>)
    requires before != []
    ensures Joined(before + [x] + after)
         == Joined(before) + ":" + x + (if after == [] then "" else ":" + Joined(after))
  {
    JoinedAppend(before, [x]);
    if after == [] {
      assert before + [x] + after == before + [x];
    } else {
      JoinedAppend(before + [x], after);
    }
  }

  /** Two neighbouring parts may exchange text at a colon. */
  lemma PairText(before: seq<string>, u: string, v: string, x: string, y: string, after: seq<string>)
    requires before != [] && after != [] && u + ":" + v == x + ":" + y
    ensures Joined(before + [u, v] + after) == Joined(before + [x, y] + after)
  {
    PairIs(u, v);
    PairIs(x, y);
    JoinedAppend(before, [u, v]);
    JoinedAppend(before, [x, y]);
    JoinedAppend(before + [u, v], after);
    JoinedAppend(before + [x, y], after);
  }

  lemma PairIs(u: string, v: string)
    ensures Joined([u, v]) == u + ":" + v
  {
    assert [u, v][1..] == [v];
  }

  lemma SplitAtColon(s: string) returns (x: string, y: string)
    requires Colons(s) > 0
    ensures s == x + ":" + y
  {
    var i :| 0 <= i < |s| && s[i] == ':';
    x, y := s[..i], s[i + 1..];
  }

  /** A tail with fewer colons than another is not longer. */
  lemma TailDetermined(x: string, s: string, y: string, t: string)
    requires x + ":" + s == y + ":" + t && Colons(s) == Colons(t)
    ensures x == y && s == t
  {
    if |s| < |t| {
      LongerTail(x, s, y, t);
    } else if |t| < |s| {
      LongerTail(y, t, x, s);
    } else {
      var text := x + ":" + s;
      assert x == text[..|x|] && y == text[..|x|] && s == text[|x| + 1..] && t == text[|x| + 1..];
    }
  }

  lemma LongerTail(x: string, s: string, y: string, t: string)
    requires x + ":" + s == y + ":" + t && |s| < |t|
    ensures Colons(t) > Colons(s)
  {
    var text, k := x + ":" + s, |t| - |s| - 1;
    assert t == text[|y| + 1..] && ":" + s == text[|x|..];
    assert t == t[..k] + ":" + s;
    ColonsBetween(t[..k], s);
  }

  lemma {:induction false} PrefixDetermined(p: seq<string>, x: string, q: seq<string>, y: string)
    requires |p| == |q| && AllColonless(p) && AllColonless(q) && Joined(p + [x]) == Joined(q + [y])
    ensures p == q && x == y
  {
    if |p| == 0 {
      assert p + [x] == [x] && q + [y] == [y];
    } else {
      var a, b := p + [x], q + [y];
      FirstPart(a);
      FirstPart(b);
      assert a[1..] == p[1..] + [x] && b[1..] == q[1..] + [y];
      PrefixDetermined(p[1..], x, q[1..], y);
      assert p == [p[0]] + p[1..] && q == [q[0]] + q[1..];
    }
  }

  /** One part may hold colons: the parts before it and after it tell where it starts and ends. */
  lemma MiddleDetermined(p: seq<string>, x: string, s: seq<string>, q: seq<string>, y: string, t: seq<string>)
    requires |p| == |q| > 0 && |s| == |t|
    requires AllColonless(p) && AllColonless(q) && AllColonless(s) && AllColonless(t)
    requires Joined(p + [x] + s) == Joined(q + [y] + t)
    ensures p == q && x == y && s == t
  {
    if |s| == 0 {
      assert p + [x] + s == p + [x] && q + [y] + t == q + [y];
      PrefixDetermined(p, x, q, y);
    } else {
      var m, n := x + ":" + Joined(s), y + ":" + Joined(t);
      Tailed(p, x, s);
      Tailed(q, y, t);
      PrefixDetermined(p, m, q, n);
      ColonsJoined(s);
      ColonsJoined(t);
      TailDetermined(x, Joined(s), y, Joined(t));
      ColonlessDetermined(s, t);
    }
  }

  lemma Tailed(p: seq<string>, x: string, s: seq<string>)
    requires p != [] && s != []
    ensures Joined(p + [x] + s) == Joined(p + [x + ":" + Joined(s)])
  {
    var tail := x + ":" + Joined(s);
    JoinedAround(p, x, s);
    JoinedAppend(p, [tail]);
    assert Joined(p) + ":" + x + (":" + Joined(s)) == Joined(p) + ":" + tail;
  }

  lemma DecimalColonless(n: int)
    ensures Colons(Decimal(n)) == 0
  {
    DecimalDigits(n);
    ColonlessIff(Decimal(n));
  }

  lemma DecimalDigits(n: int)
    ensures forall i :: 0 <= i < |Decimal(n)| ==> Decimal(n)[i] != ':'
  {
    if n < 0 {
      DigitsAreDigits(-n);
    } else {
      DigitsAreDigits(n);
    }
  }

  lemma DigitsAreDigits(n: nat)
    ensures AllDigits(Digits(n))
  {
    DigitsValue(n);
  }
}
