/** The shape shared by every normaliser of the policy pipeline: normalise each element, keep
    the first one per key, refuse elements that share a key but disagree, and sort what was
    kept.  What is kept passes through a map whose iteration order is arbitrary. */
module Normalization {

  import opened Wrappers
  import opened Sorting

  /** How one kind of element is normalised.  `agree` is the test applied to an element whose
      key is taken; `less` is the order of the result. */
  datatype Scheme<!T> = Scheme(
    norm: T -> Option<T>,
    key: T -> string,
    agree: (T, T) -> bool,
    less: (T, T) -> bool)

  datatype Outcome<+T> = Normal(items: seq<T>) | InvalidElement | ConflictingElement

  ghost predicate Lawful<T(!new)>(sch: Scheme<T>) {
    && StrictOrder(sch.less)
    && (forall x, y :: sch.key(x) != sch.key(y) ==> sch.less(x, y) || sch.less(y, x))
    && (forall x :: sch.agree(x, x))
    && (forall x, y :: sch.agree(x, y) ==> sch.agree(y, x))
    && (forall x, y, z :: sch.agree(x, y) && sch.agree(y, z) ==> sch.agree(x, z))
  }

  // ---------------------------------------------------------------- reference definition

  function Lookup<T>(key: T -> string, items: seq<T>, k: string): Option<T> {
    if items == [] then None
    else if key(items[0]) == k then Some(items[0])
    else Lookup(key, items[1..], k)
  }

  /** The elements kept, in order of first appearance. */
  function Kept<T>(sch: Scheme<T>, input: seq<T>): Outcome<T> {
    if input == [] then Normal([])
    else
      var before := Kept(sch, input[..|input| - 1]);
      if !before.Normal? then before
      else
        match sch.norm(input[|input| - 1])
        case None => InvalidElement
        case Some(n) =>
          match Lookup(sch.key, before.items, sch.key(n))
          case None => Normal(before.items + [n])
          case Some(existing) => if sch.agree(existing, n) then before else ConflictingElement
  }

  function NormalForm<T>(sch: Scheme<T>, input: seq<T>): Outcome<T> {
    match Kept(sch, input)
    case Normal(items) => Normal(SortBy(sch.less, items))
    case InvalidElement => InvalidElement
    case ConflictingElement => ConflictingElement
  }

  // ---------------------------------------------------------------- the code

  ghost predicate UniqueKeys<T>(key: T -> string, items: seq<T>) {
    forall i, j :: 0 <= i < j < |items| ==> key(items[i]) != key(items[j])
  }

  /** `seen` holds exactly the given elements under their keys. */
  ghost predicate Indexes<T>(key: T -> string, seen: map<string, T>, items: seq<T>) {
    && (forall x :: x in items ==> key(x) in seen && seen[key(x)] == x)
    && (forall k :: k in seen ==> seen[k] in items && key(seen[k]) == k)
  }

  method Normalize<T(!new)>(sch: Scheme<T>, input: seq<T>) returns (r: Outcome<T>)
    requires Lawful(sch)
    ensures r == NormalForm(sch, input)
  {
    var seen: map<string, T> := map[];
    ghost var kept := [];
    for i := 0 to |input|
      invariant Kept(sch, input[..i]) == Normal(kept)
      invariant Indexes(sch.key, seen, kept) && UniqueKeys(sch.key, kept)
    {
      assert input[..i + 1][..i] == input[..i];
      KeptPrefix(sch, input, i + 1);
      var normalized := sch.norm(input[i]);
      if normalized.None? {
        return InvalidElement;
      }
      var n := normalized.value;
      LookupFinds(sch.key, kept, sch.key(n));
      if sch.key(n) in seen {
        LookupIs(sch.key, kept, seen[sch.key(n)]);
        if !sch.agree(seen[sch.key(n)], n) {
          return ConflictingElement;
        }
      } else {
        seen := seen[sch.key(n) := n];
        kept := kept + [n];
      }
    }
    assert input[..|input|] == input;
    var out := [];
    var rest := seen.Keys;
    while rest != {}
      invariant rest <= seen.Keys
      invariant forall x :: x in out ==> sch.key(x) in seen && sch.key(x) !in rest && seen[sch.key(x)] == x
      invariant forall k :: k in seen && k !in rest ==> seen[k] in out
      invariant UniqueKeys(sch.key, out)
      decreases rest
    {
      var k :| k in rest;
      assert forall i :: 0 <= i < |out| ==> out[i] in out;
      out, rest := out + [seen[k]], rest - {k};
    }
    assert forall x :: x in kept ==> sch.key(x) in seen && seen[sch.key(x)] == x;
    UniqueComparable(sch, kept);
    UniqueComparable(sch, out);
    SortErasesOrder(sch.less, out, kept);
    r := Normal(SortBy(sch.less, out));
  }

  /** A failure found in a prefix is the failure of the whole input. */
  lemma {:induction false} KeptPrefix<T>(sch: Scheme<T>, input: seq<T>, i: nat)
    requires i <= |input|
    ensures !Kept(sch, input[..i]).Normal? ==> Kept(sch, input) == Kept(sch, input[..i])
    decreases |input|
  {
    if i == |input| {
      assert input[..i] == input;
    } else {
      var init := input[..|input| - 1];
      KeptPrefix(sch, init, i);
      assert init[..i] == input[..i];
    }
  }

  lemma {:induction false} LookupFinds<T>(key: T -> string, items: seq<T>, k: string)
    ensures var r := Lookup(key, items, k);
      && (r.Some? ==> r.value in items && key(r.value) == k)
      && (r.None? ==> forall x :: x in items ==> key(x) != k)
  {
    if items == [] {
    } else {
      LookupFinds(key, items[1..], k);
      assert items == [items[0]] + items[1..];
    }
  }

  lemma LookupIs<T>(key: T -> string, items: seq<T>, x: T)
    requires UniqueKeys(key, items) && x in items
    ensures Lookup(key, items, key(x)) == Some(x)
  {
    LookupFinds(key, items, key(x));
  }

  lemma UniqueComparable<T(!new)>(sch: Scheme<T>, items: seq<T>)
    requires Lawful(sch) && UniqueKeys(sch.key, items)
    ensures Comparable(sch.less, items)
  {
  }

  // ---------------------------------------------------------------- when it succeeds

  ghost predicate AllValid<T>(sch: Scheme<T>, input: seq<T>) {
    forall x :: x in input ==> sch.norm(x).Some?
  }

  ghost predicate NoConflict<T>(sch: Scheme<T>, input: seq<T>) {
    forall x, y :: x in input && y in input && sch.norm(x).Some? && sch.norm(y).Some?
      && sch.key(sch.norm(x).value) == sch.key(sch.norm(y).value)
      ==> sch.agree(sch.norm(x).value, sch.norm(y).value)
  }

  ghost predicate HasRepresentative<T>(sch: Scheme<T>, items: seq<T>, n: T) {
    exists m :: m in items && sch.key(m) == sch.key(n) && sch.agree(m, n)
  }

  /** What the kept elements are: one representative, an input's normal form, for every key of
      the input, and every input agrees with the representative of its key. */
  ghost predicate Represents<T>(sch: Scheme<T>, items: seq<T>, input: seq<T>) {
    && UniqueKeys(sch.key, items)
    && (forall n :: n in items ==> exists x :: x in input && sch.norm(x) == Some(n))
    && AllValid(sch, input)
    && (forall x :: x in input ==> HasRepresentative(sch, items, sch.norm(x).value))
  }

  /** How one more element changes what is kept. */
  lemma KeptNext<T>(sch: Scheme<T>, input: seq<T>, x: T)
    requires Kept(sch, input).Normal?
    ensures var items := Kept(sch, input).items;
      match sch.norm(x)
      case None => Kept(sch, input + [x]) == InvalidElement
      case Some(n) =>
        && (Lookup(sch.key, items, sch.key(n)).None? ==> Kept(sch, input + [x]) == Normal(items + [n]))
        && (Lookup(sch.key, items, sch.key(n)).Some? ==>
             Kept(sch, input + [x]) ==
               if sch.agree(Lookup(sch.key, items, sch.key(n)).value, n) then Normal(items) else ConflictingElement)
  {
    assert (input + [x])[..|input|] == input;
  }

  lemma MoreRepresented<T>(sch: Scheme<T>, items: seq<T>, n: T, m: T)
    requires HasRepresentative(sch, items, m)
    ensures HasRepresentative(sch, items + [n], m)
  {
    var r :| r in items && sch.key(r) == sch.key(m) && sch.agree(r, m);
    assert r in items + [n];
  }

  lemma RepresentsNew<T(!new)>(sch: Scheme<T>, items: seq<T>, input: seq<T>, x: T, n: T)
    requires Lawful(sch) && Represents(sch, items, input) && sch.norm(x) == Some(n)
    requires forall m :: m in items ==> sch.key(m) != sch.key(n)
    ensures Represents(sch, items + [n], input + [x])
  {
    assert n in items + [n];
    forall y | y in input + [x] ensures sch.norm(y).Some? && HasRepresentative(sch, items + [n], sch.norm(y).value) {
      if y in input {
        MoreRepresented(sch, items, n, sch.norm(y).value);
      }
    }
    forall m | m in items + [n] ensures exists y :: y in input + [x] && sch.norm(y) == Some(m) {
      if m in items {
        var y :| y in input && sch.norm(y) == Some(m);
        assert y in input + [x];
      } else {
        assert x in input + [x];
      }
    }
  }

  lemma RepresentsAgain<T(!new)>(sch: Scheme<T>, items: seq<T>, input: seq<T>, x: T, n: T)
    requires Represents(sch, items, input) && sch.norm(x) == Some(n) && HasRepresentative(sch, items, n)
    ensures Represents(sch, items, input + [x])
  {
    forall m | m in items ensures exists y :: y in input + [x] && sch.norm(y) == Some(m) {
      var y :| y in input && sch.norm(y) == Some(m);
      assert y in input + [x];
    }
    forall y | y in input + [x] ensures sch.norm(y).Some? && HasRepresentative(sch, items, sch.norm(y).value) {
    }
  }

  lemma {:induction false} KeptRepresents<T(!new)>(sch: Scheme<T>, input: seq<T>)
    requires Lawful(sch) && Kept(sch, input).Normal?
    ensures Represents(sch, Kept(sch, input).items, input)
  {
    if input == [] {
    } else {
      var init, last := input[..|input| - 1], input[|input| - 1];
      KeptRepresents(sch, init);
      assert input == init + [last];
      KeptNext(sch, init, last);
      var n, items := sch.norm(last).value, Kept(sch, init).items;
      LookupFinds(sch.key, items, sch.key(n));
      if Lookup(sch.key, items, sch.key(n)).None? {
        RepresentsNew(sch, items, init, last, n);
      } else {
        RepresentsAgain(sch, items, init, last, n);
      }
    }
  }

  lemma RepresentedAgree<T(!new)>(sch: Scheme<T>, items: seq<T>, input: seq<T>)
    requires Lawful(sch) && Represents(sch, items, input)
    ensures NoConflict(sch, input)
  {
    forall x, y | x in input && y in input && sch.key(sch.norm(x).value) == sch.key(sch.norm(y).value)
      ensures sch.agree(sch.norm(x).value, sch.norm(y).value)
    {
      RepresentativesAgree(sch, items, sch.norm(x).value, sch.norm(y).value);
    }
  }

  lemma RepresentativesAgree<T(!new)>(sch: Scheme<T>, items: seq<T>, n: T, m: T)
    requires Lawful(sch) && UniqueKeys(sch.key, items)
    requires HasRepresentative(sch, items, n) && HasRepresentative(sch, items, m)
    requires sch.key(n) == sch.key(m)
    ensures sch.agree(n, m)
  {
    var v :| v in items && sch.key(v) == sch.key(n) && sch.agree(v, n);
    var w :| w in items && sch.key(w) == sch.key(m) && sch.agree(w, m);
    assert v == w;
  }

  lemma {:induction false} ValidIsKept<T(!new)>(sch: Scheme<T>, input: seq<T>)
    requires Lawful(sch) && AllValid(sch, input) && NoConflict(sch, input)
    ensures Kept(sch, input).Normal?
  {
    if input == [] {
    } else {
      var init, last := input[..|input| - 1], input[|input| - 1];
      assert forall x :: x in init ==> x in input;
      ValidIsKept(sch, init);
      KeptRepresents(sch, init);
      LookupFinds(sch.key, Kept(sch, init).items, sch.key(sch.norm(last).value));
    }
  }

  lemma KeptIff<T(!new)>(sch: Scheme<T>, input: seq<T>)
    requires Lawful(sch)
    ensures Kept(sch, input).Normal? <==> AllValid(sch, input) && NoConflict(sch, input)
  {
    if Kept(sch, input).Normal? {
      KeptRepresents(sch, input);
      RepresentedAgree(sch, Kept(sch, input).items, input);
    }
    if AllValid(sch, input) && NoConflict(sch, input) {
      ValidIsKept(sch, input);
    }
  }

  /** Success does not depend on order: it means that every element is valid and that no two
      elements share a key and disagree.  On success the result is sorted and holds one
      representative of every key. */
  lemma NormalFormMeaning<T(!new)>(sch: Scheme<T>, input: seq<T>)
    requires Lawful(sch)
    ensures NormalForm(sch, input).Normal? <==> AllValid(sch, input) && NoConflict(sch, input)
    ensures NormalForm(sch, input).Normal? ==>
      && Sorted(sch.less, NormalForm(sch, input).items)
      && Represents(sch, NormalForm(sch, input).items, input)
  {
    KeptIff(sch, input);
    var kept := Kept(sch, input);
    if kept.Normal? {
      KeptRepresents(sch, input);
      var items := SortBy(sch.less, kept.items);
      UniqueComparable(sch, kept.items);
      SortSorted(sch.less, kept.items);
      SortMultiset(sch.less, kept.items);
      SameElements(items, kept.items);
      SortedKeysUnique(sch, kept.items);
    }
  }

  lemma SortedKeysUnique<T(!new)>(sch: Scheme<T>, kept: seq<T>)
    requires Lawful(sch) && UniqueKeys(sch.key, kept)
    ensures UniqueKeys(sch.key, SortBy(sch.less, kept))
  {
    var items := SortBy(sch.less, kept);
    UniqueComparable(sch, kept);
    SortSorted(sch.less, kept);
    SortMultiset(sch.less, kept);
    SameElements(items, kept);
    forall i, j | 0 <= i < j < |items|
      ensures sch.key(items[i]) != sch.key(items[j])
    {
      assert items[i] in kept && items[j] in kept;
      assert sch.less(items[i], items[j]);
    }
  }

  // ---------------------------------------------------------------- order and duplication

  /** `n` is the normal form of something. */
  ghost predicate IsNormal<T(!new)>(sch: Scheme<T>, n: T) {
    exists x :: sch.norm(x) == Some(n)
  }

  /** Normal forms that share a key and agree are the same element. */
  ghost predicate Separating<T(!new)>(sch: Scheme<T>) {
    forall x, y :: IsNormal(sch, x) && IsNormal(sch, y) && sch.key(x) == sch.key(y) && sch.agree(x, y) ==> x == y
  }

  /** The normal forms of the input, invalid elements included as `None`. */
  ghost function Norms<T>(sch: Scheme<T>, input: seq<T>): set<Option<T>> {
    set x | x in input :: sch.norm(x)
  }

  lemma ItemsAreNorms<T(!new)>(sch: Scheme<T>, input: seq<T>)
    requires Lawful(sch) && Separating(sch) && NormalForm(sch, input).Normal?
    ensures forall n :: n in NormalForm(sch, input).items <==> Some(n) in Norms(sch, input)
  {
    NormalFormMeaning(sch, input);
    var items := NormalForm(sch, input).items;
    forall n ensures n in items <==> Some(n) in Norms(sch, input) {
      if Some(n) in Norms(sch, input) {
        var x :| x in input && sch.norm(x) == Some(n);
        assert IsNormal(sch, n);
        assert HasRepresentative(sch, items, n);
        var m :| m in items && sch.key(m) == sch.key(n) && sch.agree(m, n);
        assert IsNormal(sch, m);
      }
    }
  }

  /** Every element is valid, and elements with one key are one element. */
  ghost predicate OnePerKey<T>(sch: Scheme<T>, norms: set<Option<T>>) {
    && None !in norms
    && forall x, y :: x in norms && y in norms && sch.key(x.value) == sch.key(y.value) ==> x == y
  }

  lemma SameNorm<T(!new)>(sch: Scheme<T>, input: seq<T>, x: Option<T>, y: Option<T>)
    requires Separating(sch) && AllValid(sch, input) && NoConflict(sch, input)
    requires x in Norms(sch, input) && y in Norms(sch, input)
    ensures x.Some? && y.Some? && (sch.key(x.value) == sch.key(y.value) ==> x == y)
  {
    var d :| d in input && sch.norm(d) == x;
    var e :| e in input && sch.norm(e) == y;
    assert x.Some? && y.Some?;
    assert IsNormal(sch, x.value) && IsNormal(sch, y.value);
  }

  lemma OneNormAgrees<T(!new)>(sch: Scheme<T>, input: seq<T>)
    requires Lawful(sch) && OnePerKey(sch, Norms(sch, input))
    ensures AllValid(sch, input) && NoConflict(sch, input)
  {
    forall x | x in input ensures sch.norm(x) in Norms(sch, input) {}
    forall x, y | x in input && y in input && sch.key(sch.norm(x).value) == sch.key(sch.norm(y).value)
      ensures sch.agree(sch.norm(x).value, sch.norm(y).value)
    {
      assert sch.norm(x) == sch.norm(y);
    }
  }

  /** Success depends only on the set of normal forms. */
  lemma SucceedsIff<T(!new)>(sch: Scheme<T>, input: seq<T>)
    requires Lawful(sch) && Separating(sch)
    ensures NormalForm(sch, input).Normal? <==> OnePerKey(sch, Norms(sch, input))
  {
    var norms := Norms(sch, input);
    NormalFormMeaning(sch, input);
    if NormalForm(sch, input).Normal? {
      forall x, y | x in norms && y in norms
        ensures x.Some? && y.Some? && (sch.key(x.value) == sch.key(y.value) ==> x == y)
      {
        SameNorm(sch, input, x, y);
      }
    }
    if OnePerKey(sch, norms) {
      OneNormAgrees(sch, input);
    }
  }

  /** Two inputs with the same set of normal forms, in whatever order and however often each
      occurs, both fail or give one and the same list. */
  lemma OrderIrrelevant<T(!new)>(sch: Scheme<T>, a: seq<T>, b: seq<T>)
    requires Lawful(sch) && Separating(sch)
    requires Norms(sch, a) == Norms(sch, b)
    ensures NormalForm(sch, a).Normal? == NormalForm(sch, b).Normal?
    ensures NormalForm(sch, a).Normal? ==> NormalForm(sch, a) == NormalForm(sch, b)
  {
    NormalFormMeaning(sch, a);
    NormalFormMeaning(sch, b);
    ValidityTransfers(sch, a, b);
    ValidityTransfers(sch, b, a);
    if NormalForm(sch, a).Normal? {
      ItemsAreNorms(sch, a);
      ItemsAreNorms(sch, b);
      SortedUnique(sch.less, NormalForm(sch, a).items, NormalForm(sch, b).items);
    }
  }

  lemma ValidityTransfers<T(!new)>(sch: Scheme<T>, a: seq<T>, b: seq<T>)
    requires Norms(sch, b) <= Norms(sch, a)
    ensures AllValid(sch, a) && NoConflict(sch, a) ==> AllValid(sch, b) && NoConflict(sch, b)
  {
    forall y | y in b ensures exists x :: x in a && sch.norm(x) == sch.norm(y) {
      assert sch.norm(y) in Norms(sch, b);
    }
    if AllValid(sch, a) && NoConflict(sch, a) {
      forall y | y in b ensures sch.norm(y).Some? {
        var x :| x in a && sch.norm(x) == sch.norm(y);
      }
      forall y, z | y in b && z in b && sch.key(sch.norm(y).value) == sch.key(sch.norm(z).value)
        ensures sch.agree(sch.norm(y).value, sch.norm(z).value)
      {
        var x :| x in a && sch.norm(x) == sch.norm(y);
        var w :| w in a && sch.norm(w) == sch.norm(z);
      }
    }
  }

  /** Elements of the input whose normal forms share a key have the same normal form. */
  ghost predicate OneNormalFormPerKey<T>(sch: Scheme<T>, input: seq<T>) {
    forall x, y :: x in input && y in input && sch.norm(x).Some? && sch.norm(y).Some?
      && sch.key(sch.norm(x).value) == sch.key(sch.norm(y).value)
      ==> sch.norm(x) == sch.norm(y)
  }

  /** Without a separating test, order is still irrelevant to inputs that hold one normal form for
      each key. */
  lemma PermutationIrrelevant<T(!new)>(sch: Scheme<T>, a: seq<T>, b: seq<T>)
    requires Lawful(sch) && OneNormalFormPerKey(sch, a)
    requires forall x :: x in a <==> x in b
    ensures NormalForm(sch, a).Normal? == NormalForm(sch, b).Normal?
    ensures NormalForm(sch, a).Normal? ==> NormalForm(sch, a) == NormalForm(sch, b)
  {
    NormalFormMeaning(sch, a);
    NormalFormMeaning(sch, b);
    if NormalForm(sch, a).Normal? {
      var s, t := NormalForm(sch, a).items, NormalForm(sch, b).items;
      forall n ensures n in s <==> n in t {
        if n in s {
          HeldInBoth(sch, a, b, s, t, n);
        }
        if n in t {
          HeldInBoth(sch, b, a, t, s, n);
        }
      }
      SortedUnique(sch.less, s, t);
    }
  }

  lemma HeldInBoth<T(!new)>(sch: Scheme<T>, a: seq<T>, b: seq<T>, s: seq<T>, t: seq<T>, n: T)
    requires OneNormalFormPerKey(sch, b) && forall x :: x in a <==> x in b
    requires Represents(sch, s, a) && Represents(sch, t, b) && n in s
    ensures n in t
  {
    var x :| x in a && sch.norm(x) == Some(n);
    assert x in b && HasRepresentative(sch, t, n);
    var m :| m in t && sch.key(m) == sch.key(n) && sch.agree(m, n);
    var y :| y in b && sch.norm(y) == Some(m);
    assert sch.norm(x) == sch.norm(y);
  }

  /** The normal form of the first element is always kept. */
  lemma {:induction false} FirstIsKept<T>(sch: Scheme<T>, input: seq<T>)
    requires input != [] && Kept(sch, input).Normal?
    ensures sch.norm(input[0]).Some? && sch.norm(input[0]).value in Kept(sch, input).items
  {
    var init, last := input[..|input| - 1], input[|input| - 1];
    assert input == init + [last];
    KeptNext(sch, init, last);
    if init == [] {
      assert Kept(sch, init) == Normal([]);
    } else {
      FirstIsKept(sch, init);
    }
  }

  lemma MovedToFront<T>(s: seq<T>, x: T) returns (t: seq<T>)
    requires x in s
    ensures multiset(t) == multiset(s) && t != [] && t[0] == x
  {
    var k :| 0 <= k < |s| && s[k] == x;
    assert s == s[..k] + [x] + s[k + 1..];
    t := [x] + s[..k] + s[k + 1..];
  }

  lemma SuccessTransfers<T(!new)>(sch: Scheme<T>, a: seq<T>, b: seq<T>)
    requires Lawful(sch) && NormalForm(sch, a).Normal? && multiset(a) == multiset(b)
    ensures NormalForm(sch, b).Normal?
  {
    SameElements(a, b);
    KeptIff(sch, a);
    KeptIff(sch, b);
  }

  lemma KeptAreItems<T>(sch: Scheme<T>, input: seq<T>, n: T)
    requires Kept(sch, input).Normal? && n in Kept(sch, input).items
    ensures n in NormalForm(sch, input).items
  {
    SortMultiset(sch.less, Kept(sch, input).items);
    SameElements(NormalForm(sch, input).items, Kept(sch, input).items);
  }

  ghost predicate SameInEveryOrder<T(!new)>(sch: Scheme<T>, s: seq<T>) {
    forall t :: multiset(t) == multiset(s) ==> NormalForm(sch, t) == NormalForm(sch, s)
  }

  /** When the order is irrelevant every element's normal form is in the result. */
  lemma AllAreItems<T(!new)>(sch: Scheme<T>, s: seq<T>, x: T)
    requires Lawful(sch) && NormalForm(sch, s).Normal? && SameInEveryOrder(sch, s) && x in s
    ensures sch.norm(x).Some? && sch.norm(x).value in NormalForm(sch, s).items
  {
    var t := MovedToFront(s, x);
    SuccessTransfers(sch, s, t);
    FirstIsKept(sch, t);
    KeptAreItems(sch, t, sch.norm(x).value);
  }

  lemma OneNormalFormNeeded<T(!new)>(sch: Scheme<T>, s: seq<T>)
    requires Lawful(sch) && NormalForm(sch, s).Normal? && SameInEveryOrder(sch, s)
    ensures OneNormalFormPerKey(sch, s)
  {
    var items := NormalForm(sch, s).items;
    NormalFormMeaning(sch, s);
    forall x, y | x in s && y in s && sch.norm(x).Some? && sch.norm(y).Some?
        && sch.key(sch.norm(x).value) == sch.key(sch.norm(y).value)
      ensures sch.norm(x) == sch.norm(y)
    {
      AllAreItems(sch, s, x);
      AllAreItems(sch, s, y);
      LookupIs(sch.key, items, sch.norm(x).value);
      LookupIs(sch.key, items, sch.norm(y).value);
    }
  }

  /** A list that normalises does so to one result in every order if and only if it holds one
      normal form for each key. */
  lemma EveryOrderIff<T(!new)>(sch: Scheme<T>, s: seq<T>)
    requires Lawful(sch) && NormalForm(sch, s).Normal?
    ensures SameInEveryOrder(sch, s) <==> OneNormalFormPerKey(sch, s)
  {
    if SameInEveryOrder(sch, s) {
      OneNormalFormNeeded(sch, s);
    }
    if OneNormalFormPerKey(sch, s) {
      forall t | multiset(t) == multiset(s) ensures NormalForm(sch, t) == NormalForm(sch, s) {
        SameElements(t, s);
        PermutationIrrelevant(sch, s, t);
      }
    }
  }

  /** Distinct sets of normal forms give distinct results. */
  lemma SetsSeparated<T(!new)>(sch: Scheme<T>, a: seq<T>, b: seq<T>)
    requires Lawful(sch) && Separating(sch)
    requires NormalForm(sch, a).Normal? && NormalForm(sch, a) == NormalForm(sch, b)
    ensures Norms(sch, a) == Norms(sch, b)
  {
    NormsOfItems(sch, a);
    NormsOfItems(sch, b);
  }

  lemma NormsOfItems<T(!new)>(sch: Scheme<T>, input: seq<T>)
    requires Lawful(sch) && Separating(sch) && NormalForm(sch, input).Normal?
    ensures Norms(sch, input) == set n | n in NormalForm(sch, input).items :: Some(n)
  {
    NormalFormMeaning(sch, input);
    ItemsAreNorms(sch, input);
    forall o | o in Norms(sch, input) ensures o.Some? && o.value in NormalForm(sch, input).items {
      var x :| x in input && sch.norm(x) == o;
      assert o == Some(o.value);
    }
  }

  /** A conflict is reported only when two valid elements share a key and disagree. */
  lemma {:induction false} ConflictWitness<T(!new)>(sch: Scheme<T>, input: seq<T>) returns (x: T, y: T)
    requires Lawful(sch) && NormalForm(sch, input) == ConflictingElement
    ensures x in input && y in input && sch.norm(x).Some? && sch.norm(y).Some?
    ensures sch.key(sch.norm(x).value) == sch.key(sch.norm(y).value)
    ensures !sch.agree(sch.norm(x).value, sch.norm(y).value)
  {
    var init, last := input[..|input| - 1], input[|input| - 1];
    if Kept(sch, init).Normal? {
      var items := Kept(sch, init).items;
      KeptRepresents(sch, init);
      LookupFinds(sch.key, items, sch.key(sch.norm(last).value));
      var existing := Lookup(sch.key, items, sch.key(sch.norm(last).value)).value;
      x :| x in init && sch.norm(x) == Some(existing);
      y := last;
    } else {
      x, y := ConflictWitness(sch, init);
    }
  }

  /** A scheme that only checks its elements keeps some of them as they are. */
  ghost predicate Checks<T(!new)>(sch: Scheme<T>) {
    forall x :: sch.norm(x).Some? ==> sch.norm(x) == Some(x)
  }

  lemma {:induction false} UniqueAreKept<T(!new)>(sch: Scheme<T>, items: seq<T>)
    requires Checks(sch) && AllValid(sch, items) && UniqueKeys(sch.key, items)
    ensures Kept(sch, items) == Normal(items)
  {
    if items == [] {
    } else {
      var init, last := items[..|items| - 1], items[|items| - 1];
      assert items == init + [last];
      assert forall x :: x in init ==> x in items;
      UniqueAreKept(sch, init);
      KeptNext(sch, init, last);
      LookupFinds(sch.key, init, sch.key(last));
    }
  }

  /** Normalising a result again changes nothing. */
  lemma NormalFormIdempotent<T(!new)>(sch: Scheme<T>, input: seq<T>)
    requires Lawful(sch) && Checks(sch) && NormalForm(sch, input).Normal?
    ensures NormalForm(sch, NormalForm(sch, input).items) == NormalForm(sch, input)
  {
    var items := NormalForm(sch, input).items;
    NormalFormMeaning(sch, input);
    forall x | x in items ensures sch.norm(x).Some? {
      var y :| y in input && sch.norm(y) == Some(x);
    }
    UniqueAreKept(sch, items);
    SortMultiset(sch.less, items);
    SameElements(SortBy(sch.less, items), items);
    UniqueComparable(sch, items);
    SortSorted(sch.less, items);
    SortedUnique(sch.less, SortBy(sch.less, items), items);
  }
}
