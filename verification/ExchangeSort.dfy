/** The nested-loop exchange sort behind the distribution hashes
    (internal/authz/fixture_distribution.go), in place on an array. */
module ExchangeSort {

  import opened Text
  import opened Sequences
  import opened Sorting

  /** A strict order on classes of equivalent elements. */
  ghost predicate WeakOrder<T(!new)>(less: (T, T) -> bool) {
    && StrictOrder(less)
    && forall x, y, z :: less(x, z) ==> less(x, y) || less(y, z)
  }

  // ---------------------------------------------------------------- the sort as a function

  /** One run of the inner loop: the element held at the front, and what it leaves behind. */
  function Pass<T>(less: (T, T) -> bool, held: T, rest: seq<T>): (r: (T, seq<T>))
    ensures |r.1| == |rest|
  {
    if rest == [] then (held, [])
    else if less(rest[0], held) then
      var (m, left) := Pass(less, rest[0], rest[1..]);
      (m, [held] + left)
    else
      var (m, left) := Pass(less, held, rest[1..]);
      (m, [rest[0]] + left)
  }

  function Exchanged<T>(less: (T, T) -> bool, s: seq<T>): (r: seq<T>)
    ensures |r| == |s|
    decreases |s|
  {
    if s == [] then []
    else
      var (m, left) := Pass(less, s[0], s[1..]);
      [m] + Exchanged(less, left)
  }

  // ---------------------------------------------------------------- the sort in place

  method Sort<T>(less: (T, T) -> bool, a: array<T>)
    modifies a
    ensures a[..] == Exchanged(less, old(a[..]))
  {
    for i := 0 to a.Length
      invariant Exchanged(less, old(a[..])) == a[..i] + Exchanged(less, a[i..])
    {
      ghost var tail := a[i..];
      assert tail[1..] == a[i + 1..];
      InnerLoop(less, a, i);
      assert Exchanged(less, tail) == [a[i]] + Exchanged(less, a[i + 1..]);
      assert a[..i + 1] == a[..i] + [a[i]];
    }
    assert a[..a.Length] == a[..];
  }

  /** One comparison moves one element from the rest to the part that was passed. */
  lemma PassStep<T>(less: (T, T) -> bool, held: T, tail: seq<T>)
    requires tail != []
    ensures var keep, leave := if less(tail[0], held) then tail[0] else held, if less(tail[0], held) then held else tail[0];
      && Pass(less, held, tail).0 == Pass(less, keep, tail[1..]).0
      && Pass(less, held, tail).1 == [leave] + Pass(less, keep, tail[1..]).1
  {
  }

  method InnerLoop<T>(less: (T, T) -> bool, a: array<T>, i: nat)
    requires i < a.Length
    modifies a
    ensures a[..i] == old(a[..i])
    ensures a[i] == Pass(less, old(a[i]), old(a[i + 1..])).0
    ensures a[i + 1..] == Pass(less, old(a[i]), old(a[i + 1..])).1
  {
    ghost var result := Pass(less, a[i], a[i + 1..]);
    for j := i + 1 to a.Length
      invariant a[..i] == old(a[..i])
      invariant result.0 == Pass(less, a[i], a[j..]).0
      invariant result.1 == a[i + 1..j] + Pass(less, a[i], a[j..]).1
    {
      ghost var seen, tail := a[i + 1..j], a[j..];
      PassStep(less, a[i], tail);
      assert tail[1..] == a[j + 1..];
      if less(a[j], a[i]) {
        a[i], a[j] := a[j], a[i];
      }
      assert a[j + 1..] == tail[1..];
      assert a[i + 1..j + 1] == seen + [a[j]];
      Regroup(seen, [a[j]], Pass(less, a[i], tail[1..]).1);
    }
  }

  // ---------------------------------------------------------------- what it computes

  lemma {:induction false} PassMultiset<T>(less: (T, T) -> bool, held: T, rest: seq<T>)
    ensures var (m, left) := Pass(less, held, rest); multiset{m} + multiset(left) == multiset{held} + multiset(rest)
  {
    if rest == [] {
    } else {
      assert rest == [rest[0]] + rest[1..];
      PassMultiset(less, if less(rest[0], held) then rest[0] else held, rest[1..]);
    }
  }

  lemma {:induction false} PassLeast<T(!new)>(less: (T, T) -> bool, held: T, rest: seq<T>)
    requires WeakOrder(less)
    ensures var (m, left) := Pass(less, held, rest);
      !less(held, m) && forall i :: 0 <= i < |left| ==> !less(left[i], m)
  {
    if rest == [] {
    } else {
      PassLeast(less, if less(rest[0], held) then rest[0] else held, rest[1..]);
    }
  }

  lemma {:induction false} ExchangedMultiset<T>(less: (T, T) -> bool, s: seq<T>)
    ensures multiset(Exchanged(less, s)) == multiset(s)
    decreases |s|
  {
    if s == [] {
    } else {
      var (m, left) := Pass(less, s[0], s[1..]);
      PassMultiset(less, s[0], s[1..]);
      ExchangedMultiset(less, left);
      HeadMultiset(m, Exchanged(less, left));
      HeadMultiset(s[0], s[1..]);
      assert s == [s[0]] + s[1..];
    }
  }

  /** The result is ascending. */
  lemma {:induction false} ExchangedAscending<T(!new)>(less: (T, T) -> bool, s: seq<T>)
    requires WeakOrder(less)
    ensures Ascending(less, Exchanged(less, s))
    decreases |s|
  {
    if s == [] {
    } else {
      var (m, left) := Pass(less, s[0], s[1..]);
      PassLeast(less, s[0], s[1..]);
      ExchangedAscending(less, left);
      ExchangedMultiset(less, left);
      SameElements(Exchanged(less, left), left);
      forall y | y in Exchanged(less, left) ensures !less(y, m) {
        assert y in left;
      }
    }
  }

  lemma {:induction false} PassIdle<T>(less: (T, T) -> bool, held: T, rest: seq<T>)
    requires forall i :: 0 <= i < |rest| ==> !less(rest[i], held)
    ensures Pass(less, held, rest) == (held, rest)
  {
    if rest == [] {
    } else {
      PassIdle(less, held, rest[1..]);
      assert rest == [rest[0]] + rest[1..];
    }
  }

  /** An ascending sequence is left alone. */
  lemma {:induction false} ExchangedIdle<T>(less: (T, T) -> bool, s: seq<T>)
    requires Ascending(less, s)
    ensures Exchanged(less, s) == s
    decreases |s|
  {
    if s == [] {
    } else {
      PassIdle(less, s[0], s[1..]);
      ExchangedIdle(less, s[1..]);
      assert s == [s[0]] + s[1..];
    }
  }

  // ---------------------------------------------------------------- hash lists

  /** Sorting a list of hashes forgets their order: equal results if and only if one list is a
      permutation of the other. */
  lemma HashListsForgetOrder(a: seq<string>, b: seq<string>)
    ensures Exchanged(Less, a) == Exchanged(Less, b) <==> multiset(a) == multiset(b)
  {
    LessIsOrder();
    ExchangedMultiset(Less, a);
    ExchangedMultiset(Less, b);
    if multiset(a) == multiset(b) {
      ExchangedAscending(Less, a);
      ExchangedAscending(Less, b);
      AscendingUnique(Less, Exchanged(Less, a), Exchanged(Less, b));
    }
  }

  // ---------------------------------------------------------------- records sorted by identifier

  /** A job or a target of the distribution index: an identifier and the rest. */
  datatype Record<T> = Record(id: string, content: T)

  predicate IdLess<T>(a: Record<T>, b: Record<T>) {
    Less(a.id, b.id)
  }

  lemma IdsWeaklyOrdered<T(!new)>()
    ensures WeakOrder<Record<T>>(IdLess)
  {
    LessIsOrder();
  }

  /** Records with one identifier are one record. */
  ghost predicate IdsDetermine<T>(s: seq<Record<T>>) {
    forall i, j :: 0 <= i < |s| && 0 <= j < |s| && s[i].id == s[j].id ==> s[i] == s[j]
  }

  lemma SameFirst<T(!new)>(s: seq<Record<T>>, t: seq<Record<T>>)
    requires s != [] && IdsDetermine(s) && multiset(s) == multiset(t) && Ascending(IdLess, s) && Ascending(IdLess, t)
    ensures t != [] && s[0] == t[0]
  {
    SameElements(s, t);
    assert s[0] in t && t[0] in s;
    LessTotal(s[0].id, t[0].id);
  }

  lemma {:induction false} IdsDetermineOrder<T(!new)>(s: seq<Record<T>>, t: seq<Record<T>>)
    requires IdsDetermine(s) && multiset(s) == multiset(t) && Ascending(IdLess, s) && Ascending(IdLess, t)
    ensures s == t
  {
    assert |multiset(s)| == |s| && |multiset(t)| == |t|;
    if s == [] {
    } else {
      SameFirst(s, t);
      DropFirst(s);
      DropFirst(t);
      IdsDetermineOrder(s[1..], t[1..]);
      assert s == [s[0]] + s[1..] && t == [t[0]] + t[1..];
    }
  }

  lemma SameForEveryOrder<T(!new)>(s: seq<Record<T>>, t: seq<Record<T>>)
    requires IdsDetermine(s) && multiset(t) == multiset(s)
    ensures Exchanged(IdLess, t) == Exchanged(IdLess, s)
  {
    IdsWeaklyOrdered<T>();
    ExchangedMultiset(IdLess, s);
    ExchangedMultiset(IdLess, t);
    ExchangedAscending(IdLess, s);
    ExchangedAscending(IdLess, t);
    var r := Exchanged(IdLess, s);
    SameElements(r, s);
    forall i, j | 0 <= i < |r| && 0 <= j < |r| && r[i].id == r[j].id ensures r[i] == r[j] {
      assert r[i] in s && r[j] in s;
    }
    IdsDetermineOrder(r, Exchanged(IdLess, t));
  }

  lemma TwoSorted<T(!new)>(s: seq<Record<T>>) returns (k: nat, l: nat)
    requires !IdsDetermine(s)
    ensures var r := Exchanged(IdLess, s);
      k < |r| && l < |r| && r[k].id == r[l].id && r[k] != r[l]
  {
    ExchangedMultiset(IdLess, s);
    var r := Exchanged(IdLess, s);
    SameElements(r, s);
    var i, j :| 0 <= i < |s| && 0 <= j < |s| && s[i].id == s[j].id && s[i] != s[j];
    assert s[i] in r && s[j] in r;
    k :| 0 <= k < |r| && r[k] == s[i];
    l :| 0 <= l < |r| && r[l] == s[j];
  }

  /** With two different records under one identifier there is an order with another result. */
  lemma DifferentForSomeOrder<T(!new)>(s: seq<Record<T>>) returns (t: seq<Record<T>>)
    requires !IdsDetermine(s)
    ensures multiset(t) == multiset(s) && Exchanged(IdLess, t) != Exchanged(IdLess, s)
  {
    IdsWeaklyOrdered<T>();
    ExchangedMultiset(IdLess, s);
    ExchangedAscending(IdLess, s);
    var r := Exchanged(IdLess, s);
    var k, l := TwoSorted(s);
    t := r[k := r[l]][l := r[k]];
    SwapMultiset(r, k, l);
    SwapAscending(r, k, l);
    ExchangedIdle(IdLess, t);
    assert t[k] != r[k];
  }

  lemma SwapAscending<T>(r: seq<Record<T>>, k: nat, l: nat)
    requires k < |r| && l < |r| && r[k].id == r[l].id && Ascending(IdLess, r)
    ensures Ascending(IdLess, r[k := r[l]][l := r[k]])
  {
    var t := r[k := r[l]][l := r[k]];
    assert forall i :: 0 <= i < |r| ==> t[i].id == r[i].id;
    forall i, j | 0 <= i < j < |t| ensures !IdLess(t[j], t[i]) {
      assert !IdLess(r[j], r[i]);
    }
  }

  /** Sorting records by identifier gives one result for every order of the input if and only if
      no two different records share an identifier. */
  lemma IndexOrderIrrelevantIff<T(!new)>(s: seq<Record<T>>)
    ensures (forall t :: multiset(t) == multiset(s) ==> Exchanged(IdLess, t) == Exchanged(IdLess, s)) <==> IdsDetermine(s)
  {
    if IdsDetermine(s) {
      forall t | multiset(t) == multiset(s) ensures Exchanged(IdLess, t) == Exchanged(IdLess, s) {
        SameForEveryOrder(s, t);
      }
    } else {
      var t := DifferentForSomeOrder(s);
    }
  }

  lemma SwapMultiset<T>(r: seq<T>, k: nat, l: nat)
    requires k < |r| && l < |r|
    ensures multiset(r[k := r[l]][l := r[k]]) == multiset(r)
  {
  }
}
