/** Folding, filtering and collecting over sequences, from the left. */
module Sequences {

  import opened Wrappers

  predicate Distinct<T(==)>(s: seq<T>) {
    forall i, j :: 0 <= i < j < |s| ==> s[i] != s[j]
  }

  lemma HeadMultiset<T>(x: T, s: seq<T>)
    ensures multiset([x] + s) == multiset{x} + multiset(s)
  {
  }

  // ---------------------------------------------------------------- fold

  function Fold<S, T>(f: (S, T) -> S, start: S, s: seq<T>): S {
    if s == [] then start else f(Fold(f, start, s[..|s| - 1]), s[|s| - 1])
  }

  lemma {:induction false} FoldAppend<S, T>(f: (S, T) -> S, start: S, a: seq<T>, b: seq<T>)
    ensures Fold(f, start, a + b) == Fold(f, Fold(f, start, a), b)
  {
    if b == [] {
      assert a + b == a;
    } else {
      FoldAppend(f, start, a, b[..|b| - 1]);
      assert (a + b)[..|a + b| - 1] == a + b[..|b| - 1];
    }
  }

  lemma FoldNext<S, T>(f: (S, T) -> S, start: S, s: seq<T>, x: T)
    ensures Fold(f, start, s + [x]) == f(Fold(f, start, s), x)
  {
    assert (s + [x])[..|s|] == s;
  }

  // ---------------------------------------------------------------- filter

  function Filter<T>(p: T -> bool, s: seq<T>): seq<T> {
    if s == [] then []
    else Filter(p, s[..|s| - 1]) + (if p(s[|s| - 1]) then [s[|s| - 1]] else [])
  }

  lemma {:induction false} FilterAppend<T>(p: T -> bool, a: seq<T>, b: seq<T>)
    ensures Filter(p, a + b) == Filter(p, a) + Filter(p, b)
  {
    if b == [] {
      assert a + b == a;
    } else {
      FilterAppend(p, a, b[..|b| - 1]);
      assert (a + b)[..|a + b| - 1] == a + b[..|b| - 1];
    }
  }

  lemma FilterNext<T>(p: T -> bool, s: seq<T>, x: T)
    ensures Filter(p, s + [x]) == Filter(p, s) + (if p(x) then [x] else [])
  {
    assert (s + [x])[..|s|] == s;
  }

  lemma {:induction false} FilterCount<T>(p: T -> bool, s: seq<T>, x: T)
    ensures multiset(Filter(p, s))[x] == if p(x) then multiset(s)[x] else 0
  {
    if s == [] {
    } else {
      var front, last := s[..|s| - 1], s[|s| - 1];
      FilterCount(p, front, x);
      assert s == front + [last];
    }
  }

  /** What is kept does not depend on the order, as a multiset. */
  lemma FilterHas<T>(p: T -> bool, s: seq<T>, x: T)
    ensures x in Filter(p, s) <==> x in s && p(x)
  {
    FilterCount(p, s, x);
    assert x in multiset(Filter(p, s)) <==> x in Filter(p, s);
    assert x in multiset(s) <==> x in s;
  }

  lemma FilterForgetsOrder<T(!new)>(p: T -> bool, a: seq<T>, b: seq<T>)
    requires multiset(a) == multiset(b)
    ensures multiset(Filter(p, a)) == multiset(Filter(p, b))
  {
    forall x: T ensures multiset(Filter(p, a))[x] == multiset(Filter(p, b))[x] {
      FilterCount(p, a, x);
      FilterCount(p, b, x);
    }
  }

  lemma {:induction false} FilterHolds<T>(p: T -> bool, s: seq<T>)
    ensures forall i :: 0 <= i < |Filter(p, s)| ==> p(Filter(p, s)[i])
  {
    if s == [] {
    } else {
      FilterHolds(p, s[..|s| - 1]);
    }
  }

  lemma {:induction false} FilterAll<T>(p: T -> bool, s: seq<T>)
    requires forall i :: 0 <= i < |s| ==> p(s[i])
    ensures Filter(p, s) == s
  {
    if s == [] {
    } else {
      FilterAll(p, s[..|s| - 1]);
    }
  }

  lemma {:induction false} FilterNone<T>(p: T -> bool, s: seq<T>)
    requires forall i :: 0 <= i < |s| ==> !p(s[i])
    ensures Filter(p, s) == []
  {
    if s == [] {
    } else {
      FilterNone(p, s[..|s| - 1]);
    }
  }

  // ---------------------------------------------------------------- collect

  /** Every result, in order; none when one is missing. */
  function Collect<A, B>(f: A -> Option<B>, s: seq<A>): Option<seq<B>> {
    if s == [] then Some([])
    else
      var before :- Collect(f, s[..|s| - 1]);
      var last :- f(s[|s| - 1]);
      Some(before + [last])
  }

  lemma {:induction false} CollectMeaning<A, B>(f: A -> Option<B>, s: seq<A>)
    ensures Collect(f, s).None? <==> exists i :: 0 <= i < |s| && f(s[i]).None?
    ensures Collect(f, s).Some? ==>
      && |Collect(f, s).value| == |s|
      && forall i :: 0 <= i < |s| ==> f(s[i]) == Some(Collect(f, s).value[i])
  {
    if s == [] {
    } else {
      CollectMeaning(f, s[..|s| - 1]);
    }
  }

  lemma CollectNext<A, B>(f: A -> Option<B>, s: seq<A>, n: nat)
    requires n < |s|
    ensures Collect(f, s[..n]).Some? && f(s[n]).Some? ==>
      Collect(f, s[..n + 1]) == Some(Collect(f, s[..n]).value + [f(s[n]).value])
  {
    assert s[..n + 1][..n] == s[..n];
  }

  lemma CollectFails<A, B>(f: A -> Option<B>, s: seq<A>, n: nat)
    requires n < |s| && f(s[n]).None?
    ensures Collect(f, s).None?
  {
    CollectMeaning(f, s);
  }

  // ---------------------------------------------------------------- flatten

  function Flatten<T>(rows: seq<seq<T>>): seq<T> {
    if rows == [] then [] else Flatten(rows[..|rows| - 1]) + rows[|rows| - 1]
  }

  function FlatMap<T, U>(f: T -> seq<U>, s: seq<T>): seq<U> {
    if s == [] then [] else f(s[0]) + FlatMap(f, s[1..])
  }

  lemma {:induction false} FlatMapAppend<T, U>(f: T -> seq<U>, a: seq<T>, b: seq<T>)
    ensures FlatMap(f, a + b) == FlatMap(f, a) + FlatMap(f, b)
  {
    if a == [] {
      assert a + b == b;
    } else {
      FlatMapAppend(f, a[1..], b);
      assert (a + b)[1..] == a[1..] + b;
      Regroup(f(a[0]), FlatMap(f, a[1..]), FlatMap(f, b));
    }
  }

  lemma FlattenNext<T>(rows: seq<seq<T>>, row: seq<T>)
    ensures Flatten(rows + [row]) == Flatten(rows) + row
  {
    assert (rows + [row])[..|rows|] == rows;
  }

  lemma {:induction false} FlattenSingles<T>(rows: seq<seq<T>>, s: seq<T>)
    requires |rows| == |s| && forall i :: 0 <= i < |s| ==> rows[i] == [s[i]]
    ensures Flatten(rows) == s
  {
    if s == [] {
    } else {
      FlattenSingles(rows[..|s| - 1], s[..|s| - 1]);
      assert s == s[..|s| - 1] + [s[|s| - 1]];
    }
  }

  lemma {:induction false} FlattenMembers<T>(rows: seq<seq<T>>, x: T)
    ensures x in Flatten(rows) <==> exists i :: 0 <= i < |rows| && x in rows[i]
  {
    if rows == [] {
    } else {
      FlattenMembers(rows[..|rows| - 1], x);
    }
  }

  predicate Each<T>(p: T -> bool, s: seq<T>) {
    forall i :: 0 <= i < |s| ==> p(s[i])
  }

  predicate NoneOf<T>(p: T -> bool, s: seq<T>) {
    forall i :: 0 <= i < |s| ==> !p(s[i])
  }

  lemma {:induction false} FilterNoRow<T>(p: T -> bool, rows: seq<seq<T>>)
    requires forall i :: 0 <= i < |rows| ==> NoneOf(p, rows[i])
    ensures Filter(p, Flatten(rows)) == []
  {
    if rows == [] {
    } else {
      var n := |rows| - 1;
      FilterNoRow(p, rows[..n]);
      FilterAppend(p, Flatten(rows[..n]), rows[n]);
      FilterNone(p, rows[n]);
    }
  }

  /** When one row satisfies the predicate and the others do not, filtering gives that row. */
  lemma {:induction false} FilterOneRow<T>(p: T -> bool, rows: seq<seq<T>>, k: nat)
    requires k < |rows| && Each(p, rows[k])
    requires forall i :: 0 <= i < |rows| && i != k ==> NoneOf(p, rows[i])
    ensures Filter(p, Flatten(rows)) == rows[k]
  {
    var n := |rows| - 1;
    FilterAppend(p, Flatten(rows[..n]), rows[n]);
    if k < n {
      FilterOneRow(p, rows[..n], k);
      FilterNone(p, rows[n]);
    } else {
      FilterNoRow(p, rows[..n]);
      FilterAll(p, rows[n]);
    }
  }

  // ---------------------------------------------------------------- map

  function Map<A, B>(f: A -> B, s: seq<A>): (r: seq<B>)
    ensures |r| == |s|
    ensures forall i :: 0 <= i < |s| ==> r[i] == f(s[i])
  {
    if s == [] then [] else Map(f, s[..|s| - 1]) + [f(s[|s| - 1])]
  }

  lemma MapNext<A, B>(f: A -> B, s: seq<A>, x: A)
    ensures Map(f, s + [x]) == Map(f, s) + [f(x)]
  {
    assert (s + [x])[..|s|] == s;
  }

  /** Folding over images is folding a step that does the same. */
  lemma {:induction false} FoldMap<S(!new), A, B>(f: (S, B) -> S, g: A -> B, h: (S, A) -> S, start: S, s: seq<A>)
    requires forall i, t :: 0 <= i < |s| ==> f(t, g(s[i])) == h(t, s[i])
    ensures Fold(f, start, Map(g, s)) == Fold(h, start, s)
  {
    if s == [] {
    } else {
      var front, last := s[..|s| - 1], s[|s| - 1];
      FoldMap(f, g, h, start, front);
      assert s == front + [last];
      MapNext(g, front, last);
      FoldNext(f, start, Map(g, front), g(last));
    }
  }

  lemma Regroup<T>(a: seq<T>, b: seq<T>, c: seq<T>)
    ensures a + b + c == a + (b + c)
  {
  }

  // ---------------------------------------------------------------- permutations

  lemma Removed<T>(front: seq<T>, x: T, back: seq<T>)
    ensures multiset(front + [x] + back) == multiset(front + back) + multiset{x}
  {
  }

  /** A permutation of a sequence, with the last element of that sequence taken out. */
  lemma Without<T>(init: seq<T>, x: T, b: seq<T>) returns (front: seq<T>, back: seq<T>)
    requires multiset(init + [x]) == multiset(b)
    ensures b == front + [x] + back && multiset(init) == multiset(front + back)
  {
    assert x in multiset(b);
    var k :| 0 <= k < |b| && b[k] == x;
    front, back := b[..k], b[k + 1..];
    assert b == front + [x] + back;
    Removed(front, x, back);
    assert multiset(init) == multiset(init + [x]) - multiset{x};
    assert multiset(front + back) == multiset(b) - multiset{x};
  }

  lemma {:induction false} MapAppend<A, B>(f: A -> B, a: seq<A>, b: seq<A>)
    ensures Map(f, a + b) == Map(f, a) + Map(f, b)
  {
    if b == [] {
      assert a + b == a;
    } else {
      MapAppend(f, a, b[..|b| - 1]);
      assert (a + b)[..|a + b| - 1] == a + b[..|b| - 1];
    }
  }

  lemma MapAround<A, B>(f: A -> B, front: seq<A>, x: A, back: seq<A>)
    ensures multiset(Map(f, front + [x] + back)) == multiset(Map(f, front + back)) + multiset{f(x)}
  {
    MapAppend(f, front, back);
    MapAppend(f, front + [x], back);
    MapNext(f, front, x);
    Removed(Map(f, front), f(x), Map(f, back));
  }

  lemma {:induction false} MapForgetsOrder<A, B>(f: A -> B, a: seq<A>, b: seq<A>)
    requires multiset(a) == multiset(b)
    ensures multiset(Map(f, a)) == multiset(Map(f, b))
  {
    if a == [] {
      assert |multiset(b)| == 0;
      assert b == [];
    } else {
      var init, x := a[..|a| - 1], a[|a| - 1];
      assert a == init + [x];
      var front, back := Without(init, x, b);
      MapForgetsOrder(f, init, front + back);
      MapAround(f, front, x, back);
      MapNext(f, init, x);
    }
  }
}
