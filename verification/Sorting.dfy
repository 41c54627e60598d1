/** Library sorting by a comparison function, for inputs whose elements are pairwise
    comparable.  Such an input has exactly one sorted arrangement. */
module Sorting {

  ghost predicate StrictOrder<T(!new)>(less: (T, T) -> bool) {
    && (forall x :: !less(x, x))
    && (forall x, y, z :: less(x, y) && less(y, z) ==> less(x, z))
  }

  /** Any two elements at different positions are ordered one way or the other. */
  ghost predicate Comparable<T>(less: (T, T) -> bool, s: seq<T>) {
    forall i, j :: 0 <= i < j < |s| ==> less(s[i], s[j]) || less(s[j], s[i])
  }

  ghost predicate Sorted<T>(less: (T, T) -> bool, s: seq<T>) {
    forall i, j :: 0 <= i < j < |s| ==> less(s[i], s[j])
  }

  ghost function Elements<T>(s: seq<T>): set<T> {
    set x | x in s
  }

  function Insert<T>(less: (T, T) -> bool, x: T, s: seq<T>): seq<T> {
    if s == [] then [x]
    else if less(x, s[0]) then [x] + s
    else [s[0]] + Insert(less, x, s[1..])
  }

  function SortBy<T>(less: (T, T) -> bool, s: seq<T>): seq<T> {
    if s == [] then [] else Insert(less, s[0], SortBy(less, s[1..]))
  }

  lemma {:induction false} InsertMultiset<T>(less: (T, T) -> bool, x: T, s: seq<T>)
    ensures multiset(Insert(less, x, s)) == multiset{x} + multiset(s)
  {
    if s == [] || less(x, s[0]) {
    } else {
      InsertMultiset(less, x, s[1..]);
      assert s == [s[0]] + s[1..];
    }
  }

  lemma {:induction false} SortMultiset<T>(less: (T, T) -> bool, s: seq<T>)
    ensures multiset(SortBy(less, s)) == multiset(s)
    ensures |SortBy(less, s)| == |s|
  {
    if s == [] {
    } else {
      SortMultiset(less, s[1..]);
      InsertMultiset(less, s[0], SortBy(less, s[1..]));
      assert s == [s[0]] + s[1..];
    }
    assert |multiset(SortBy(less, s))| == |SortBy(less, s)|;
  }

  lemma SameElements<T>(s: seq<T>, t: seq<T>)
    requires multiset(s) == multiset(t)
    ensures Elements(s) == Elements(t)
    ensures forall x :: x in s <==> x in t
  {
    forall x ensures x in s <==> x in t {
      assert x in s <==> x in multiset(s);
      assert x in t <==> x in multiset(t);
    }
  }

  lemma {:induction false} InsertSorted<T(!new)>(less: (T, T) -> bool, x: T, s: seq<T>)
    requires StrictOrder(less) && Sorted(less, s)
    requires forall y :: y in s ==> less(x, y) || less(y, x)
    ensures Sorted(less, Insert(less, x, s))
  {
    if s == [] || less(x, s[0]) {
    } else {
      var rest := Insert(less, x, s[1..]);
      InsertSorted(less, x, s[1..]);
      InsertMultiset(less, x, s[1..]);
      forall y | y in rest ensures less(s[0], y) {
        assert y in multiset(rest);
        assert y == x || y in s[1..];
      }
    }
  }

  lemma {:induction false} SortSorted<T(!new)>(less: (T, T) -> bool, s: seq<T>)
    requires StrictOrder(less) && Comparable(less, s)
    ensures Sorted(less, SortBy(less, s))
  {
    if s == [] {
    } else {
      var rest := SortBy(less, s[1..]);
      SortSorted(less, s[1..]);
      SortMultiset(less, s[1..]);
      SameElements(rest, s[1..]);
      InsertSorted(less, s[0], rest);
    }
  }

  /** Two sorted sequences with the same elements are equal. */
  lemma {:induction false} SortedUnique<T(!new)>(less: (T, T) -> bool, s: seq<T>, t: seq<T>)
    requires StrictOrder(less) && Sorted(less, s) && Sorted(less, t)
    requires forall x :: x in s <==> x in t
    ensures s == t
  {
    assert t != [] ==> t[0] in t;
    if s == [] {
    } else {
      assert s[0] in t;
      assert t[0] in s;
      assert s[0] == t[0];
      forall x ensures x in s[1..] <==> x in t[1..] {
        assert x in s[1..] ==> x in s && less(s[0], x);
        assert x in t[1..] ==> x in t && less(t[0], x);
        assert s == [s[0]] + s[1..] && t == [t[0]] + t[1..];
      }
      SortedUnique(less, s[1..], t[1..]);
      assert s == [s[0]] + s[1..] && t == [t[0]] + t[1..];
    }
  }

  /** Sorting erases the order of pairwise comparable elements. */
  lemma SortErasesOrder<T(!new)>(less: (T, T) -> bool, s: seq<T>, t: seq<T>)
    requires StrictOrder(less) && Comparable(less, s) && Comparable(less, t)
    requires forall x :: x in s <==> x in t
    ensures SortBy(less, s) == SortBy(less, t)
  {
    SortSorted(less, s);
    SortSorted(less, t);
    SortMultiset(less, s);
    SortMultiset(less, t);
    SameElements(SortBy(less, s), s);
    SameElements(SortBy(less, t), t);
    SortedUnique(less, SortBy(less, s), SortBy(less, t));
  }

  // ---------------------------------------------------------------- with repetitions

  ghost predicate Total<T(!new)>(less: (T, T) -> bool) {
    forall x, y :: x == y || less(x, y) || less(y, x)
  }

  /** No element is less than one before it. */
  ghost predicate Ascending<T>(less: (T, T) -> bool, s: seq<T>) {
    forall i, j :: 0 <= i < j < |s| ==> !less(s[j], s[i])
  }

  lemma {:induction false} InsertAscending<T(!new)>(less: (T, T) -> bool, x: T, s: seq<T>)
    requires StrictOrder(less) && Total(less) && Ascending(less, s)
    ensures Ascending(less, Insert(less, x, s))
  {
    if s == [] {
    } else if less(x, s[0]) {
      forall y | y in s ensures !less(y, x) {
        assert y == s[0] || !less(y, s[0]);
      }
    } else {
      var rest := Insert(less, x, s[1..]);
      InsertAscending(less, x, s[1..]);
      InsertMultiset(less, x, s[1..]);
      forall y | y in rest ensures !less(y, s[0]) {
        assert y in multiset(rest);
        assert y == x || y in s[1..];
      }
    }
  }

  lemma {:induction false} SortAscending<T(!new)>(less: (T, T) -> bool, s: seq<T>)
    requires StrictOrder(less) && Total(less)
    ensures Ascending(less, SortBy(less, s))
  {
    if s == [] {
    } else {
      SortAscending(less, s[1..]);
      InsertAscending(less, s[0], SortBy(less, s[1..]));
    }
  }

  lemma DropFirst<T>(s: seq<T>)
    requires s != []
    ensures multiset(s[1..]) == multiset(s) - multiset{s[0]}
  {
    assert s == [s[0]] + s[1..];
  }

  /** Under a total order an ascending arrangement of a multiset is unique. */
  lemma {:induction false} AscendingUnique<T(!new)>(less: (T, T) -> bool, s: seq<T>, t: seq<T>)
    requires StrictOrder(less) && Total(less) && Ascending(less, s) && Ascending(less, t)
    requires multiset(s) == multiset(t)
    ensures s == t
  {
    assert |multiset(s)| == |s| && |multiset(t)| == |t|;
    if s == [] {
    } else {
      SameElements(s, t);
      assert s[0] in t && t[0] in s;
      assert s[0] == t[0];
      DropFirst(s);
      DropFirst(t);
      AscendingUnique(less, s[1..], t[1..]);
      assert s == [s[0]] + s[1..] && t == [t[0]] + t[1..];
    }
  }
}
