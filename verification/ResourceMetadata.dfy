/** Resource metadata (internal/authz/policy_input.go): keys and values are trimmed while a map is
    visited in any order, so that keys which trim to one key overwrite each other. */
module ResourceMetadata {

  import opened Wrappers
  import opened Sequences
  import opened Text

  type Metadata = map<string, string>

  datatype Entry = Entry(key: string, value: string)

  predicate ValidEntry(e: Entry) {
    && e.key != "" && Utf8Length(e.key) <= 128 && NoControl(e.key)
    && Utf8Length(e.value) <= 1024 && NoControl(e.value)
  }

  function Cleaned(input: Metadata, k: string): Entry
    requires k in input
  {
    Entry(Trim(k), Trim(input[k]))
  }

  function AllCleaned(input: Metadata, order: seq<string>): (entries: seq<Entry>)
    requires forall i :: 0 <= i < |order| ==> order[i] in input
    ensures |entries| == |order| && forall i :: 0 <= i < |order| ==> entries[i] == Cleaned(input, order[i])
  {
    seq(|order|, i requires 0 <= i < |order| => Cleaned(input, order[i]))
  }

  // ---------------------------------------------------------------- writing entries in turn

  /** The map that entries written in turn leave; nothing once one is refused. */
  function Written(entries: seq<Entry>): Option<Metadata> {
    if entries == [] then Some(map[])
    else
      var e := entries[|entries| - 1];
      var before :- Written(entries[..|entries| - 1]);
      if ValidEntry(e) then Some(before[e.key := e.value]) else None
  }

  lemma WrittenNext(entries: seq<Entry>, e: Entry)
    ensures Written(entries + [e]) ==
      if Written(entries).None? || !ValidEntry(e) then None else Some(Written(entries).value[e.key := e.value])
  {
    assert (entries + [e])[..|entries|] == entries;
  }

  lemma {:induction false} WrittenIff(entries: seq<Entry>)
    ensures Written(entries).Some? <==> forall i :: 0 <= i < |entries| ==> ValidEntry(entries[i])
  {
    if entries == [] {
    } else {
      WrittenIff(entries[..|entries| - 1]);
    }
  }

  ghost predicate LastWith(entries: seq<Entry>, x: string, i: nat) {
    i < |entries| && entries[i].key == x && forall j :: i < j < |entries| ==> entries[j].key != x
  }

  /** Of entries with one key the last stays. */
  lemma {:induction false} LastWins(entries: seq<Entry>, x: string, i: nat)
    requires Written(entries).Some? && LastWith(entries, x, i)
    ensures x in Written(entries).value && Written(entries).value[x] == entries[i].value
  {
    var n := |entries| - 1;
    if i == n {
    } else {
      LastWins(entries[..n], x, i);
    }
  }

  /** Every key that stays is that of some entry. */
  lemma {:induction false} WrittenFrom(entries: seq<Entry>, x: string) returns (i: nat)
    requires Written(entries).Some?
    requires x in Written(entries).value || exists j :: 0 <= j < |entries| && entries[j].key == x
    ensures LastWith(entries, x, i)
  {
    var n := |entries| - 1;
    if entries[n].key == x {
      i := n;
    } else {
      i := WrittenFrom(entries[..n], x);
    }
  }

  // ---------------------------------------------------------------- visiting a map

  ghost predicate IsOrder(input: Metadata, order: seq<string>) {
    && Distinct(order)
    && (forall i :: 0 <= i < |order| ==> order[i] in input)
    && (forall k :: k in input ==> k in order)
  }

  function Visited(input: Metadata, order: seq<string>): Option<Metadata>
    requires forall i :: 0 <= i < |order| ==> order[i] in input
  {
    Written(AllCleaned(input, order))
  }

  lemma VisitedNext(input: Metadata, order: seq<string>, k: string)
    requires (forall i :: 0 <= i < |order| ==> order[i] in input) && k in input
    ensures Visited(input, order + [k]) ==
      if Visited(input, order).None? || !ValidEntry(Cleaned(input, k)) then None
      else Some(Visited(input, order).value[Trim(k) := Trim(input[k])])
  {
    WrittenNext(AllCleaned(input, order), Cleaned(input, k));
    assert AllCleaned(input, order + [k]) == AllCleaned(input, order) + [Cleaned(input, k)];
  }

  /** What some order of the keys leaves. */
  ghost predicate Possible(input: Metadata, r: Option<Metadata>) {
    exists order :: IsOrder(input, order) && r == Visited(input, order)
  }

  /** The keys come out of the map in any order. */
  method NormalizeResourceMetadata(input: Metadata) returns (r: Option<Metadata>)
    ensures Possible(input, r)
  {
    var rest := input.Keys;
    var out: Metadata := map[];
    ghost var order: seq<string> := [];
    while rest != {}
      invariant rest <= input.Keys && Distinct(order)
      invariant forall i :: 0 <= i < |order| ==> order[i] in input && order[i] !in rest
      invariant forall k :: k in input && k !in rest ==> k in order
      invariant Visited(input, order) == Some(out)
      decreases rest
    {
      var k :| k in rest;
      var key, value := Trim(k), Trim(input[k]);
      VisitedNext(input, order, k);
      order := order + [k];
      if key == "" || Utf8Length(key) > 128 || !NoControl(key) || Utf8Length(value) > 1024 || !NoControl(value) {
        order := Completed(input, order, rest - {k});
        return None;
      }
      out := out[key := value];
      rest := rest - {k};
    }
    r := Some(out);
  }

  /** A refused entry is refused however the visit would have gone on. */
  lemma {:induction false} Completed(input: Metadata, begun: seq<string>, rest: set<string>) returns (order: seq<string>)
    requires Distinct(begun) && rest <= input.Keys
    requires forall i :: 0 <= i < |begun| ==> begun[i] in input && begun[i] !in rest
    requires forall k :: k in input && k !in rest ==> k in begun
    requires Visited(input, begun).None?
    ensures IsOrder(input, order) && Visited(input, order).None?
    decreases rest
  {
    if rest == {} {
      order := begun;
    } else {
      var k :| k in rest;
      VisitedNext(input, begun, k);
      order := Completed(input, begun + [k], rest - {k});
    }
  }

  lemma OrderOf(keys: set<string>) returns (order: seq<string>)
    ensures Distinct(order) && (forall i :: 0 <= i < |order| ==> order[i] in keys) && forall k :: k in keys ==> k in order
  {
    if keys == {} {
      order := [];
    } else {
      var k :| k in keys;
      var front := OrderOf(keys - {k});
      order := front + [k];
    }
  }

  /** Some order ends with the given key. */
  lemma OrderEnding(input: Metadata, k: string) returns (order: seq<string>)
    requires k in input
    ensures IsOrder(input, order) && order != [] && order[|order| - 1] == k
  {
    var front := OrderOf(input.Keys - {k});
    order := front + [k];
  }

  // ---------------------------------------------------------------- success

  /** Trimmed, every key is nonempty and at most 128 bytes long, every value is at most 1024 bytes long,
      and neither holds a control character. */
  ghost predicate AllValid(input: Metadata) {
    forall k :: k in input ==>
      && 0 < Utf8Length(Trim(k)) <= 128 && Utf8Length(Trim(input[k])) <= 1024
      && (forall c :: c in Trim(k) + Trim(input[k]) ==> c >= 0x20 as char && c != 0x7f as char)
  }

  lemma ValidEntryIff(e: Entry)
    ensures ValidEntry(e) <==>
      && 0 < Utf8Length(e.key) <= 128 && Utf8Length(e.value) <= 1024
      && (forall c :: c in e.key + e.value ==> c >= 0x20 as char && c != 0x7f as char)
  {
    var both := e.key + e.value;
    if ValidEntry(e) {
      forall c | c in both ensures !IsControl(c) {
        var i :| 0 <= i < |both| && both[i] == c;
        assert i < |e.key| ==> c == e.key[i];
        assert i >= |e.key| ==> c == e.value[i - |e.key|];
      }
    } else {
      assert forall i :: 0 <= i < |e.key| ==> e.key[i] in both;
      assert forall i :: 0 <= i < |e.value| ==> e.value[i] in both;
    }
  }

  /** Whether normalisation succeeds does not depend on the order: it does if and only if every entry
      is valid. */
  lemma SucceedsIff(input: Metadata, order: seq<string>)
    requires IsOrder(input, order)
    ensures Visited(input, order).Some? <==> AllValid(input)
  {
    var entries := AllCleaned(input, order);
    WrittenIff(entries);
    forall k | k in input ensures ValidEntry(Cleaned(input, k)) <==>
      && 0 < Utf8Length(Trim(k)) <= 128 && Utf8Length(Trim(input[k])) <= 1024
      && (forall c :: c in Trim(k) + Trim(input[k]) ==> c >= 0x20 as char && c != 0x7f as char)
    {
      ValidEntryIff(Cleaned(input, k));
    }
    if Visited(input, order).Some? {
      forall k | k in input ensures ValidEntry(Cleaned(input, k)) {
        var i :| 0 <= i < |order| && order[i] == k;
        assert entries[i] == Cleaned(input, k);
      }
    }
  }

  // ---------------------------------------------------------------- the order

  /** Keys that trim to one key have values that trim to one value. */
  ghost predicate NoClash(input: Metadata) {
    forall k, l :: k in input && l in input && Cleaned(input, k).key == Cleaned(input, l).key ==>
      Cleaned(input, k) == Cleaned(input, l)
  }

  ghost predicate SameInEveryOrder(input: Metadata) {
    forall a, b :: IsOrder(input, a) && IsOrder(input, b) ==> Visited(input, a) == Visited(input, b)
  }

  /** The map holds exactly the given entries. */
  ghost predicate Holds(m: Metadata, input: Metadata) {
    && (forall k :: k in input ==> Cleaned(input, k).key in m && m[Cleaned(input, k).key] == Cleaned(input, k).value)
    && (forall x :: x in m ==> exists k :: k in input && Cleaned(input, k).key == x)
  }

  lemma HoldsKey(input: Metadata, order: seq<string>, k: string)
    requires IsOrder(input, order) && NoClash(input) && Visited(input, order).Some? && k in input
    ensures var e := Cleaned(input, k);
      e.key in Visited(input, order).value && Visited(input, order).value[e.key] == e.value
  {
    var entries, e := AllCleaned(input, order), Cleaned(input, k);
    var j :| 0 <= j < |order| && order[j] == k;
    assert entries[j].key == e.key;
    var i := WrittenFrom(entries, e.key);
    LastWins(entries, e.key, i);
    assert Cleaned(input, order[i]).key == e.key;
  }

  /** Without a clash the result is the trimmed entries. */
  lemma Trims(input: Metadata, order: seq<string>)
    requires IsOrder(input, order) && AllValid(input) && NoClash(input)
    ensures Visited(input, order).Some? && Holds(Visited(input, order).value, input)
  {
    SucceedsIff(input, order);
    var m := Visited(input, order).value;
    forall k | k in input ensures Cleaned(input, k).key in m && m[Cleaned(input, k).key] == Cleaned(input, k).value {
      HoldsKey(input, order, k);
    }
    forall x | x in m ensures exists k :: k in input && Cleaned(input, k).key == x {
      var i := WrittenFrom(AllCleaned(input, order), x);
      assert order[i] in input && Cleaned(input, order[i]).key == x;
    }
  }

  lemma HoldsOne(input: Metadata, m: Metadata, n: Metadata)
    requires Holds(m, input) && Holds(n, input)
    ensures m == n
  {
    assert m.Keys == n.Keys;
    forall x | x in m ensures m[x] == n[x] {
      var k :| k in input && Cleaned(input, k).key == x;
    }
  }

  /** The value under a key that several trim to is that of the one visited last. */
  lemma EndingWins(input: Metadata, order: seq<string>)
    requires IsOrder(input, order) && order != [] && Visited(input, order).Some?
    ensures var e := Cleaned(input, order[|order| - 1]);
      e.key in Visited(input, order).value && Visited(input, order).value[e.key] == e.value
  {
    LastWins(AllCleaned(input, order), Cleaned(input, order[|order| - 1]).key, |order| - 1);
  }

  lemma ClashShows(input: Metadata, k: string, l: string)
    requires AllValid(input) && k in input && l in input
    requires Cleaned(input, k).key == Cleaned(input, l).key && Cleaned(input, k) != Cleaned(input, l)
    ensures !SameInEveryOrder(input)
  {
    var a := OrderEnding(input, k);
    var b := OrderEnding(input, l);
    SucceedsIff(input, a);
    SucceedsIff(input, b);
    EndingWins(input, a);
    EndingWins(input, b);
  }

  /** The result is the same in every order of the map if and only if some entry is invalid or no two
      keys trim to one key with values that do not trim to one value. */
  lemma SameInEveryOrderIff(input: Metadata)
    ensures SameInEveryOrder(input) <==> !AllValid(input) || NoClash(input)
  {
    if !AllValid(input) {
      forall a, b | IsOrder(input, a) && IsOrder(input, b) ensures Visited(input, a) == Visited(input, b) {
        SucceedsIff(input, a);
        SucceedsIff(input, b);
      }
    } else if NoClash(input) {
      forall a, b | IsOrder(input, a) && IsOrder(input, b) ensures Visited(input, a) == Visited(input, b) {
        Trims(input, a);
        Trims(input, b);
        HoldsOne(input, Visited(input, a).value, Visited(input, b).value);
      }
    } else {
      var k, l :| k in input && l in input && Cleaned(input, k).key == Cleaned(input, l).key
        && Cleaned(input, k) != Cleaned(input, l);
      ClashShows(input, k, l);
    }
  }

  /** Two keys that differ in a space do clash. */
  lemma OrderMatters()
    ensures !SameInEveryOrder(map["a" := "x", " a" := "y"])
  {
    var input := map["a" := "x", " a" := "y"];
    assert " a"[1..] == "a";
    assert Cleaned(input, "a") == Entry("a", "x") && Cleaned(input, " a") == Entry("a", "y");
    ClashShows(input, "a", " a");
  }

  // ---------------------------------------------------------------- a second time

  lemma CleanedTwice(input: Metadata, k: string)
    requires k in input
    ensures var e := Cleaned(input, k); Trim(e.key) == e.key && Trim(e.value) == e.value
  {
    TrimTrims(k);
    TrimTrims(Trim(k));
    TrimTrims(input[k]);
    TrimTrims(Trim(input[k]));
  }

  lemma NormalEntries(input: Metadata, order: seq<string>, x: string)
    requires IsOrder(input, order) && Visited(input, order).Some? && x in Visited(input, order).value
    ensures Cleaned(Visited(input, order).value, x) == Entry(x, Visited(input, order).value[x])
    ensures ValidEntry(Entry(x, Visited(input, order).value[x]))
  {
    var entries := AllCleaned(input, order);
    var i := WrittenFrom(entries, x);
    LastWins(entries, x, i);
    WrittenIff(entries);
    CleanedTwice(input, order[i]);
  }

  /** A normalised map normalises to itself, in every order. */
  lemma Idempotent(input: Metadata, order: seq<string>, again: seq<string>)
    requires IsOrder(input, order) && Visited(input, order).Some? && IsOrder(Visited(input, order).value, again)
    ensures Visited(Visited(input, order).value, again) == Visited(input, order)
  {
    var m := Visited(input, order).value;
    forall x | x in m ensures Cleaned(m, x) == Entry(x, m[x]) && ValidEntry(Entry(x, m[x])) {
      NormalEntries(input, order, x);
    }
    Trims(m, again);
    HoldsOne(m, m, Visited(m, again).value);
  }
}
