/** The plan of policy refreshes (internal/authz/policy_refresh.go). */
module RefreshPlan {

  import opened Wrappers
  import opened Sequences
  import opened Text
  import opened Sorting
  import opened Normalization
  import opened PolicyInput
  import opened PolicySources
  import opened PolicyRecords

  datatype Action = RefreshNow | RefreshLater | Skip

  datatype Reason = RecordMissing | RecordExpired | RecordStale | RecordFresh

  datatype Item = Item(
    source: Source, cacheKey: string, action: Action, reason: Reason, nextCheckAt: int,
    recordState: Option<State>, recordVersion: string)

  function ActionRank(action: Action): nat {
    match action
    case RefreshNow => 0
    case RefreshLater => 1
    case Skip => 2
  }

  predicate ItemLess(a: Item, b: Item) {
    if a.action != b.action then ActionRank(a.action) < ActionRank(b.action)
    else if a.nextCheckAt != b.nextCheckAt then a.nextCheckAt < b.nextCheckAt
    else Less(a.cacheKey, b.cacheKey)
  }

  lemma ItemOrder()
    ensures StrictOrder(ItemLess)
    ensures forall x: Item, y: Item :: x.cacheKey != y.cacheKey ==> ItemLess(x, y) || ItemLess(y, x)
  {
    forall x ensures !ItemLess(x, x) {
      LessIrreflexive(x.cacheKey);
    }
    forall x, y, z | ItemLess(x, y) && ItemLess(y, z) ensures ItemLess(x, z) {
      ChainTransitive(x.cacheKey, y.cacheKey, z.cacheKey);
    }
    forall x: Item, y: Item | x.cacheKey != y.cacheKey ensures ItemLess(x, y) || ItemLess(y, x) {
      LessTotal(x.cacheKey, y.cacheKey);
    }
  }

  function NextCheck(record: Record, now: int): int {
    if record.expiresAt > 0 then record.expiresAt else if now > 0 then now else 0
  }

  /** The item for a source whose key is `key`, given the record found under it. */
  function ItemFor(source: Source, key: string, found: Option<Record>, now: int, window: int): Item {
    match found
    case None => Item(source, key, RefreshNow, RecordMissing, now, None, "")
    case Some(r) =>
      match r.state
      case Expired => Item(source, key, RefreshNow, RecordExpired, now, Some(r.state), r.version)
      case Stale => Item(source, key, RefreshNow, RecordStale, now, Some(r.state), r.version)
      case Fresh =>
        if r.expiresAt > 0 && r.expiresAt - now <= window then
          Item(source, key, RefreshLater, RecordFresh, r.expiresAt, Some(r.state), r.version)
        else Item(source, key, Skip, RecordFresh, NextCheck(r, now), Some(r.state), r.version)
  }

  /** The record under a key. */
  function RecordAt(records: seq<Record>, key: string): Option<Record> {
    Lookup(RecordKey, records, key)
  }

  /** The item for a source; none when the source has no key. */
  function NextItem(env: Env, records: seq<Record>, now: int, window: int, source: Source): Option<Item> {
    var key := CacheKey(env, source);
    if key == "" then None else Some(ItemFor(source, key, RecordAt(records, key), now, window))
  }

  function ItemOf(env: Env, records: seq<Record>, now: int, window: int): Source -> Option<Item> {
    (source: Source) => NextItem(env, records, now, window, source)
  }

  function ItemsFor(env: Env, records: seq<Record>, now: int, window: int, sources: seq<Source>): Option<seq<Item>> {
    Collect(ItemOf(env, records, now, window), sources)
  }

  function Planned(env: Env, sources: seq<Source>, records: seq<Record>, now: int, window: int): Option<seq<Item>> {
    var normalSources := NormalForm(SourceScheme(env.lib), sources);
    var normalRecords := NormalForm(RecordScheme(env, now), records);
    if now < 0 || window < 0 || !normalSources.Normal? || !normalRecords.Normal? then None
    else
      var items :- ItemsFor(env, normalRecords.items, now, window, normalSources.items);
      Some(SortBy(ItemLess, items))
  }

  /** `byKey` holds the given records under their keys. */
  ghost predicate ByKey(byKey: map<string, Record>, records: seq<Record>) {
    forall key ::
      && (key in byKey <==> RecordAt(records, key).Some?)
      && (key in byKey ==> RecordAt(records, key) == Some(byKey[key]))
  }

  lemma IndexIsByKey(byKey: map<string, Record>, records: seq<Record>)
    requires UniqueKeys(RecordKey, records) && Indexes(RecordKey, byKey, records)
    ensures ByKey(byKey, records)
  {
    forall k: string
      ensures k in byKey <==> RecordAt(records, k).Some?
      ensures k in byKey ==> RecordAt(records, k) == Some(byKey[k])
    {
      LookupFinds(RecordKey, records, k);
      if k in byKey {
        LookupIs(RecordKey, records, byKey[k]);
      }
    }
  }

  method IndexByKey(records: seq<Record>) returns (byKey: map<string, Record>)
    requires UniqueKeys(RecordKey, records)
    ensures ByKey(byKey, records)
  {
    byKey := map[];
    for i := 0 to |records|
      invariant Indexes(RecordKey, byKey, records[..i])
    {
      assert forall j :: 0 <= j < i ==> RecordKey(records[j]) != RecordKey(records[i]);
      byKey := byKey[records[i].cacheKey := records[i]];
    }
    assert records[..|records|] == records;
    IndexIsByKey(byKey, records);
  }

  method BuildItems(
      env: Env, ghost records: seq<Record>, byKey: map<string, Record>, now: int, window: int, sources: seq<Source>)
    returns (r: Option<seq<Item>>)
    requires ByKey(byKey, records)
    ensures r == ItemsFor(env, records, now, window, sources)
  {
    ghost var f := ItemOf(env, records, now, window);
    var items: seq<Item> := [];
    for i := 0 to |sources|
      invariant Collect(f, sources[..i]) == Some(items)
    {
      var key := CacheKey(env, sources[i]);
      if key == "" {
        CollectFails(f, sources, i);
        return None;
      }
      CollectNext(f, sources, i);
      var found := if key in byKey then Some(byKey[key]) else None;
      items := items + [ItemFor(sources[i], key, found, now, window)];
    }
    assert sources[..|sources|] == sources;
    r := Some(items);
  }

  method BuildPolicyRefreshPlan(env: Env, sources: seq<Source>, records: seq<Record>, now: int, window: int)
    returns (plan: Option<seq<Item>>)
    ensures plan == Planned(env, sources, records, now, window)
  {
    if now < 0 || window < 0 {
      return None;
    }
    var normalSources := NormalizePolicySources(env.lib, sources);
    if !normalSources.Normal? {
      return None;
    }
    var normalRecords := NormalizePolicyCacheRecords(env, records, now);
    if !normalRecords.Normal? {
      return None;
    }
    RecordKeysUnique(env, records, now);
    var byKey := IndexByKey(normalRecords.items);
    var items := BuildItems(env, normalRecords.items, byKey, now, window, normalSources.items);
    plan := if items.Some? then Some(SortBy(ItemLess, items.value)) else None;
  }

  lemma RecordKeysUnique(env: Env, records: seq<Record>, now: int)
    requires NormalForm(RecordScheme(env, now), records).Normal?
    ensures UniqueKeys(RecordKey, NormalForm(RecordScheme(env, now), records).items)
  {
    var sch := RecordScheme(env, now);
    RecordsLawful(env, now);
    NormalFormMeaning(sch, records);
  }

  // ---------------------------------------------------------------- what the plan says

  function SourceOf(item: Item): Source {
    item.source
  }

  function SourcesOf(items: seq<Item>): seq<Source> {
    Map(SourceOf, items)
  }

  function ReasonFor(found: Option<Record>): Reason {
    if found.None? then RecordMissing
    else
      match found.value.state
      case Expired => RecordExpired
      case Stale => RecordStale
      case Fresh => RecordFresh
  }

  /** What an item must say of its source, given the normalised records. */
  ghost predicate Right(env: Env, records: seq<Record>, now: int, window: int, item: Item) {
    && item.cacheKey == CacheKey(env, item.source) != ""
    && var found := RecordAt(records, item.cacheKey);
    && (item.action == RefreshNow <==> found.None? || found.value.state != Fresh)
    && (item.action == RefreshLater <==>
         found.Some? && found.value.state == Fresh && now < found.value.expiresAt <= now + window)
    && item.reason == ReasonFor(found)
    && item.recordState == (if found.Some? then Some(found.value.state) else None)
    && item.recordVersion == (if found.Some? then found.value.version else "")
    && (item.action == RefreshNow ==> item.nextCheckAt == now)
    && (item.action == RefreshLater ==> item.nextCheckAt == found.value.expiresAt)
    && (item.action == Skip ==>
         item.nextCheckAt == if found.value.expiresAt > 0 then found.value.expiresAt else now)
    && now <= item.nextCheckAt
  }

  /** The states of the normalised records are those at the time of the plan. */
  lemma RecordStates(env: Env, records: seq<Record>, now: int, r: Record)
    requires NormalForm(RecordScheme(env, now), records).Normal?
    requires r in NormalForm(RecordScheme(env, now), records).items
    ensures r.state == StateAt(r.loadedAt, r.expiresAt, now)
  {
    var sch := RecordScheme(env, now);
    RecordsLawful(env, now);
    NormalFormMeaning(sch, records);
    var x :| x in records && sch.norm(x) == Some(r);
    NormalizeKeeps(env, x, now);
  }

  lemma ItemRight(env: Env, records: seq<Record>, now: int, window: int, source: Source)
    requires now >= 0 && window >= 0 && CacheKey(env, source) != ""
    requires forall r :: r in records ==> r.state == StateAt(r.loadedAt, r.expiresAt, now)
    ensures Right(env, records, now, window, NextItem(env, records, now, window, source).value)
  {
    LookupFinds(RecordKey, records, CacheKey(env, source));
  }

  lemma ItemsAre(env: Env, records: seq<Record>, now: int, window: int, sources: seq<Source>)
    ensures ItemsFor(env, records, now, window, sources).None? <==>
      exists i :: 0 <= i < |sources| && NextItem(env, records, now, window, sources[i]).None?
    ensures ItemsFor(env, records, now, window, sources).Some? ==>
      var items := ItemsFor(env, records, now, window, sources).value;
      && |items| == |sources|
      && forall i :: 0 <= i < |items| ==> NextItem(env, records, now, window, sources[i]) == Some(items[i])
  {
    CollectMeaning(ItemOf(env, records, now, window), sources);
  }

  lemma ItemSource(env: Env, records: seq<Record>, now: int, window: int, source: Source)
    ensures NextItem(env, records, now, window, source).None? <==> CacheKey(env, source) == ""
    ensures NextItem(env, records, now, window, source).Some? ==>
      var item := NextItem(env, records, now, window, source).value;
      item.source == source && item.cacheKey == CacheKey(env, source)
  {
  }

  /** The digest confuses no two keys of the sources. */
  ghost predicate KeysApart(env: Env, sources: seq<Source>) {
    forall i, j :: 0 <= i < |sources| && 0 <= j < |sources|
      && NormalizeSource(env.lib, sources[i]).Some? && NormalizeSource(env.lib, sources[j]).Some?
      ==> Apart(env.digest, KeyPreimage(NormalizeSource(env.lib, sources[i]).value),
                KeyPreimage(NormalizeSource(env.lib, sources[j]).value))
  }

  /** Normal sources with different URIs have different keys. */
  lemma KeysDiffer(env: Env, sources: seq<Source>, i: nat, j: nat)
    requires MediaTypesPlain(env.lib) && KeysApart(env, sources)
    requires i < |sources| && j < |sources| && sources[i].uri != sources[j].uri
    requires Trim(sources[i].uri) == sources[i].uri && Trim(sources[j].uri) == sources[j].uri
    requires CacheKey(env, sources[i]) != "" && CacheKey(env, sources[j]) != ""
    ensures CacheKey(env, sources[i]) != CacheKey(env, sources[j])
  {
    CacheKeys(env, sources[i], sources[j]);
    NormalUri(env.lib, sources[i]);
    NormalUri(env.lib, sources[j]);
  }

  lemma NormalUri(lib: Library, s: Source)
    requires NormalizeSource(lib, s).Some?
    ensures NormalizeSource(lib, s).value.uri == Trim(s.uri)
    ensures Trim(NormalizeSource(lib, s).value.uri) == NormalizeSource(lib, s).value.uri
  {
    TrimTrims(s.uri);
    TrimTrims(Trim(s.uri));
  }

  lemma ItemKeysUnique(env: Env, sources: seq<Source>, records: seq<Record>, now: int, window: int, items: seq<Item>)
    requires MediaTypesPlain(env.lib) && KeysApart(env, sources)
    requires forall i, j :: 0 <= i < j < |sources| ==> sources[i].uri != sources[j].uri
    requires forall i :: 0 <= i < |sources| ==> Trim(sources[i].uri) == sources[i].uri
    requires ItemsFor(env, records, now, window, sources) == Some(items)
    ensures forall i, j :: 0 <= i < j < |items| ==> items[i].cacheKey != items[j].cacheKey
  {
    ItemsAre(env, records, now, window, sources);
    forall i, j | 0 <= i < j < |items| ensures items[i].cacheKey != items[j].cacheKey {
      ItemSource(env, records, now, window, sources[i]);
      ItemSource(env, records, now, window, sources[j]);
      KeysDiffer(env, sources, i, j);
    }
  }

  /** What is due now comes first and what is skipped last; what has one action comes in the order of
      the next checks, and what has one next check in the order of the keys. */
  ghost predicate InPlanOrder(plan: seq<Item>) {
    forall i, j :: 0 <= i < j < |plan| ==>
      && (plan[j].action == RefreshNow ==> plan[i].action == RefreshNow)
      && (plan[i].action == Skip ==> plan[j].action == Skip)
      && (plan[i].action == plan[j].action ==> plan[i].nextCheckAt <= plan[j].nextCheckAt)
      && (plan[i].action == plan[j].action && plan[i].nextCheckAt == plan[j].nextCheckAt ==>
           Less(plan[i].cacheKey, plan[j].cacheKey))
  }

  lemma SortedInPlanOrder(plan: seq<Item>)
    requires Sorted(ItemLess, plan)
    ensures InPlanOrder(plan)
  {
    forall i, j | 0 <= i < j < |plan| ensures ItemLess(plan[i], plan[j]) {
    }
  }

  ghost predicate PlanIs(env: Env, sources: seq<Source>, records: seq<Record>, now: int, window: int, plan: seq<Item>) {
    && multiset(SourcesOf(plan)) == multiset(sources)
    && Sorted(ItemLess, plan) && InPlanOrder(plan)
    && forall i :: 0 <= i < |plan| ==> Right(env, records, now, window, plan[i])
  }

  /** A plan exists if and only if the times are not negative, sources and records normalise, and
      every normal source has a key.  Its items are the normal sources in another order, each with
      the action and the next check its record calls for, sorted by action, next check and key. */
  lemma PlanMeaning(env: Env, sources: seq<Source>, records: seq<Record>, now: int, window: int)
    requires MediaTypesPlain(env.lib)
    requires NormalForm(SourceScheme(env.lib), sources).Normal? ==>
      KeysApart(env, NormalForm(SourceScheme(env.lib), sources).items)
    ensures Planned(env, sources, records, now, window).Some? <==>
      && now >= 0 && window >= 0
      && NormalForm(SourceScheme(env.lib), sources).Normal?
      && NormalForm(RecordScheme(env, now), records).Normal?
      && forall s :: s in NormalForm(SourceScheme(env.lib), sources).items ==> CacheKey(env, s) != ""
    ensures Planned(env, sources, records, now, window).Some? ==>
      PlanIs(env, NormalForm(SourceScheme(env.lib), sources).items, NormalForm(RecordScheme(env, now), records).items,
             now, window, Planned(env, sources, records, now, window).value)
  {
    var ns, nr := NormalForm(SourceScheme(env.lib), sources), NormalForm(RecordScheme(env, now), records);
    if now >= 0 && window >= 0 && ns.Normal? && nr.Normal? {
      ItemsAre(env, nr.items, now, window, ns.items);
      forall i | 0 <= i < |ns.items|
        ensures NextItem(env, nr.items, now, window, ns.items[i]).None? <==> CacheKey(env, ns.items[i]) == ""
      {
        ItemSource(env, nr.items, now, window, ns.items[i]);
      }
      if Planned(env, sources, records, now, window).Some? {
        NormalUris(env.lib, sources);
        forall r | r in nr.items ensures r.state == StateAt(r.loadedAt, r.expiresAt, now) {
          RecordStates(env, records, now, r);
        }
        SortedPlan(env, ns.items, nr.items, now, window);
      }
    }
  }

  lemma NormalUris(lib: Library, sources: seq<Source>)
    requires NormalForm(SourceScheme(lib), sources).Normal?
    ensures var items := NormalForm(SourceScheme(lib), sources).items;
      && (forall i, j :: 0 <= i < j < |items| ==> items[i].uri != items[j].uri)
      && (forall i :: 0 <= i < |items| ==> Trim(items[i].uri) == items[i].uri)
  {
    SourcesContents(lib, sources);
    var items := NormalForm(SourceScheme(lib), sources).items;
    forall i | 0 <= i < |items| ensures Trim(items[i].uri) == items[i].uri {
      assert items[i] in items;
      var s :| s in sources && NormalizeSource(lib, s) == Some(items[i]);
      NormalUri(lib, s);
    }
  }

  lemma SortedItems(items: seq<Item>)
    requires forall i, j :: 0 <= i < j < |items| ==> items[i].cacheKey != items[j].cacheKey
    ensures var plan := SortBy(ItemLess, items);
      && Sorted(ItemLess, plan)
      && multiset(SourcesOf(plan)) == multiset(SourcesOf(items))
      && forall x :: x in plan <==> x in items
  {
    var plan := SortBy(ItemLess, items);
    ItemOrder();
    SortSorted(ItemLess, items);
    SortMultiset(ItemLess, items);
    MapForgetsOrder(SourceOf, plan, items);
    SameElements(plan, items);
  }

  lemma ItemsRight(env: Env, sources: seq<Source>, records: seq<Record>, now: int, window: int)
    requires now >= 0 && window >= 0
    requires forall r :: r in records ==> r.state == StateAt(r.loadedAt, r.expiresAt, now)
    requires ItemsFor(env, records, now, window, sources).Some?
    ensures var items := ItemsFor(env, records, now, window, sources).value;
      && SourcesOf(items) == sources
      && forall x :: x in items ==> Right(env, records, now, window, x)
  {
    var items := ItemsFor(env, records, now, window, sources).value;
    ItemsAre(env, records, now, window, sources);
    forall i | 0 <= i < |items|
      ensures items[i].source == sources[i] && Right(env, records, now, window, items[i])
    {
      ItemSource(env, records, now, window, sources[i]);
      ItemRight(env, records, now, window, sources[i]);
    }
  }

  lemma SortedPlan(env: Env, sources: seq<Source>, records: seq<Record>, now: int, window: int)
    requires now >= 0 && window >= 0
    requires MediaTypesPlain(env.lib) && KeysApart(env, sources)
    requires forall i, j :: 0 <= i < j < |sources| ==> sources[i].uri != sources[j].uri
    requires forall i :: 0 <= i < |sources| ==> Trim(sources[i].uri) == sources[i].uri
    requires forall r :: r in records ==> r.state == StateAt(r.loadedAt, r.expiresAt, now)
    requires ItemsFor(env, records, now, window, sources).Some?
    ensures PlanIs(env, sources, records, now, window,
                   SortBy(ItemLess, ItemsFor(env, records, now, window, sources).value))
  {
    var items := ItemsFor(env, records, now, window, sources).value;
    ItemKeysUnique(env, sources, records, now, window, items);
    SortedItems(items);
    ItemsRight(env, sources, records, now, window);
    var plan := SortBy(ItemLess, items);
    SortedInPlanOrder(plan);
    forall i | 0 <= i < |plan| ensures Right(env, records, now, window, plan[i]) {
      assert plan[i] in items;
    }
  }

  /** The plan does not depend on the order of the sources or on how often each is listed, nor on
      the order of the records when those with one key have one normal form. */
  lemma PlanForgetsOrder(
      env: Env, now: int, window: int, sources: seq<Source>, otherSources: seq<Source>,
      records: seq<Record>, otherRecords: seq<Record>)
    requires NormalSources(env.lib, sources) == NormalSources(env.lib, otherSources)
    requires forall r :: r in records <==> r in otherRecords
    requires OneNormalFormPerKey(RecordScheme(env, now), records)
    ensures Planned(env, sources, records, now, window) == Planned(env, otherSources, otherRecords, now, window)
  {
    SourcesLawful(env.lib);
    NormalSourcesAre(env.lib, sources);
    NormalSourcesAre(env.lib, otherSources);
    OrderIrrelevant(SourceScheme(env.lib), sources, otherSources);
    RecordsLawful(env, now);
    PermutationIrrelevant(RecordScheme(env, now), records, otherRecords);
  }
}
