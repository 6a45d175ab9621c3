/**
 Splitting the unified entries over the eight declaration builds (tsdown.config.ts): one partition
 for the base entries, two for the plugin SDK, five for the extensions.  Name comparison
 (`localeCompare`) is a parameter; nothing below depends on what it does.
*/
module DeclarationPartition {
  import opened Wrappers
  import opened Sequences
  import opened LoadBalance

  datatype Entry = Entry(name: string, source: string)

  const SDK_PREFIX := "plugin-sdk/"
  const EXTENSION_PREFIX := "extensions/"

  const GROUP_NAMES: seq<string> := [
    "openclaw-dts-base", "openclaw-dts-plugin-sdk-1", "openclaw-dts-plugin-sdk-2",
    "openclaw-dts-extensions-1", "openclaw-dts-extensions-2", "openclaw-dts-extensions-3",
    "openclaw-dts-extensions-4", "openclaw-dts-extensions-5"]

  function UpToSlash(s: string): string {
    if s == [] || s[0] == '/' then [] else [s[0]] + UpToSlash(s[1..])
  }

  predicate IsExtension(e: Entry) {
    EXTENSION_PREFIX <= e.name
  }

  /** The second part of the name, split at slashes. */
  function ExtensionId(e: Entry): string
    requires IsExtension(e)
  {
    UpToSlash(e.name[|EXTENSION_PREFIX|..])
  }

  predicate IsSdk(e: Entry) {
    SDK_PREFIX <= e.name
  }

  predicate IsBase(e: Entry) {
    !IsSdk(e) && !IsExtension(e)
  }

  predicate Grouped(e: Entry) {
    IsExtension(e) && ExtensionId(e) != ""
  }

  /** An `extensions/` name with nothing or another slash behind it is left out of every partition. */
  predicate Kept(e: Entry) {
    "extensions/" <= e.name ==> |e.name| > |"extensions/"| && e.name[|"extensions/"|] != '/'
  }

  lemma {:induction false} KeptHasId(e: Entry)
    ensures Kept(e) <==> !IsExtension(e) || ExtensionId(e) != ""
  {
  }

  predicate BelongsTo(e: Entry, id: string) {
    Grouped(e) && ExtensionId(e) == id
  }

  lemma {:induction false} PrefixesDiffer(e: Entry)
    ensures !(IsSdk(e) && IsExtension(e))
  {
    assert IsSdk(e) ==> e.name[0] == SDK_PREFIX[0];
    assert IsExtension(e) ==> e.name[0] == EXTENSION_PREFIX[0];
  }

  // ---------------------------------------------------------------------------------------
  // The partitions as a function of the sorted entries

  /** Extension ids in the order they are first seen. */
  function Ids(entries: seq<Entry>): (ids: seq<string>)
    ensures forall i, j :: 0 <= i < j < |ids| ==> ids[i] != ids[j]
  {
    if entries == [] then [] else
      var n := |entries| - 1;
      var ids := Ids(entries[..n]);
      if Grouped(entries[n]) && ExtensionId(entries[n]) !in ids then ids + [ExtensionId(entries[n])] else ids
  }

  ghost predicate HasMember(entries: seq<Entry>, id: string) {
    exists e :: e in entries && BelongsTo(e, id)
  }

  lemma {:induction false} IdsAreSeen(entries: seq<Entry>, id: string)
    ensures id in Ids(entries) <==> HasMember(entries, id)
  {
    if entries != [] {
      var n := |entries| - 1;
      IdsAreSeen(entries[..n], id);
      assert entries == entries[..n] + [entries[n]];
      if BelongsTo(entries[n], id) {
        assert HasMember(entries, id);
      }
      if HasMember(entries[..n], id) {
        var e :| e in entries[..n] && BelongsTo(e, id);
        assert e in entries;
      }
    }
  }

  lemma {:induction false} NoMembersYet(entries: seq<Entry>, id: string)
    requires id !in Ids(entries)
    ensures Filter(entries, e => BelongsTo(e, id)) == []
  {
    IdsAreSeen(entries, id);
    var members := Filter(entries, e => BelongsTo(e, id));
    FirstIsElement(members);
  }

  lemma {:induction false} FirstIsElement<T>(s: seq<T>)
    ensures s != [] ==> s[0] in s
  {
  }

  function MembersOf(entries: seq<Entry>, ids: seq<string>): seq<seq<Entry>> {
    seq(|ids|, i requires 0 <= i < |ids| => Filter(entries, e => BelongsTo(e, ids[i])))
  }

  function Singletons<T>(s: seq<T>): seq<seq<T>> {
    seq(|s|, i requires 0 <= i < |s| => [s[i]])
  }

  function SortedIds(entries: seq<Entry>, before: (string, string) -> bool): seq<string> {
    Sort(Ids(entries), before)
  }

  /** The eight partitions for entries already in name order. */
  function Partitions(entries: seq<Entry>, before: (string, string) -> bool): (r: seq<seq<Entry>>)
    ensures |r| == 8
  {
    [Filter(entries, e => IsBase(e))]
    + Greedy(Singletons(Filter(entries, e => IsSdk(e))), 2)
    + Greedy(MembersOf(entries, SortedIds(entries, before)), 5)
  }

  datatype Build = Build(name: string, sources: seq<string>)

  function SourcesOf(partition: seq<Entry>, normalize: string -> string): seq<string> {
    seq(|partition|, j requires 0 <= j < |partition| => normalize(partition[j].source))
  }

  function BuildsOf(partitions: seq<seq<Entry>>, normalize: string -> string): seq<Build>
    requires |partitions| == 8
  {
    seq(8, i requires 0 <= i < 8 => Build(GROUP_NAMES[i], SourcesOf(partitions[i], normalize)))
  }

  // ---------------------------------------------------------------------------------------
  // The partitions as the program builds them

  ghost predicate CollectsById(byId: map<string, seq<Entry>>, ids: seq<string>, entries: seq<Entry>) {
    && ids == Ids(entries)
    && (forall id :: id in byId <==> id in ids)
    && (forall id :: id in byId ==> byId[id] == Filter(entries, e => BelongsTo(e, id)))
  }

  lemma {:induction false} SkipEntry(byId: map<string, seq<Entry>>, ids: seq<string>, entries: seq<Entry>, n: nat)
    requires n < |entries| && CollectsById(byId, ids, entries[..n]) && !Grouped(entries[n])
    ensures CollectsById(byId, ids, entries[..n + 1])
  {
    assert entries[..n + 1][..n] == entries[..n];
  }

  lemma {:induction false} AddEntry(byId: map<string, seq<Entry>>, ids: seq<string>, entries: seq<Entry>, n: nat)
    requires n < |entries| && CollectsById(byId, ids, entries[..n]) && Grouped(entries[n])
    ensures var id := ExtensionId(entries[n]);
            CollectsById(byId[id := (if id in byId then byId[id] else []) + [entries[n]]],
                         if id in byId then ids else ids + [id], entries[..n + 1])
  {
    var id := ExtensionId(entries[n]);
    assert entries[..n + 1][..n] == entries[..n];
    if id !in byId {
      NoMembersYet(entries[..n], id);
    }
  }

  /** The loop that groups extension entries by id; `ids` is the key order of the map. */
  method GroupById(entries: seq<Entry>) returns (byId: map<string, seq<Entry>>, ids: seq<string>)
    ensures CollectsById(byId, ids, entries)
  {
    byId, ids := map[], [];
    for n := 0 to |entries|
      invariant CollectsById(byId, ids, entries[..n])
    {
      hide CollectsById;
      var entry := entries[n];
      if !IsExtension(entry) {
        SkipEntry(byId, ids, entries, n);
        continue;
      }
      var extensionId := ExtensionId(entry);
      if extensionId == "" {
        SkipEntry(byId, ids, entries, n);
        continue;
      }
      AddEntry(byId, ids, entries, n);
      if extensionId !in byId {
        ids := ids + [extensionId];
      }
      byId := byId[extensionId := (if extensionId in byId then byId[extensionId] else []) + [entry]];
    }
    assert entries[..|entries|] == entries;
  }

  method BuildUnifiedDeclarationPartitions(
    entries: seq<Entry>, before: (string, string) -> bool, normalize: string -> string)
    returns (r: seq<Build>)
    ensures var partitions := Partitions(Sort(entries, (a: Entry, b: Entry) => before(a.name, b.name)), before);
            && |r| == 8
            && forall i :: 0 <= i < 8 ==>
                 && r[i].name == GROUP_NAMES[i] && |r[i].sources| == |partitions[i]|
                 && forall j :: 0 <= j < |r[i].sources| ==> r[i].sources[j] == normalize(partitions[i][j].source)
  {
    hide Greedy, Filter, Sort, Ids, BuildsOf;
    var sortedEntries := Sort(entries, (a: Entry, b: Entry) => before(a.name, b.name));
    var baseEntries := Filter(sortedEntries, e => IsBase(e));
    var pluginSdkEntries := Filter(sortedEntries, e => IsSdk(e));
    var byId, ids := GroupById(sortedEntries);
    var order := Sort(ids, before);
    SortedIdsAreIds(sortedEntries, before);
    assert order == SortedIds(sortedEntries, before);
    var groups := seq(|order|, i requires 0 <= i < |order| && order[i] in byId => byId[order[i]]);
    assert groups == MembersOf(sortedEntries, order);
    hide CollectsById, MembersOf;
    var sdkPartitions := PartitionUnifiedEntryGroups(Singletons(pluginSdkEntries), 2);
    var extensionPartitions := PartitionUnifiedEntryGroups(groups, 5);
    var partitions := [baseEntries] + sdkPartitions.value + extensionPartitions.value;
    assert partitions == Partitions(sortedEntries, before);
    hide Partitions;
    BuildsAre(partitions, normalize);
    return BuildsOf(partitions, normalize);
  }

  lemma {:induction false} BuildsAre(partitions: seq<seq<Entry>>, normalize: string -> string)
    requires |partitions| == 8
    ensures var r := BuildsOf(partitions, normalize);
            |r| == 8 && forall i :: 0 <= i < 8 ==>
              && r[i].name == GROUP_NAMES[i] && |r[i].sources| == |partitions[i]|
              && forall j :: 0 <= j < |r[i].sources| ==> r[i].sources[j] == normalize(partitions[i][j].source)
  {
  }

  // ---------------------------------------------------------------------------------------
  // Exact cover

  lemma {:induction false} SingletonsFlatten<T>(s: seq<T>)
    ensures Flatten(Singletons(s)) == s
  {
    if s != [] {
      var n := |s| - 1;
      assert Singletons(s)[..n] == Singletons(s[..n]);
      SingletonsFlatten(s[..n]);
      assert s == s[..n] + [s[n]];
    }
  }

  /** Among distinct ids, an entry is counted with its own id only. */
  lemma {:induction false} MembersCount(entries: seq<Entry>, ids: seq<string>, x: Entry)
    requires forall i, j :: 0 <= i < j < |ids| ==> ids[i] != ids[j]
    ensures multiset(Flatten(MembersOf(entries, ids)))[x]
            == if Grouped(x) && ExtensionId(x) in ids then multiset(entries)[x] else 0
  {
    if ids != [] {
      var n := |ids| - 1;
      assert MembersOf(entries, ids)[..n] == MembersOf(entries, ids[..n]);
      MembersCount(entries, ids[..n], x);
      FilterCounts(entries, e => BelongsTo(e, ids[n]), x);
      assert ids == ids[..n] + [ids[n]];
      assert Grouped(x) && ExtensionId(x) == ids[n] ==> ExtensionId(x) !in ids[..n];
    }
  }

  lemma {:induction false} SortedIdsAreIds(entries: seq<Entry>, before: (string, string) -> bool)
    ensures var ids := SortedIds(entries, before);
            && (forall id :: id in ids <==> id in Ids(entries))
            && (forall i, j :: 0 <= i < j < |ids| ==> ids[i] != ids[j])
  {
    var ids := SortedIds(entries, before);
    forall id ensures id in ids <==> id in Ids(entries) {
      assert id in ids <==> id in multiset(ids);
      assert id in Ids(entries) <==> id in multiset(Ids(entries));
    }
    SameCountsDistinct(Ids(entries), ids);
  }

  lemma {:induction false} SameCountsDistinct(a: seq<string>, b: seq<string>)
    requires multiset(a) == multiset(b) && forall i, j :: 0 <= i < j < |a| ==> a[i] != a[j]
    ensures forall i, j :: 0 <= i < j < |b| ==> b[i] != b[j]
  {
    forall i, j | 0 <= i < j < |b|
      ensures b[i] != b[j]
    {
      if b[i] == b[j] {
        assert b == b[..j] + [b[j]] + b[j + 1..];
        assert b[i] in b[..j];
        assert multiset(b)[b[i]] >= 2;
        DistinctCountsOnce(a, b[i]);
      }
    }
  }

  lemma {:induction false} DistinctCountsOnce<T>(a: seq<T>, x: T)
    requires forall i, j :: 0 <= i < j < |a| ==> a[i] != a[j]
    ensures multiset(a)[x] <= 1
  {
    if a != [] {
      var n := |a| - 1;
      DistinctCountsOnce(a[..n], x);
      assert a == a[..n] + [a[n]];
      assert a[n] !in a[..n];
    }
  }

  /** Every kept entry is there as often as in the input, every other entry not at all. */
  lemma {:induction false} PartitionsCount(entries: seq<Entry>, before: (string, string) -> bool, x: Entry)
    ensures multiset(Flatten(Partitions(entries, before)))[x] == if Kept(x) then multiset(entries)[x] else 0
  {
    hide Greedy, Filter, SortedIds, MembersOf, Singletons, UpToSlash;
    var base, sdk := Filter(entries, e => IsBase(e)), Filter(entries, e => IsSdk(e));
    var ids := SortedIds(entries, before);
    var a, b, c := [base], Greedy(Singletons(sdk), 2), Greedy(MembersOf(entries, ids), 5);
    FlattenConcat(a + b, c);
    FlattenConcat(a, b);
    assert Flatten(a) == base by { assert a[..0] == [] && [] + base == base; }
    hide Flatten;
    NothingLostOrDuplicated(Singletons(sdk), 2);
    SingletonsFlatten(sdk);
    NothingLostOrDuplicated(MembersOf(entries, ids), 5);
    SortedIdsAreIds(entries, before);
    MembersCount(entries, ids, x);
    FilterCounts(entries, e => IsBase(e), x);
    FilterCounts(entries, e => IsSdk(e), x);
    PrefixesDiffer(x);
    KeptHasId(x);
    hide Kept;
    assert x in entries <==> x in multiset(entries);
    if Grouped(x) {
      IdsAreSeen(entries, ExtensionId(x));
    }
  }

  lemma {:induction false} UpToSlashIs(id: string, rest: string)
    requires '/' !in id
    ensures UpToSlash(id) == id && UpToSlash(id + ("/" + rest)) == id
  {
    if id == [] {
      assert id + ("/" + rest) == ['/'] + rest;
    } else {
      UpToSlashIs(id[1..], rest);
      assert (id + ("/" + rest))[1..] == id[1..] + ("/" + rest);
      assert id == [id[0]] + id[1..];
    }
  }

  /** The id of an extension is what stands between the first two slashes, or behind the only one. */
  lemma {:induction false} ExtensionIdIs(id: string, rest: string, source: string)
    requires '/' !in id
    ensures var e := Entry("extensions/" + id, source); IsExtension(e) && ExtensionId(e) == id
    ensures var e := Entry("extensions/" + (id + ("/" + rest)), source); IsExtension(e) && ExtensionId(e) == id
  {
    UpToSlashIs(id, rest);
    hide UpToSlash;
    assert ("extensions/" + id)[|EXTENSION_PREFIX|..] == id;
    assert ("extensions/" + (id + ("/" + rest)))[|EXTENSION_PREFIX|..] == id + ("/" + rest);
  }

  lemma {:induction false} InGreedy<T>(groups: seq<seq<T>>, m: nat, p: nat, x: T)
    requires p < m && x in Greedy(groups, m)[p]
    ensures x in Flatten(groups)
  {
    hide Greedy, Flatten;
    InFlatten(Greedy(groups, m), p, x);
    NothingLostOrDuplicated(groups, m);
    SameElements(Flatten(Greedy(groups, m)), Flatten(groups), x);
  }

  /** Base entries land in the first partition, plugin SDK entries in the next two, extensions in the last five. */
  lemma {:induction false} PartitionsArePlaced(entries: seq<Entry>, before: (string, string) -> bool, p: nat, x: Entry)
    requires p < 8 && x in Partitions(entries, before)[p]
    ensures p == 0 <==> !("plugin-sdk/" <= x.name) && !("extensions/" <= x.name)
    ensures 1 <= p <= 2 <==> "plugin-sdk/" <= x.name
    ensures 3 <= p <==> "extensions/" <= x.name
  {
    PrefixesDiffer(x);
    var base, sdk := Filter(entries, e => IsBase(e)), Filter(entries, e => IsSdk(e));
    var groups := MembersOf(entries, SortedIds(entries, before));
    hide Greedy, Flatten, MembersOf, SortedIds, Filter;
    if 1 <= p <= 2 {
      InGreedy(Singletons(sdk), 2, p - 1, x);
      SingletonsFlatten(sdk);
    } else if p >= 3 {
      InGreedy(groups, 5, p - 3, x);
      SortedIdsAreIds(entries, before);
      MembersCount(entries, SortedIds(entries, before), x);
      assert x in multiset(Flatten(groups));
    }
  }

  ghost predicate InExactlyOne(partitions: seq<seq<Entry>>, x: Entry) {
    exists p :: 0 <= p < |partitions| && x in partitions[p]
      && forall q :: 0 <= q < |partitions| && x in partitions[q] ==> q == p
  }

  lemma {:induction false} FlattenHas<T>(ss: seq<seq<T>>, x: T) returns (p: nat)
    requires x in Flatten(ss)
    ensures p < |ss| && x in ss[p]
  {
    var n := |ss| - 1;
    if x in ss[n] {
      p := n;
    } else {
      p := FlattenHas(ss[..n], x);
    }
  }

  /** The partitions cover the kept entries exactly: with distinct names, every kept entry lands in
      one partition and no other, and nothing else lands anywhere. */
  lemma {:induction false} PartitionsAreExactCover(entries: seq<Entry>, before: (string, string) -> bool)
    requires forall i, j :: 0 <= i < j < |entries| ==> entries[i].name != entries[j].name
    ensures forall x :: x in entries && Kept(x) ==> InExactlyOne(Partitions(entries, before), x)
    ensures forall x, p :: 0 <= p < 8 && x in Partitions(entries, before)[p] ==> x in entries && Kept(x)
  {
    var partitions := Partitions(entries, before);
    hide Partitions, Flatten;
    forall x | x in entries && Kept(x)
      ensures InExactlyOne(partitions, x)
    {
      PartitionsCount(entries, before, x);
      DistinctCountsOnce(entries, x);
      assert x in multiset(entries);
      assert x in multiset(Flatten(partitions));
      var p := FlattenHas(partitions, x);
      forall q | 0 <= q < |partitions| && x in partitions[q]
        ensures q == p
      {
        if p < q { InTwoParts(partitions, p, q, x); }
        if q < p { InTwoParts(partitions, q, p, x); }
      }
    }
    forall x, p | 0 <= p < 8 && x in partitions[p]
      ensures x in entries && Kept(x)
    {
      InFlatten(partitions, p, x);
      assert x in multiset(Flatten(partitions));
      PartitionsCount(entries, before, x);
      assert x in multiset(entries);
    }
  }

  lemma {:induction false} GroupStaysWhole<T>(groups: seq<seq<T>>, choices: seq<nat>, i: nat, x: T)
    requires |choices| == |groups| && i < |groups| && x in groups[i]
    ensures x in Collected(groups, choices, choices[i])
  {
    if i < |groups| - 1 {
      GroupStaysWhole(groups[..|groups| - 1], choices[..|groups| - 1], i, x);
    }
  }

  lemma {:induction false} ExtensionPartition(entries: seq<Entry>, before: (string, string) -> bool, c: nat)
    requires c < 5
    ensures Partitions(entries, before)[3 + c] == Greedy(MembersOf(entries, SortedIds(entries, before)), 5)[c]
  {
    hide Greedy, Filter, Sort, Ids;
  }

  lemma {:induction false} GroupOfId(entries: seq<Entry>, before: (string, string) -> bool, id: string) returns (i: nat)
    requires HasMember(entries, id)
    ensures i < |SortedIds(entries, before)| && SortedIds(entries, before)[i] == id
  {
    SortedIdsAreIds(entries, before);
    IdsAreSeen(entries, id);
    var ids := SortedIds(entries, before);
    i :| 0 <= i < |ids| && ids[i] == id;
  }

  /** All entries of one extension land in the same partition, one of the last five. */
  lemma {:induction false} ExtensionStaysTogether(entries: seq<Entry>, before: (string, string) -> bool,
                                                  id: string) returns (p: nat)
    requires HasMember(entries, id)
    ensures 3 <= p < 8
    ensures forall e :: e in entries && BelongsTo(e, id) ==> e in Partitions(entries, before)[p]
  {
    hide Greedy, Choices, Collected, SortedIds, Partitions;
    var i := GroupOfId(entries, before, id);
    var groups := MembersOf(entries, SortedIds(entries, before));
    var choices := Choices(groups, 5);
    p := 3 + choices[i];
    PartitionsAreWholeGroups(groups, 5, choices[i]);
    ExtensionPartition(entries, before, choices[i]);
    forall e | e in entries && BelongsTo(e, id)
      ensures e in Partitions(entries, before)[p]
    {
      GroupStaysWhole(groups, choices, i, e);
    }
  }
}
