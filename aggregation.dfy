/**
 * The aggregation loop of `loadAndDisplayStats`: the loaded records are
 * accumulated per folder (first path segment) and into three grand totals.
 *
 * The specification functions below describe the result by prefixes of the
 * input (each is defined by peeling off the last record), which is how the
 * loop builds it; the lemmas give it its meaning: folder sums, grand totals,
 * a partition of the records, and folders in first-seen order.
 */
module Aggregation {
  import opened Records

  /** A folder's accumulated counts and its files, in input order. */
  datatype FolderGroup = FolderGroup(name: string, stats: Counts, files: seq<FileEntry>)

  /** The result of one load: folders in first-seen order and the grand totals. */
  datatype Snapshot = Snapshot(groups: seq<FolderGroup>, totals: Counts)

  /** One accumulator of the `folderStats` dictionary. */
  datatype FolderAcc = FolderAcc(stats: Counts, files: seq<FileEntry>)

  /** Some record of `data` has folder key `k`. */
  ghost predicate HasKey(data: seq<Record>, k: string) {
    exists i :: 0 <= i < |data| && Key(data[i]) == k
  }

  /** Some record of `data` before index `m` has folder key `k`. */
  ghost predicate SeenBefore(data: seq<Record>, k: string, m: int) {
    exists n :: 0 <= n < m && n < |data| && Key(data[n]) == k
  }

  /** The distinct folder keys of `data`, in the order they first occur. */
  function FolderOrder(data: seq<Record>): (order: seq<string>) {
    if data == [] then []
    else
      var order := FolderOrder(data[..|data| - 1]);
      var k := Key(data[|data| - 1]);
      if k in order then order else order + [k]
  }

  /** The folder order lists each folder key of the records, and each once. */
  lemma {:induction false} FolderOrderKeys(data: seq<Record>)
    ensures Distinct(FolderOrder(data))
    ensures forall k :: k in FolderOrder(data) <==> HasKey(data, k)
  {
    if data != [] {
      var init := data[..|data| - 1];
      var last := data[|data| - 1];
      FolderOrderKeys(init);
      forall k | HasKey(data, k) ensures HasKey(init, k) || k == Key(last) {
        var i :| 0 <= i < |data| && Key(data[i]) == k;
        if i < |data| - 1 { assert init[i] == data[i]; }
      }
      forall k | HasKey(init, k) ensures HasKey(data, k) {
        var i :| 0 <= i < |init| && Key(init[i]) == k;
        assert data[i] == init[i];
      }
    }
  }

  /** The entries of the records with folder key `k`, in input order. */
  function FilesOf(data: seq<Record>, k: string): seq<FileEntry> {
    if data == [] then []
    else
      var last := data[|data| - 1];
      FilesOf(data[..|data| - 1], k) + (if Key(last) == k then [Entry(last)] else [])
  }

  /** The sum of the counts of some file entries. */
  function SumFiles(files: seq<FileEntry>): Counts {
    if files == [] then Zero()
    else SumFiles(files[..|files| - 1]).Plus(files[|files| - 1].stats)
  }

  /** The sum of the counts of all records. */
  function TotalOf(data: seq<Record>): Counts {
    if data == [] then Zero()
    else TotalOf(data[..|data| - 1]).Plus(data[|data| - 1].stats)
  }

  /** The folder group with key `k`. */
  function GroupOf(data: seq<Record>, k: string): (g: FolderGroup) {
    var files := FilesOf(data, k);
    FolderGroup(k, SumFiles(files), files)
  }

  /** The folder groups for the given keys, in the keys' order. */
  function GroupsOf(data: seq<Record>, keys: seq<string>): (groups: seq<FolderGroup>)
    ensures |groups| == |keys|
  {
    if keys == [] then []
    else GroupsOf(data, keys[..|keys| - 1]) + [GroupOf(data, keys[|keys| - 1])]
  }

  /** The folder list of a load, as the page emits it. */
  function Grouped(data: seq<Record>): seq<FolderGroup> {
    GroupsOf(data, FolderOrder(data))
  }

  /** The sum of the folder counts. */
  function SumGroups(groups: seq<FolderGroup>): Counts {
    if groups == [] then Zero()
    else SumGroups(groups[..|groups| - 1]).Plus(groups[|groups| - 1].stats)
  }

  /** The number of file entries over all folders. */
  function FileCount(groups: seq<FolderGroup>): nat {
    if groups == [] then 0
    else FileCount(groups[..|groups| - 1]) + |groups[|groups| - 1].files|
  }

  /**
   * The loop state after the records `seen`: the dictionary's keys are the
   * folders seen so far, in first-seen order, and each entry holds that
   * folder's files and their sum.
   */
  ghost predicate Accumulated(seen: seq<Record>, folderStats: map<string, FolderAcc>, keys: seq<string>) {
    && keys == FolderOrder(seen)
    && (forall k :: k in folderStats <==> k in keys)
    && (forall k :: k in folderStats ==>
         folderStats[k].files == FilesOf(seen, k) && folderStats[k].stats == SumFiles(folderStats[k].files))
  }

  /** Record `i` joins the file list of its own folder and no other. */
  lemma FilesStep(data: seq<Record>, i: int, k: string)
    requires 0 <= i < |data|
    ensures FilesOf(data[..i + 1], k) ==
      FilesOf(data[..i], k) + (if Key(data[i]) == k then [Entry(data[i])] else [])
  {
    assert data[..i + 1][..i] == data[..i];
  }

  /** Record `i` extends the folder order exactly when its folder is new. */
  lemma OrderStep(data: seq<Record>, i: int)
    requires 0 <= i < |data|
    ensures FolderOrder(data[..i + 1]) ==
      if Key(data[i]) in FolderOrder(data[..i]) then FolderOrder(data[..i]) else FolderOrder(data[..i]) + [Key(data[i])]
  {
    assert data[..i + 1][..i] == data[..i];
  }

  /**
   * Updating the entry of record `i`'s folder to `acc`, when `acc` is up to
   * date, brings the loop state to one more record.
   */
  lemma Advance(data: seq<Record>, i: int, folderStats: map<string, FolderAcc>, acc: FolderAcc, keys: seq<string>)
    requires 0 <= i < |data|
    requires forall k :: k in folderStats ==>
      folderStats[k].files == FilesOf(data[..i], k) && folderStats[k].stats == SumFiles(folderStats[k].files)
    requires acc.files == FilesOf(data[..i + 1], Key(data[i])) && acc.stats == SumFiles(acc.files)
    requires keys == FolderOrder(data[..i + 1])
    requires forall k :: k in folderStats || k == Key(data[i]) <==> k in keys
    ensures Accumulated(data[..i + 1], folderStats[Key(data[i]) := acc], keys)
  {
    var m := folderStats[Key(data[i]) := acc];
    forall k | k in m
      ensures m[k].files == FilesOf(data[..i + 1], k) && m[k].stats == SumFiles(m[k].files)
    {
      if k != Key(data[i]) {
        assert m[k] == folderStats[k];
        FilesStep(data, i, k);
      }
    }
  }

  /** The first record of a folder starts that folder's file list. */
  lemma FirstFile(data: seq<Record>, i: int)
    requires 0 <= i < |data| && Key(data[i]) !in FolderOrder(data[..i])
    ensures FilesOf(data[..i + 1], Key(data[i])) == [Entry(data[i])]
  {
    FolderOrderKeys(data[..i]);
    NoKeyNoFiles(data[..i], Key(data[i]));
    FilesStep(data, i, Key(data[i]));
  }

  /** Creating the entry of an unseen folder, and then accumulating record `i` into it. */
  lemma AccumulateNew(data: seq<Record>, i: int, folderStats: map<string, FolderAcc>, keys: seq<string>)
    requires 0 <= i < |data| && Accumulated(data[..i], folderStats, keys)
    requires Key(data[i]) !in folderStats
    ensures Accumulated(data[..i + 1],
      folderStats[Key(data[i]) := FolderAcc(Zero().Plus(data[i].stats), [] + [Entry(data[i])])],
      keys + [Key(data[i])])
  {
    var r, k := data[i], Key(data[i]);
    var files := [] + [Entry(r)];
    var acc := FolderAcc(Zero().Plus(r.stats), files);
    OrderStep(data, i);
    FirstFile(data, i);
    assert acc.stats == SumFiles(acc.files) by {
      assert files[..0] == [];
    }
    Advance(data, i, folderStats, acc, keys + [k]);
  }

  /** Accumulating record `i` into the entry of a folder seen before. */
  lemma AccumulateSeen(data: seq<Record>, i: int, folderStats: map<string, FolderAcc>, keys: seq<string>)
    requires 0 <= i < |data| && Accumulated(data[..i], folderStats, keys)
    requires Key(data[i]) in folderStats
    ensures Accumulated(data[..i + 1],
      folderStats[Key(data[i]) := FolderAcc(folderStats[Key(data[i])].stats.Plus(data[i].stats),
                                            folderStats[Key(data[i])].files + [Entry(data[i])])],
      keys)
  {
    var r, k := data[i], Key(data[i]);
    var files := folderStats[k].files + [Entry(r)];
    var acc := FolderAcc(folderStats[k].stats.Plus(r.stats), files);
    OrderStep(data, i);
    assert acc.files == FilesOf(data[..i + 1], k) by {
      FilesStep(data, i, k);
    }
    assert acc.stats == SumFiles(acc.files) by {
      assert files[..|files| - 1] == folderStats[k].files;
    }
    Advance(data, i, folderStats, acc, keys);
  }

  /**
   * The aggregation loop: accumulate each record into its folder's entry of
   * a dictionary (created on first sight) and into the grand totals, then
   * list the dictionary's entries in insertion order.
   */
  method Aggregate(data: seq<Record>) returns (s: Snapshot)
    ensures s == Snapshot(Grouped(data), TotalOf(data))
    ensures SumGroups(s.groups) == s.totals
    ensures FileCount(s.groups) == |data|
  {
    var folderStats, keys, totals := Accumulate(data);
    var groups := Entries(data, folderStats, keys);
    s := Snapshot(groups, totals);
    GrandTotals(data);
  }

  /** The first half of the loop: the dictionary, its insertion order, and the three totals. */
  method Accumulate(data: seq<Record>) returns (folderStats: map<string, FolderAcc>, keys: seq<string>, totals: Counts)
    ensures Accumulated(data, folderStats, keys)
    ensures totals == TotalOf(data)
  {
    folderStats, keys := map[], [];
    var totalTranslated, totalFuzzy, totalUntranslated := 0, 0, 0;
    var i := 0;
    while i < |data|
      invariant 0 <= i <= |data|
      invariant Accumulated(data[..i], folderStats, keys)
      invariant Counts(totalTranslated, totalFuzzy, totalUntranslated) == TotalOf(data[..i])
    {
      var item := data[i];
      var folder := Key(item);
      if folder !in folderStats {
        AccumulateNew(data, i, folderStats, keys);
        folderStats := folderStats[folder := FolderAcc(Zero(), [])];
        keys := keys + [folder];
      } else {
        AccumulateSeen(data, i, folderStats, keys);
      }
      var acc := folderStats[folder];
      folderStats := folderStats[folder := FolderAcc(acc.stats.Plus(item.stats), acc.files + [Entry(item)])];
      TotalOfStep(data, i);
      totalTranslated := totalTranslated + item.stats.translated;
      totalFuzzy := totalFuzzy + item.stats.fuzzy;
      totalUntranslated := totalUntranslated + item.stats.untranslated;
      i := i + 1;
    }
    assert data[..i] == data;
    totals := Counts(totalTranslated, totalFuzzy, totalUntranslated);
  }

  /** `Object.entries(folderStats).map(...)`: the dictionary's entries as folder groups, in insertion order. */
  method Entries(data: seq<Record>, folderStats: map<string, FolderAcc>, keys: seq<string>) returns (groups: seq<FolderGroup>)
    requires Accumulated(data, folderStats, keys)
    ensures groups == Grouped(data)
  {
    groups := [];
    var j := 0;
    while j < |keys|
      invariant 0 <= j <= |keys|
      invariant groups == GroupsOf(data, keys[..j])
    {
      var folder := keys[j];
      var acc := folderStats[folder];
      assert keys[..j + 1][..j] == keys[..j];
      groups := groups + [FolderGroup(folder, acc.stats, acc.files)];
      j := j + 1;
    }
    assert keys[..j] == keys;
  }

  /** One more record adds its counts to the running totals. */
  lemma TotalOfStep(data: seq<Record>, i: int)
    requires 0 <= i < |data|
    ensures TotalOf(data[..i + 1]) == TotalOf(data[..i]).Plus(data[i].stats)
  {
    assert data[..i + 1][..i] == data[..i];
  }

  /** A key that no record has collects no files. */
  lemma {:induction false} NoKeyNoFiles(data: seq<Record>, k: string)
    requires !HasKey(data, k)
    ensures FilesOf(data, k) == []
  {
    if data != [] {
      var init := data[..|data| - 1];
      forall i | 0 <= i < |init| ensures Key(init[i]) != k {
        assert data[i] == init[i];
      }
      NoKeyNoFiles(init, k);
    }
  }

  lemma SumGroupsSnoc(groups: seq<FolderGroup>, g: FolderGroup)
    ensures SumGroups(groups + [g]) == SumGroups(groups).Plus(g.stats)
    ensures FileCount(groups + [g]) == FileCount(groups) + |g.files|
  {
    assert (groups + [g])[..|groups|] == groups;
  }

  /** The last record leaves the groups of other keys as they were. */
  lemma GroupOfOther(data: seq<Record>, k: string)
    requires data != [] && Key(data[|data| - 1]) != k
    ensures GroupOf(data, k) == GroupOf(data[..|data| - 1], k)
  {
    var files := FilesOf(data[..|data| - 1], k);
    assert FilesOf(data, k) == files + [];
    assert files + [] == files;
  }

  /** The last record adds its entry and its counts to the group of its own key. */
  lemma GroupOfOwn(data: seq<Record>)
    requires data != []
    ensures var r := data[|data| - 1];
      GroupOf(data, Key(r)).files == GroupOf(data[..|data| - 1], Key(r)).files + [Entry(r)] &&
      GroupOf(data, Key(r)).stats == GroupOf(data[..|data| - 1], Key(r)).stats.Plus(r.stats)
  {
    var r := data[|data| - 1];
    var files := FilesOf(data[..|data| - 1], Key(r));
    assert (files + [Entry(r)])[..|files|] == files;
  }

  /** Groups over keys other than that of the last record do not change. */
  lemma {:induction false} GroupsUnchanged(data: seq<Record>, keys: seq<string>)
    requires data != [] && Key(data[|data| - 1]) !in keys
    ensures GroupsOf(data, keys) == GroupsOf(data[..|data| - 1], keys)
  {
    if keys != [] {
      var init := keys[..|keys| - 1];
      assert keys == init + [keys[|keys| - 1]];
      GroupsUnchanged(data, init);
      GroupOfOther(data, keys[|keys| - 1]);
    }
  }

  /** No two of `keys` are equal. */
  ghost predicate Distinct(keys: seq<string>) {
    forall i, j :: 0 <= i < j < |keys| ==> keys[i] != keys[j]
  }

  /** Splitting distinct keys into the initial ones and the last one. */
  lemma DistinctSplit(keys: seq<string>, key: string)
    requires Distinct(keys) && key in keys
    ensures Distinct(keys[..|keys| - 1])
    ensures key == keys[|keys| - 1] ==> key !in keys[..|keys| - 1]
    ensures key != keys[|keys| - 1] ==> key in keys[..|keys| - 1]
  {
    var init := keys[..|keys| - 1];
    assert keys == init + [keys[|keys| - 1]];
  }

  /** Over distinct keys holding the last record's own, that record adds its counts. */
  lemma {:induction false} GroupsGain(data: seq<Record>, keys: seq<string>)
    requires data != [] && Distinct(keys) && Key(data[|data| - 1]) in keys
    ensures SumGroups(GroupsOf(data, keys)) == SumGroups(GroupsOf(data[..|data| - 1], keys)).Plus(data[|data| - 1].stats)
  {
    var prev, r := data[..|data| - 1], data[|data| - 1];
    var init, k := keys[..|keys| - 1], keys[|keys| - 1];
    DistinctSplit(keys, Key(r));
    var sumNew, sumOld := SumGroups(GroupsOf(data, init)), SumGroups(GroupsOf(prev, init));
    var gNew, gOld := GroupOf(data, k).stats, GroupOf(prev, k).stats;
    assert SumGroups(GroupsOf(data, keys)) == sumNew.Plus(gNew) by {
      SumGroupsSnoc(GroupsOf(data, init), GroupOf(data, k));
    }
    assert SumGroups(GroupsOf(prev, keys)) == sumOld.Plus(gOld) by {
      SumGroupsSnoc(GroupsOf(prev, init), GroupOf(prev, k));
    }
    if Key(r) == k {
      assert sumNew == sumOld by { GroupsUnchanged(data, init); }
      assert gNew == gOld.Plus(r.stats) by { GroupOfOwn(data); }
      PlusAssoc(sumOld, gOld, r.stats);
    } else {
      assert sumNew == sumOld.Plus(r.stats) by { GroupsGain(data, init); }
      assert gNew == gOld by { GroupOfOther(data, k); }
      PlusSwap(sumOld, r.stats, gOld);
    }
  }

  /** Over distinct keys holding the last record's own, that record adds one entry. */
  lemma {:induction false} GroupsGainEntry(data: seq<Record>, keys: seq<string>)
    requires data != [] && Distinct(keys) && Key(data[|data| - 1]) in keys
    ensures FileCount(GroupsOf(data, keys)) == FileCount(GroupsOf(data[..|data| - 1], keys)) + 1
  {
    var prev, r := data[..|data| - 1], data[|data| - 1];
    var init, k := keys[..|keys| - 1], keys[|keys| - 1];
    DistinctSplit(keys, Key(r));
    SumGroupsSnoc(GroupsOf(data, init), GroupOf(data, k));
    SumGroupsSnoc(GroupsOf(prev, init), GroupOf(prev, k));
    if Key(r) == k {
      GroupsUnchanged(data, init);
      GroupOfOwn(data);
    } else {
      GroupsGainEntry(data, init);
      GroupOfOther(data, k);
    }
  }

  /** The last record belongs to a folder seen before: that folder gains it. */
  lemma SeenFolderStep(data: seq<Record>)
    requires data != [] && Key(data[|data| - 1]) in FolderOrder(data[..|data| - 1])
    ensures Grouped(data) == GroupsOf(data, FolderOrder(data[..|data| - 1]))
    ensures SumGroups(Grouped(data)) == SumGroups(Grouped(data[..|data| - 1])).Plus(data[|data| - 1].stats)
    ensures FileCount(Grouped(data)) == FileCount(Grouped(data[..|data| - 1])) + 1
  {
    var order := FolderOrder(data[..|data| - 1]);
    assert Distinct(order) by { FolderOrderKeys(data[..|data| - 1]); }
    GroupsGain(data, order);
    GroupsGainEntry(data, order);
  }

  /** The last record opens a new folder: its group is appended to the others, which stay as they were. */
  lemma NewFolderGroups(data: seq<Record>)
    requires data != [] && Key(data[|data| - 1]) !in FolderOrder(data[..|data| - 1])
    ensures Grouped(data) ==
      GroupsOf(data[..|data| - 1], FolderOrder(data[..|data| - 1])) + [GroupOf(data, Key(data[|data| - 1]))]
  {
    var prev, k := data[..|data| - 1], Key(data[|data| - 1]);
    var order := FolderOrder(prev);
    var full := order + [k];
    assert Grouped(data) == GroupsOf(data, full);
    assert full[..|order|] == order;
    GroupsUnchanged(data, order);
  }

  /** The group a new folder opens holds the last record alone. */
  lemma NewFolderGroup(data: seq<Record>)
    requires data != [] && Key(data[|data| - 1]) !in FolderOrder(data[..|data| - 1])
    ensures GroupOf(data, Key(data[|data| - 1])).stats == data[|data| - 1].stats
    ensures |GroupOf(data, Key(data[|data| - 1])).files| == 1
  {
    var prev, k := data[..|data| - 1], Key(data[|data| - 1]);
    FolderOrderKeys(prev);
    NoKeyNoFiles(prev, k);
    GroupOfOwn(data);
  }

  /** The last record opens a new folder: a group holding only it is appended. */
  lemma NewFolderStep(data: seq<Record>)
    requires data != [] && Key(data[|data| - 1]) !in FolderOrder(data[..|data| - 1])
    ensures SumGroups(Grouped(data)) == SumGroups(Grouped(data[..|data| - 1])).Plus(data[|data| - 1].stats)
    ensures FileCount(Grouped(data)) == FileCount(Grouped(data[..|data| - 1])) + 1
  {
    NewFolderGroups(data);
    NewFolderGroup(data);
    var prev := data[..|data| - 1];
    SumGroupsSnoc(GroupsOf(prev, FolderOrder(prev)), GroupOf(data, Key(data[|data| - 1])));
  }

  /**
   * The folder sums add up to the grand totals, and the folders' file lists
   * hold exactly as many entries as there are records.
   */
  lemma {:induction false} GrandTotals(data: seq<Record>)
    ensures SumGroups(Grouped(data)) == TotalOf(data)
    ensures FileCount(Grouped(data)) == |data|
  {
    if data != [] {
      GrandTotals(data[..|data| - 1]);
      if Key(data[|data| - 1]) in FolderOrder(data[..|data| - 1]) {
        SeenFolderStep(data);
      } else {
        NewFolderStep(data);
      }
    }
  }

  /** Every record's entry is in the file list of the group named by its key. */
  lemma {:induction false} RecordInItsFolder(data: seq<Record>, m: nat)
    requires m < |data|
    ensures Key(data[m]) in FolderOrder(data)
    ensures Entry(data[m]) in FilesOf(data, Key(data[m]))
    ensures forall k :: k != Key(data[m]) ==> |FilesOf(data[..m + 1], k)| == |FilesOf(data[..m], k)|
  {
    assert HasKey(data, Key(data[m]));
    FolderOrderKeys(data);
    var prefix := data[..m + 1];
    assert prefix[..m] == data[..m];
    EntryInPrefix(data, m + 1, Key(data[m]));
  }

  /** The file list of a prefix is a prefix of the file list. */
  lemma {:induction false} EntryInPrefix(data: seq<Record>, n: nat, k: string)
    requires 0 < n <= |data| && Key(data[n - 1]) == k
    ensures Entry(data[n - 1]) in FilesOf(data, k)
    decreases |data|
  {
    var init := data[..|data| - 1];
    if n == |data| {
      assert FilesOf(data, k) == FilesOf(init, k) + [Entry(data[n - 1])];
    } else {
      assert init[n - 1] == data[n - 1];
      EntryInPrefix(init, n, k);
    }
  }

  /**
   * Folders appear in first-seen order: wherever a record of a later folder
   * occurs, a record of every earlier folder has occurred before it.
   */
  lemma {:induction false} FirstSeenOrder(data: seq<Record>)
    ensures forall i, j, m :: 0 <= i < j < |FolderOrder(data)| && 0 <= m < |data| && Key(data[m]) == FolderOrder(data)[j]
              ==> SeenBefore(data, FolderOrder(data)[i], m)
  {
    if data != [] {
      var init := data[..|data| - 1];
      var r := data[|data| - 1];
      var order := FolderOrder(init);
      var full := FolderOrder(data);
      FirstSeenOrder(init);
      FolderOrderKeys(init);
      forall i, j, m | 0 <= i < j < |full| && 0 <= m < |data| && Key(data[m]) == full[j]
        ensures SeenBefore(data, full[i], m)
      {
        assert full[i] == order[i];
        if m < |init| {
          assert init[m] == data[m];
          assert HasKey(init, full[j]);
          assert j < |order|;
          {
            assert full[j] == order[j];
            assert SeenBefore(init, order[i], m);
            var n :| 0 <= n < m && n < |init| && Key(init[n]) == order[i];
            assert data[n] == init[n];
          }
        } else {
          assert HasKey(init, order[i]);
          var n :| 0 <= n < |init| && Key(init[n]) == order[i];
          assert data[n] == init[n];
        }
      }
    }
  }
}
