/**
 * The page itself: the rows `addRow` appends for a load, the width of a
 * row's bar, and the state the page keeps between loads and clicks (the
 * sort spec, the last totals, the sum display and the table).
 */
module StatsPage {
  import opened Records
  import opened Aggregation
  import opened Summary
  import opened SortSpecs
  import opened Ranking

  datatype Option<T> = None | Some(value: T)

  /**
   * The sum display: the grand totals, their shares (none when there are no
   * messages at all, where the page shows `NaN`), and the changes since the
   * previous load.
   */
  datatype SumDisplay = SumDisplay(totals: Counts, shares: Option<Tenths>, deltas: Counts)

  /** The row `addRow` appends for a folder; its `data-folder` is the first segment of its name. */
  function FolderRowOf(g: FolderGroup): Row {
    Row(FolderRow, g.name, FolderKey(g.name), g.stats)
  }

  /** The row `addRow` appends for a file, named `folder/file`. */
  function FileRowOf(folder: string, f: FileEntry): Row {
    Row(FileRow, f.file, FolderKey(folder + "/" + f.file), f.stats)
  }

  /** The file rows of a folder, in the order of its file list. */
  function FileRowsOf(folder: string, files: seq<FileEntry>): (rows: seq<Row>)
    ensures |rows| == |files|
  {
    if files == [] then []
    else FileRowsOf(folder, files[..|files| - 1]) + [FileRowOf(folder, files[|files| - 1])]
  }

  /** The table a load builds: each folder's row followed by the rows of its files. */
  function TableRows(groups: seq<FolderGroup>): seq<Row> {
    if groups == [] then []
    else
      var g := groups[|groups| - 1];
      TableRows(groups[..|groups| - 1]) + [FolderRowOf(g)] + FileRowsOf(g.name, g.files)
  }

  /** The folder names of some groups, in order. */
  function Names(groups: seq<FolderGroup>): (names: seq<string>)
    ensures |names| == |groups|
  {
    seq(|groups|, i requires 0 <= i < |groups| => groups[i].name)
  }

  /** The folder rows of some groups, in order. */
  function Headers(groups: seq<FolderGroup>): (rows: seq<Row>)
    ensures |rows| == |groups|
  {
    seq(|groups|, i requires 0 <= i < |groups| => FolderRowOf(groups[i]))
  }

  /**
   * The width of a row's bar: a quarter of its total, raised to 50 when it
   * is positive but narrower, and cut at 1000.
   */
  function GraphWidth(total: int): (w: real)
    ensures total == 0 ==> w == 0.0
    ensures 0 < total < 200 ==> w == 50.0
    ensures total > 4000 ==> w == 1000.0
    ensures 200 <= total <= 4000 ==> w == total as real / 4.0
    ensures total >= 0 ==> w == 0.0 || 50.0 <= w <= 1000.0
  {
    var width := total as real / 4.0;
    var raised := if width < 50.0 && width > 0.0 then 50.0 else width;
    if raised > 1000.0 then 1000.0 else raised
  }

  /** A larger total never gets a narrower bar. */
  lemma GraphWidthMonotone(a: int, b: int)
    requires a <= b
    ensures GraphWidth(a) <= GraphWidth(b)
  {
  }

  /** A folder's own files get rows of class `file` whose `data-folder` is the folder. */
  lemma {:induction false} FileRowsOwn(folder: string, files: seq<FileEntry>)
    requires '/' !in folder
    ensures forall f :: f in FileRowsOf(folder, files) ==> f.kind == FileRow && f.folder == folder
  {
    if files != [] {
      FileRowsOwn(folder, files[..|files| - 1]);
      FolderKeyOfJoin(folder, files[|files| - 1].file);
    }
  }

  /** File rows hold no folder row. */
  lemma {:induction false} FileRowsNoFolders(folder: string, files: seq<FileEntry>)
    ensures FolderRows(FileRowsOf(folder, files)) == []
  {
    if files != [] {
      var rows := FileRowsOf(folder, files);
      FileRowsNoFolders(folder, files[..|files| - 1]);
      assert rows[..|rows| - 1] == FileRowsOf(folder, files[..|files| - 1]);
    }
  }

  /** The folder rows of the table are the groups' rows, one per group, in the groups' order. */
  lemma {:induction false} TableHeaders(groups: seq<FolderGroup>)
    ensures FolderRows(TableRows(groups)) == Headers(groups)
  {
    if groups != [] {
      var init, g := groups[..|groups| - 1], groups[|groups| - 1];
      TableHeaders(init);
      FolderRowsConcat(TableRows(init) + [FolderRowOf(g)], FileRowsOf(g.name, g.files));
      FolderRowsConcat(TableRows(init), [FolderRowOf(g)]);
      FileRowsNoFolders(g.name, g.files);
      assert [FolderRowOf(g)][..0] == [];
      assert Headers(groups) == Headers(init) + [FolderRowOf(g)];
    }
  }

  /** Groups with different names give folder rows with different titles. */
  lemma HeadersUnique(groups: seq<FolderGroup>)
    requires Distinct(Names(groups))
    ensures UniqueTitles(Headers(groups))
  {
    var h, n := Headers(groups), Names(groups);
    forall i, j | 0 <= i < j < |h| ensures h[i].title != h[j].title {
      assert h[i].title == n[i] && h[j].title == n[j];
    }
  }

  /** A folder row is titled `k` exactly when a group is named `k`. */
  lemma HeadersTitle(groups: seq<FolderGroup>, k: string)
    ensures HasTitle(Headers(groups), k) <==> k in Names(groups)
  {
    var h, n := Headers(groups), Names(groups);
    if HasTitle(h, k) {
      var f :| f in h && f.title == k;
      var i :| 0 <= i < |h| && h[i] == f;
      assert n[i] == k;
    }
    if k in n {
      var i :| 0 <= i < |n| && n[i] == k;
      assert h[i] in h && h[i].title == k;
    }
  }

  /** The file rows for `k` of one more group: its own when it is named `k`. */
  lemma TableFilesStep(groups: seq<FolderGroup>, k: string)
    requires groups != [] && '/' !in groups[|groups| - 1].name
    ensures var init, g := groups[..|groups| - 1], groups[|groups| - 1];
      FilesIn(TableRows(groups), k) ==
      FilesIn(TableRows(init), k) + (if g.name == k then FileRowsOf(k, g.files) else [])
  {
    var init, g := groups[..|groups| - 1], groups[|groups| - 1];
    var before, header, own := TableRows(init), [FolderRowOf(g)], FileRowsOf(g.name, g.files);
    assert TableRows(groups) == before + header + own;
    FilesInConcat(before + header, own, k);
    FilesInConcat(before, header, k);
    assert header[..0] == [];
    assert FilesIn(header, k) == [];
    OwnFiles(g.name, g.files, k);
  }

  /** A folder's file rows are filed under that folder and no other. */
  lemma OwnFiles(folder: string, files: seq<FileEntry>, k: string)
    requires '/' !in folder
    ensures FilesIn(FileRowsOf(folder, files), k) == if folder == k then FileRowsOf(folder, files) else []
  {
    FileRowsOwn(folder, files);
    FilesInOwn(FileRowsOf(folder, files), folder, k);
  }

  /** The rows of the files of the groups named `k`, group after group. */
  function RowsNamed(groups: seq<FolderGroup>, k: string): seq<Row> {
    if groups == [] then []
    else
      var g := groups[|groups| - 1];
      RowsNamed(groups[..|groups| - 1], k) + (if g.name == k then FileRowsOf(k, g.files) else [])
  }

  /** The file rows of the table whose `data-folder` is `k` are those of the groups named `k`. */
  lemma {:induction false} TableFiles(groups: seq<FolderGroup>, k: string)
    requires forall i :: 0 <= i < |groups| ==> '/' !in groups[i].name
    ensures FilesIn(TableRows(groups), k) == RowsNamed(groups, k)
  {
    if groups != [] {
      TableFiles(groups[..|groups| - 1], k);
      TableFilesStep(groups, k);
    }
  }

  /**
   * With distinct names, the rows named `k` are the rows of the files of
   * the one group named `k`, and none when no group has that name.
   */
  lemma {:induction false} RowsNamedUnique(groups: seq<FolderGroup>, k: string)
    requires Distinct(Names(groups))
    ensures k !in Names(groups) ==> RowsNamed(groups, k) == []
    ensures forall i :: 0 <= i < |groups| && groups[i].name == k ==>
              RowsNamed(groups, k) == FileRowsOf(k, groups[i].files)
  {
    if groups != [] {
      var init, g := groups[..|groups| - 1], groups[|groups| - 1];
      var names := Names(groups);
      assert Names(init) == names[..|groups| - 1];
      RowsNamedUnique(init, k);
      if g.name == k {
        assert names[|groups| - 1] == k;
        forall i | 0 <= i < |init| ensures Names(init)[i] != k {
          assert names[i] != names[|groups| - 1];
        }
        forall i | 0 <= i < |groups| && groups[i].name == k
          ensures RowsNamed(groups, k) == FileRowsOf(k, groups[i].files)
        {
          assert names[i] == k;
        }
      } else {
        forall i | 0 <= i < |groups| && groups[i].name == k
          ensures RowsNamed(groups, k) == FileRowsOf(k, groups[i].files)
        {
          assert init[i] == groups[i];
        }
      }
    }
  }

  /** Group `i` of the groups for some keys is the group of key `i`. */
  lemma {:induction false} GroupsAt(data: seq<Record>, keys: seq<string>, i: int)
    requires 0 <= i < |keys|
    ensures GroupsOf(data, keys)[i] == GroupOf(data, keys[i])
    decreases |keys|
  {
    if i < |keys| - 1 {
      GroupsAt(data, keys[..|keys| - 1], i);
    }
  }

  /** The groups of a load are named after the folders, in first-seen order, and hold no `/`. */
  lemma GroupNames(data: seq<Record>)
    ensures Names(Grouped(data)) == FolderOrder(data)
    ensures Distinct(Names(Grouped(data)))
    ensures forall i :: 0 <= i < |Grouped(data)| ==> '/' !in Grouped(data)[i].name
  {
    var order, groups := FolderOrder(data), Grouped(data);
    FolderOrderKeys(data);
    forall i | 0 <= i < |groups| ensures groups[i].name == order[i] && '/' !in groups[i].name {
      GroupsAt(data, order, i);
      assert order[i] in order;
      var m :| 0 <= m < |data| && Key(data[m]) == order[i];
      FolderKeyShape(data[m].file);
    }
    assert Names(groups) == order;
  }
  /** The folder rows of a load's table: one per folder, in first-seen order, no two titled alike. */
  lemma LoadedHeaders(data: seq<Record>)
    ensures FolderRows(TableRows(Grouped(data))) == Headers(Grouped(data))
    ensures UniqueTitles(FolderRows(TableRows(Grouped(data))))
    ensures forall k :: HasTitle(FolderRows(TableRows(Grouped(data))), k) <==> k in FolderOrder(data)
  {
    var groups := Grouped(data);
    GroupNames(data);
    TableHeaders(groups);
    HeadersUnique(groups);
    forall k ensures HasTitle(Headers(groups), k) <==> k in FolderOrder(data) {
      HeadersTitle(groups, k);
    }
  }

  /** The file rows of a load's table filed under `k` are the rows of the records with folder key `k`, in input order. */
  lemma LoadedFiles(data: seq<Record>, k: string)
    ensures FilesIn(TableRows(Grouped(data)), k) ==
            if k in FolderOrder(data) then FileRowsOf(k, FilesOf(data, k)) else []
  {
    var groups, order := Grouped(data), FolderOrder(data);
    GroupNames(data);
    TableFiles(groups, k);
    RowsNamedUnique(groups, k);
    if k in order {
      var i :| 0 <= i < |order| && order[i] == k;
      GroupsAt(data, order, i);
      assert Names(groups)[i] == k;
    }
  }

  /**
   * The table a load shows under `spec`: its folder rows are the folders'
   * rows sorted, and under the folder `k` come exactly the rows of the
   * records of `k`, sorted; a key no record has gets no rows.
   */
  lemma LoadedTable(spec: SortSpec, data: seq<Record>, k: string)
    ensures FolderRows(Ranked(spec, TableRows(Grouped(data)))) == SortRows(spec, Headers(Grouped(data)))
    ensures FilesIn(Ranked(spec, TableRows(Grouped(data))), k) ==
            if k in FolderOrder(data) then SortRows(spec, FileRowsOf(k, FilesOf(data, k))) else []
  {
    var rows := TableRows(Grouped(data));
    LoadedHeaders(data);
    LoadedFiles(data, k);
    RankedFolders(spec, rows);
    RankedFiles(spec, rows, k);
  }

  /**
   * A ranked table keeps its folder titles apart, and ranking it again by
   * the same spec leaves it as it is.
   */
  lemma RankedStays(spec: SortSpec, rows: seq<Row>)
    requires UniqueTitles(FolderRows(rows))
    ensures UniqueTitles(FolderRows(Ranked(spec, rows)))
    ensures Ranked(spec, Ranked(spec, rows)) == Ranked(spec, rows)
  {
    RankedFolders(spec, rows);
    SortRowsUniqueTitles(spec, FolderRows(rows));
    RankedIdempotent(spec, rows);
  }

  /**
   * Clicking the header of the sorted column twice gives back the table as
   * it was: the second sort undoes the first, ties included.
   */
  lemma ClickTwice(spec: SortSpec, table: seq<Row>)
    requires UniqueTitles(FolderRows(table)) && Ranked(spec, table) == table
    ensures var flipped := Select(spec, spec.column);
      Select(flipped, spec.column) == spec &&
      Ranked(Select(flipped, spec.column), Ranked(flipped, table)) == table
  {
    var flipped := Select(spec, spec.column);
    SelectTwice(spec);
    RankedResort(flipped, spec, table);
  }

  /**
   * The loop of `loadAndDisplayStats` that calls `addRow`: for each folder
   * its row, then a row for each of its files.
   */
  method AppendRows(groups: seq<FolderGroup>) returns (rows: seq<Row>)
    ensures rows == TableRows(groups)
  {
    rows := [];
    for i := 0 to |groups|
      invariant rows == TableRows(groups[..i])
    {
      var g := groups[i];
      assert groups[..i + 1][..i] == groups[..i];
      rows := rows + [FolderRowOf(g)];
      ghost var before := rows;
      for j := 0 to |g.files|
        invariant rows == before + FileRowsOf(g.name, g.files[..j])
      {
        assert g.files[..j + 1][..j] == g.files[..j];
        rows := rows + [FileRowOf(g.name, g.files[j])];
      }
      assert g.files[..|g.files|] == g.files;
    }
    assert groups[..|groups|] == groups;
  }

  /** What the sum display shows after a load with totals `current`, when the last totals were `last`. */
  function Display(last: Counts, current: Counts): SumDisplay {
    SumDisplay(current, if current.Total() != 0 then Some(Percentages(current)) else None, Deltas(last, current))
  }

  /** No two folder rows share a title, and the table is laid out as `spec` ranks it. */
  ghost predicate Settled(spec: SortSpec, table: seq<Row>) {
    UniqueTitles(FolderRows(table)) && Ranked(spec, table) == table
  }

  /**
   * The work of a load, given the last totals and the sort spec: aggregate
   * the records, compute the sum display, append the rows and sort them.
   */
  method Refresh(data: seq<Record>, last: Counts, spec: SortSpec) returns (display: SumDisplay, table: seq<Row>)
    ensures display == Display(last, TotalOf(data)) && display.totals == TotalOf(data)
    ensures table == Ranked(spec, TableRows(Grouped(data)))
    ensures Settled(spec, table)
  {
    var snapshot := Aggregate(data);
    var totals := snapshot.totals;
    var shares := if totals.Total() != 0 then Some(Percentages(totals)) else None;
    display := SumDisplay(totals, shares, Deltas(last, totals));
    var rows := AppendRows(snapshot.groups);
    table := SortTable(rows, spec);
    LoadedHeaders(data);
    RankedStays(spec, rows);
  }

  /**
   * The page's state: the sort spec, the last totals, the sum display and
   * the rows of the table, in table order.
   */
  class Dashboard {
    var currentSort: SortSpec
    var lastTotals: Counts
    var summary: Option<SumDisplay>
    var table: seq<Row>
    /** A load has happened, and with it the header click handler is attached. */
    var loaded: bool

    /** The table is settled under the current sort spec. */
    ghost predicate Valid()
      reads this
    {
      Settled(currentSort, table)
    }

    /** The page before its first load. */
    constructor()
      ensures Valid()
      ensures currentSort == DefaultSort() && lastTotals == Unset()
      ensures summary == None && table == [] && !loaded
    {
      currentSort := DefaultSort();
      lastTotals := Unset();
      summary := None;
      table := [];
      loaded := false;
    }

    /**
     * `loadAndDisplayStats` once the data has arrived: aggregate, update the
     * sum display and the last totals, rebuild the table and sort it by the
     * current spec.
     */
    method Load(data: seq<Record>)
      modifies this
      ensures Valid()
      ensures currentSort == old(currentSort)
      ensures lastTotals == TotalOf(data)
      ensures summary == Some(Display(old(lastTotals), TotalOf(data)))
      ensures table == Ranked(currentSort, TableRows(Grouped(data)))
      ensures loaded
    {
      var display, rows := Refresh(data, lastTotals, currentSort);
      Commit(display, rows);
    }

    /** Store the results of a load: its totals as the last totals, its sum display, and its settled rows. */
    method Commit(display: SumDisplay, rows: seq<Row>)
      requires Settled(currentSort, rows)
      modifies this
      ensures Valid() && loaded
      ensures currentSort == old(currentSort) && lastTotals == display.totals
      ensures summary == Some(display) && table == rows
    {
      lastTotals, summary, table, loaded := display.totals, Some(display), rows, true;
    }

    /** Replace the rows of the table by rows settled under the current sort spec. */
    method Show(rows: seq<Row>)
      requires Settled(currentSort, rows)
      modifies this
      ensures Valid() && table == rows
      ensures currentSort == old(currentSort) && lastTotals == old(lastTotals) && summary == old(summary)
      ensures loaded == old(loaded)
    {
      table := rows;
    }

    /** A click on the header of `column`: the next sort spec, and the table sorted by it. */
    method SelectColumn(column: Column)
      requires Valid() && loaded
      modifies this
      ensures Valid() && loaded
      ensures currentSort == Select(old(currentSort), column)
      ensures table == Ranked(currentSort, old(table))
      ensures lastTotals == old(lastTotals) && summary == old(summary)
    {
      var before := table;
      currentSort := Select(currentSort, column);
      var rows := SortTable(before, currentSort);
      RankedStays(currentSort, before);
      Show(rows);
    }
  }
}
