/**
 * The ranker of the stats table (`sortTable`): the comparator on table
 * rows, the stable sort the page relies on, and the layout of folders
 * followed by their own files.
 */
module Ranking {
  import opened Records
  import opened SortSpecs
  import Strings

  /** A table row is either a folder (class `folder`) or a file (class `file`). */
  datatype Kind = FolderRow | FileRow

  /**
   * A table row: its class, the text of its first cell (`title`), its
   * `data-folder` attribute, and the counts its number cells were written
   * from.
   */
  datatype Row = Row(kind: Kind, title: string, folder: string, stats: Counts)

  /** `Number(text)` of the number cell at 1-based position `index` (2 to 5). */
  function NumberCell(r: Row, index: int): int
    requires 2 <= index <= 5
  {
    if index == 2 then r.stats.translated
    else if index == 3 then r.stats.fuzzy
    else if index == 4 then r.stats.untranslated
    else r.stats.Total()
  }

  /** The value a row is ranked by in a numeric column. */
  function Value(column: Column, r: Row): int {
    match column
    case Item => 0
    case Translated => r.stats.translated
    case Fuzzy => r.stats.fuzzy
    case Untranslated => r.stats.untranslated
    case Total => r.stats.Total()
  }

  /**
   * The `compare` closure: the cells at the column's position of both rows,
   * compared as strings for `item` and subtracted as numbers otherwise.
   */
  function Compare(column: Column, a: Row, b: Row): (r: int)
    ensures column == Item ==> (r == 0 <==> a.title == b.title)
    ensures column != Item ==> r == Value(column, a) - Value(column, b)
  {
    if column == Item then Strings.Compare(a.title, b.title)
    else NumberCell(a, Position(column)) - NumberCell(b, Position(column))
  }

  /** The comparator handed to `sort`: descending swaps the operands. */
  function Order(spec: SortSpec, a: Row, b: Row): int {
    if spec.direction == Asc then Compare(spec.column, a, b) else Compare(spec.column, b, a)
  }

  /** `a` may stand before `b`. */
  predicate Before(spec: SortSpec, a: Row, b: Row) {
    Order(spec, a, b) <= 0
  }

  /** `a` and `b` rank equal: the sort keeps them in input order. */
  predicate Tied(spec: SortSpec, a: Row, b: Row) {
    Order(spec, a, b) == 0
  }

  /** Descending on `(a, b)` is ascending on `(b, a)`. */
  lemma DescSwaps(column: Column, a: Row, b: Row)
    ensures Order(SortSpec(column, Desc), a, b) == Order(SortSpec(column, Asc), b, a)
  {
  }

  /** Swapping the rows negates the comparison. */
  lemma OrderAntisymmetric(spec: SortSpec, a: Row, b: Row)
    ensures Order(spec, a, b) == -Order(spec, b, a)
  {
    Strings.CompareAntisymmetric(a.title, b.title);
  }

  /** The comparator is a total preorder: "may stand before" is transitive. */
  lemma OrderTransitive(spec: SortSpec, a: Row, b: Row, c: Row)
    requires Before(spec, a, b) && Before(spec, b, c)
    ensures Before(spec, a, c)
  {
    if spec.column == Item {
      if spec.direction == Asc {
        Strings.CompareTransitive(a.title, b.title, c.title);
      } else {
        Strings.CompareTransitive(c.title, b.title, a.title);
      }
    }
  }

  /** Ties are the same whichever the direction. */
  lemma TiedEitherDirection(column: Column, a: Row, b: Row)
    ensures Tied(SortSpec(column, Asc), a, b) <==> Tied(SortSpec(column, Desc), a, b)
  {
    OrderAntisymmetric(SortSpec(column, Asc), a, b);
  }

  /** Every row may stand before any later one. */
  ghost predicate Ordered(spec: SortSpec, s: seq<Row>) {
    forall i, j :: 0 <= i < j < |s| ==> Before(spec, s[i], s[j])
  }

  /**
   * One step of a stable insertion sort: `x`, which came after every row of
   * `sorted` in the input, goes after the last row that may stand before it.
   */
  function Insert(spec: SortSpec, sorted: seq<Row>, x: Row): (r: seq<Row>)
    ensures |r| == |sorted| + 1
  {
    if sorted == [] then [x]
    else if Before(spec, sorted[|sorted| - 1], x) then sorted + [x]
    else Insert(spec, sorted[..|sorted| - 1], x) + [sorted[|sorted| - 1]]
  }

  /** The stable sort of `Array.prototype.sort`, as an insertion sort. */
  function SortRows(spec: SortSpec, s: seq<Row>): (r: seq<Row>)
    ensures |r| == |s|
  {
    if s == [] then []
    else Insert(spec, SortRows(spec, s[..|s| - 1]), s[|s| - 1])
  }

  lemma {:induction false} InsertMultiset(spec: SortSpec, sorted: seq<Row>, x: Row)
    ensures multiset(Insert(spec, sorted, x)) == multiset(sorted) + multiset{x}
  {
    if sorted != [] && !Before(spec, sorted[|sorted| - 1], x) {
      var init := sorted[..|sorted| - 1];
      InsertMultiset(spec, init, x);
      assert sorted == init + [sorted[|sorted| - 1]];
    }
  }

  /** Sorting one more row adds exactly that row to the sorted rows. */
  lemma SortRowsStep(spec: SortSpec, s: seq<Row>)
    requires s != []
    ensures multiset(SortRows(spec, s)) == multiset(SortRows(spec, s[..|s| - 1])) + multiset{s[|s| - 1]}
  {
    InsertMultiset(spec, SortRows(spec, s[..|s| - 1]), s[|s| - 1]);
  }

  /** The rows of `s` are those of its front and its last row. */
  lemma RowsSnoc(s: seq<Row>)
    requires s != []
    ensures multiset(s) == multiset(s[..|s| - 1]) + multiset{s[|s| - 1]}
  {
    assert s == s[..|s| - 1] + [s[|s| - 1]];
  }

  /** The sorted rows are a permutation of the input. */
  lemma {:induction false} SortRowsPermutation(spec: SortSpec, s: seq<Row>)
    ensures multiset(SortRows(spec, s)) == multiset(s)
  {
    if s != [] {
      SortRowsPermutation(spec, s[..|s| - 1]);
      SortRowsStep(spec, s);
      RowsSnoc(s);
    }
  }

  /** A sorted row is an input row. */
  lemma SortedFrom(spec: SortSpec, s: seq<Row>, y: Row)
    requires y in SortRows(spec, s)
    ensures y in s
  {
    SortRowsPermutation(spec, s);
    assert y in multiset(SortRows(spec, s));
  }

  lemma InsertFrom(spec: SortSpec, sorted: seq<Row>, x: Row, y: Row)
    requires y in Insert(spec, sorted, x)
    ensures y in sorted || y == x
  {
    InsertMultiset(spec, sorted, x);
    assert y in multiset(Insert(spec, sorted, x));
  }

  lemma {:induction false} InsertOrdered(spec: SortSpec, sorted: seq<Row>, x: Row)
    requires Ordered(spec, sorted)
    ensures Ordered(spec, Insert(spec, sorted, x))
  {
    if sorted == [] {
    } else {
      var last := sorted[|sorted| - 1];
      if Before(spec, last, x) {
        forall i | 0 <= i < |sorted| ensures Before(spec, sorted[i], x) {
          if i < |sorted| - 1 {
            OrderTransitive(spec, sorted[i], last, x);
          }
        }
      } else {
        var init := sorted[..|sorted| - 1];
        InsertOrdered(spec, init, x);
        var r := Insert(spec, init, x);
        OrderAntisymmetric(spec, last, x);
        forall i | 0 <= i < |r| ensures Before(spec, r[i], last) {
          InsertFrom(spec, init, x, r[i]);
          if r[i] in init {
            var k :| 0 <= k < |init| && init[k] == r[i];
            assert sorted[k] == r[i];
          }
        }
      }
    }
  }

  /** The sorted rows are in order. */
  lemma {:induction false} SortRowsOrdered(spec: SortSpec, s: seq<Row>)
    ensures Ordered(spec, SortRows(spec, s))
  {
    if s != [] {
      SortRowsOrdered(spec, s[..|s| - 1]);
      InsertOrdered(spec, SortRows(spec, s[..|s| - 1]), s[|s| - 1]);
    }
  }

  /** The rows of `s` that rank equal to `k`, in their order in `s`. */
  function Ties(spec: SortSpec, s: seq<Row>, k: Row): seq<Row> {
    if s == [] then []
    else Ties(spec, s[..|s| - 1], k) + (if Tied(spec, s[|s| - 1], k) then [s[|s| - 1]] else [])
  }

  lemma TiesAppend(spec: SortSpec, s: seq<Row>, x: Row, k: Row)
    ensures Ties(spec, s + [x], k) == Ties(spec, s, k) + (if Tied(spec, x, k) then [x] else [])
  {
    assert (s + [x])[..|s|] == s;
  }

  /** Inserting a row adds it at the end of its ties. */
  lemma {:induction false} InsertTies(spec: SortSpec, sorted: seq<Row>, x: Row, k: Row)
    ensures Ties(spec, Insert(spec, sorted, x), k) == Ties(spec, sorted, k) + (if Tied(spec, x, k) then [x] else [])
  {
    if sorted == [] {
      assert Insert(spec, sorted, x) == [] + [x];
      TiesAppend(spec, [], x, k);
    } else {
      var last := sorted[|sorted| - 1];
      var init := sorted[..|sorted| - 1];
      assert sorted == init + [last];
      if Before(spec, last, x) {
        TiesAppend(spec, sorted, x, k);
      } else {
        InsertTies(spec, init, x, k);
        TiesAppend(spec, Insert(spec, init, x), last, k);
        TiesAppend(spec, init, last, k);
        NotBothTied(spec, last, x, k);
      }
    }
  }

  /** A row that may not stand before `x` does not rank equal to it, so not both rank equal to `k`. */
  lemma NotBothTied(spec: SortSpec, last: Row, x: Row, k: Row)
    requires !Before(spec, last, x)
    ensures !(Tied(spec, x, k) && Tied(spec, last, k))
  {
    if Tied(spec, x, k) && Tied(spec, last, k) {
      OrderAntisymmetric(spec, x, k);
      TiedTransitive(spec, last, k, x);
      assert false;
    }
  }

  lemma TiedTransitive(spec: SortSpec, a: Row, b: Row, c: Row)
    requires Tied(spec, a, b) && Tied(spec, b, c)
    ensures Tied(spec, a, c)
  {
    OrderTransitive(spec, a, b, c);
    OrderAntisymmetric(spec, a, b);
    OrderAntisymmetric(spec, b, c);
    OrderTransitive(spec, c, b, a);
    OrderAntisymmetric(spec, a, c);
  }

  /** Stability: rows that rank equal keep their input order. */
  lemma {:induction false} SortRowsStable(spec: SortSpec, s: seq<Row>, k: Row)
    ensures Ties(spec, SortRows(spec, s), k) == Ties(spec, s, k)
  {
    if s != [] {
      var init := s[..|s| - 1];
      SortRowsStable(spec, init, k);
      InsertTies(spec, SortRows(spec, init), s[|s| - 1], k);
    }
  }

  /** Rows already in order are left as they are. */
  lemma {:induction false} SortRowsOfOrdered(spec: SortSpec, s: seq<Row>)
    requires Ordered(spec, s)
    ensures SortRows(spec, s) == s
  {
    if s != [] {
      var init, x := s[..|s| - 1], s[|s| - 1];
      forall i, j | 0 <= i < j < |init| ensures Before(spec, init[i], init[j]) {
        assert init[i] == s[i] && init[j] == s[j];
      }
      SortRowsOfOrdered(spec, init);
      if init != [] {
        assert init[|init| - 1] == s[|s| - 2];
      }
      assert s == init + [x];
    }
  }

  /** Sorting twice with the same spec is sorting once. */
  lemma SortRowsIdempotent(spec: SortSpec, s: seq<Row>)
    ensures SortRows(spec, SortRows(spec, s)) == SortRows(spec, s)
  {
    SortRowsOrdered(spec, s);
    SortRowsOfOrdered(spec, SortRows(spec, s));
  }

  /** Every row ranks equal to itself. */
  lemma TiedSelf(spec: SortSpec, x: Row)
    ensures Tied(spec, x, x)
  {
    OrderAntisymmetric(spec, x, x);
  }

  /** The ties of `k` in `s` are rows of `s` that rank equal to `k`. */
  lemma {:induction false} TiesMembers(spec: SortSpec, s: seq<Row>, k: Row, x: Row)
    requires x in Ties(spec, s, k)
    ensures x in s && Tied(spec, x, k)
  {
    var init := s[..|s| - 1];
    if x in Ties(spec, init, k) {
      TiesMembers(spec, init, k, x);
    }
  }

  /** Two specs on the same column have the same ties. */
  lemma {:induction false} TiesSameColumn(s1: SortSpec, s2: SortSpec, s: seq<Row>, k: Row)
    requires s1.column == s2.column
    ensures Ties(s1, s, k) == Ties(s2, s, k)
  {
    if s != [] {
      TiesSameColumn(s1, s2, s[..|s| - 1], k);
      TiedEitherDirection(s1.column, s[|s| - 1], k);
    }
  }

  /** The last row of an ordered sequence may stand after every row of it. */
  lemma OrderedLast(spec: SortSpec, s: seq<Row>, x: Row)
    requires Ordered(spec, s) && s != [] && x in s
    ensures Before(spec, x, s[|s| - 1])
  {
    TiedSelf(spec, x);
  }

  /**
   * A stable order is determined by its ties: two ordered sequences whose
   * ties of every row come in the same order are equal.
   */
  lemma {:induction false} OrderedUnique(spec: SortSpec, a: seq<Row>, b: seq<Row>)
    requires Ordered(spec, a) && Ordered(spec, b)
    requires forall k :: Ties(spec, a, k) == Ties(spec, b, k)
    ensures a == b
    decreases |a| + |b|
  {
    if a != [] {
      LastInTies(spec, a);
    }
    if b != [] {
      LastInTies(spec, b);
    }
    if a == [] && b != [] {
      assert false;
    } else if a != [] && b == [] {
      assert false;
    } else if a != [] {
      var a', b' := a[..|a| - 1], b[..|b| - 1];
      LastsTied(spec, a, b);
      SameLast(spec, a, b);
      forall k ensures Ties(spec, a', k) == Ties(spec, b', k) {
        DropLastTies(spec, a, b, k);
      }
      OrderedUnique(spec, a', b');
      assert a == a' + [a[|a| - 1]] && b == b' + [b[|b| - 1]];
    }
  }

  /** Two sequences whose last rows rank equal, with the same ties of the first one, end with the same row. */
  lemma SameLast(spec: SortSpec, a: seq<Row>, b: seq<Row>)
    requires a != [] && b != [] && Tied(spec, a[|a| - 1], b[|b| - 1])
    requires Ties(spec, a, a[|a| - 1]) == Ties(spec, b, a[|a| - 1])
    ensures a[|a| - 1] == b[|b| - 1]
  {
    var la, lb := a[|a| - 1], b[|b| - 1];
    TiedSelf(spec, la);
    OrderAntisymmetric(spec, lb, la);
    var t := Ties(spec, a, la);
    assert t == Ties(spec, a[..|a| - 1], la) + [la];
    assert t == Ties(spec, b[..|b| - 1], la) + [lb];
    assert t[|t| - 1] == la && t[|t| - 1] == lb;
  }

  /** Dropping the same last row from two sequences with the same ties of `k` leaves the same ties of `k`. */
  lemma DropLastTies(spec: SortSpec, a: seq<Row>, b: seq<Row>, k: Row)
    requires a != [] && b != [] && a[|a| - 1] == b[|b| - 1]
    requires Ties(spec, a, k) == Ties(spec, b, k)
    ensures Ties(spec, a[..|a| - 1], k) == Ties(spec, b[..|b| - 1], k)
  {
    var t := Ties(spec, a, k);
    assert Ties(spec, a[..|a| - 1], k) == if Tied(spec, a[|a| - 1], k) then t[..|t| - 1] else t;
  }

  /** The last row is among its own ties. */
  lemma LastInTies(spec: SortSpec, s: seq<Row>)
    requires s != []
    ensures s[|s| - 1] in Ties(spec, s, s[|s| - 1])
  {
    TiedSelf(spec, s[|s| - 1]);
  }

  /** The last rows of two ordered sequences with the same ties rank equal. */
  lemma LastsTied(spec: SortSpec, a: seq<Row>, b: seq<Row>)
    requires Ordered(spec, a) && Ordered(spec, b) && a != [] && b != []
    requires forall k :: Ties(spec, a, k) == Ties(spec, b, k)
    ensures Tied(spec, a[|a| - 1], b[|b| - 1])
  {
    var la, lb := a[|a| - 1], b[|b| - 1];
    TiedSelf(spec, la);
    TiedSelf(spec, lb);
    assert la in Ties(spec, a, la) && lb in Ties(spec, b, lb);
    TiesMembers(spec, b, la, la);
    TiesMembers(spec, a, lb, lb);
    OrderedLast(spec, a, lb);
    OrderedLast(spec, b, la);
    OrderAntisymmetric(spec, la, lb);
  }

  /**
   * Sorting rows already sorted on the same column, in either direction,
   * gives what sorting the original rows gives: the earlier sort leaves
   * ties in input order.
   */
  lemma SortRowsResort(s1: SortSpec, s2: SortSpec, s: seq<Row>)
    requires s1.column == s2.column
    ensures SortRows(s2, SortRows(s1, s)) == SortRows(s2, s)
  {
    var a, b := SortRows(s2, SortRows(s1, s)), SortRows(s2, s);
    SortRowsOrdered(s2, SortRows(s1, s));
    SortRowsOrdered(s2, s);
    forall k ensures Ties(s2, a, k) == Ties(s2, b, k) {
      SortRowsStable(s2, SortRows(s1, s), k);
      TiesSameColumn(s1, s2, SortRows(s1, s), k);
      SortRowsStable(s1, s, k);
      TiesSameColumn(s1, s2, s, k);
      SortRowsStable(s2, s, k);
    }
    OrderedUnique(s2, a, b);
  }

  /**
   * `Array.prototype.sort` on an array of rows: a stable insertion sort in
   * place.
   */
  method SortInPlace(a: array<Row>, spec: SortSpec)
    modifies a
    ensures a[..] == SortRows(spec, old(a[..]))
  {
    ghost var input := a[..];
    var i := 0;
    while i < a.Length
      invariant 0 <= i <= a.Length
      invariant a[..i] == SortRows(spec, input[..i])
      invariant a[i..] == input[i..]
    {
      assert input[..i + 1][..i] == input[..i];
      assert a[i] == input[i];
      InsertInPlace(a, i, spec);
      i := i + 1;
    }
    assert a[..] == a[..i];
    assert input[..i] == input;
  }

  /** Moves `a[i]` back into the sorted run `a[..i]`, shifting the rows it passes one place up. */
  method InsertInPlace(a: array<Row>, i: int, spec: SortSpec)
    requires 0 <= i < a.Length
    modifies a
    ensures a[..i + 1] == Insert(spec, old(a[..i]), old(a[i]))
    ensures a[i + 1..] == old(a[i + 1..])
  {
    ghost var sorted := a[..i];
    var x := a[i];
    var j := ShiftPast(a, i, x, spec);
    a[j] := x;
    ghost var placed := sorted[..j] + [x] + sorted[j..];
    forall k | 0 <= k <= i ensures a[k] == placed[k] {
      if k < j {
        assert placed[k] == sorted[k];
      } else if j < k {
        assert placed[k] == sorted[k - 1];
      }
    }
    assert a[..i + 1] == placed;
    InsertPlace(spec, sorted, j, x);
  }

  /**
   * The inner loop of the insertion: shifts up, from `a[i - 1]` down, the
   * rows of `a[..i]` that may not stand before `x`, and returns the place
   * left free.
   */
  method ShiftPast(a: array<Row>, i: int, x: Row, spec: SortSpec) returns (j: int)
    requires 0 <= i < a.Length
    modifies a
    ensures 0 <= j <= i
    ensures forall k :: 0 <= k < j ==> a[k] == old(a[k])
    ensures forall k :: j < k <= i ==> a[k] == old(a[k - 1])
    ensures forall k :: i < k < a.Length ==> a[k] == old(a[k])
    ensures forall k :: j <= k < i ==> !Before(spec, old(a[k]), x)
    ensures j > 0 ==> Before(spec, old(a[j - 1]), x)
  {
    ghost var sorted := a[..i];
    j := i;
    while j > 0 && !Before(spec, a[j - 1], x)
      invariant 0 <= j <= i
      invariant forall k :: 0 <= k < j ==> a[k] == sorted[k]
      invariant forall k :: j < k <= i ==> a[k] == sorted[k - 1]
      invariant forall k :: i < k < a.Length ==> a[k] == old(a[k])
      invariant forall k :: j <= k < i ==> !Before(spec, sorted[k], x)
    {
      a[j] := a[j - 1];
      j := j - 1;
    }
  }

  /**
   * Where the insertion puts `x`: after the rows up to the last one that
   * may stand before it, and before the rows after that, none of which may.
   */
  lemma {:induction false} InsertPlace(spec: SortSpec, sorted: seq<Row>, j: int, x: Row)
    requires 0 <= j <= |sorted|
    requires j > 0 ==> Before(spec, sorted[j - 1], x)
    requires forall k :: j <= k < |sorted| ==> !Before(spec, sorted[k], x)
    ensures Insert(spec, sorted, x) == sorted[..j] + [x] + sorted[j..]
    decreases |sorted|
  {
    if j < |sorted| {
      var init, last := sorted[..|sorted| - 1], sorted[|sorted| - 1];
      assert !Before(spec, last, x);
      assert Insert(spec, sorted, x) == Insert(spec, init, x) + [last];
      forall k | j <= k < |init| ensures !Before(spec, init[k], x) {
        assert init[k] == sorted[k];
      }
      assert j > 0 ==> init[j - 1] == sorted[j - 1];
      InsertPlace(spec, init, j, x);
      assert init[..j] == sorted[..j];
      assert sorted[j..] == init[j..] + [last];
      assert (init[..j] + [x] + init[j..]) + [last] == sorted[..j] + [x] + sorted[j..];
    } else {
      assert sorted[..j] == sorted;
    }
  }

  /** The rows of class `folder`, in table order (`selectAll("tr.folder")`). */
  function FolderRows(rows: seq<Row>): seq<Row> {
    if rows == [] then []
    else
      var last := rows[|rows| - 1];
      FolderRows(rows[..|rows| - 1]) + (if last.kind == FolderRow then [last] else [])
  }

  /** The file rows whose `data-folder` is `k`, in table order: the entry of `fileRowsMap` for `k`. */
  function FilesIn(rows: seq<Row>, k: string): seq<Row> {
    if rows == [] then []
    else
      var last := rows[|rows| - 1];
      FilesIn(rows[..|rows| - 1], k) + (if last.kind == FileRow && last.folder == k then [last] else [])
  }

  /** The folder rows are the rows of class `folder`. */
  lemma {:induction false} FolderRowsMembers(rows: seq<Row>)
    ensures forall f :: f in FolderRows(rows) <==> f in rows && f.kind == FolderRow
  {
    if rows != [] {
      var init := rows[..|rows| - 1];
      FolderRowsMembers(init);
      assert rows == init + [rows[|rows| - 1]];
    }
  }

  /** The entry for `k` holds the file rows whose `data-folder` is `k`. */
  lemma {:induction false} FilesInMembers(rows: seq<Row>, k: string)
    ensures forall f :: f in FilesIn(rows, k) <==> f in rows && f.kind == FileRow && f.folder == k
  {
    if rows != [] {
      var init := rows[..|rows| - 1];
      FilesInMembers(init, k);
      assert rows == init + [rows[|rows| - 1]];
    }
  }

  /** The table rebuilt from folder rows in the given order: each folder, then its own files sorted. */
  function Layout(spec: SortSpec, folders: seq<Row>, rows: seq<Row>): seq<Row> {
    if folders == [] then []
    else
      var f := folders[|folders| - 1];
      Layout(spec, folders[..|folders| - 1], rows) + [f] + SortRows(spec, FilesIn(rows, f.title))
  }

  /** `sortTable`: the folder rows sorted, each followed by its own file rows sorted. */
  function Ranked(spec: SortSpec, rows: seq<Row>): seq<Row> {
    Layout(spec, SortRows(spec, FolderRows(rows)), rows)
  }

  /**
   * `sortTable`: group the file rows by their `data-folder` into a map,
   * sort the folder rows, and append each folder row followed by its file
   * rows, sorted with the same comparator.
   */
  method SortTable(rows: seq<Row>, spec: SortSpec) returns (table: seq<Row>)
    ensures table == Ranked(spec, rows)
  {
    var fileRowsMap := GroupFiles(rows);
    var folderArray := SortedFolders(rows, spec);
    table := AppendSorted(folderArray, fileRowsMap, rows, spec);
  }

  /** The folder rows, copied to an array and sorted in place. */
  method SortedFolders(rows: seq<Row>, spec: SortSpec) returns (folderArray: array<Row>)
    ensures fresh(folderArray)
    ensures folderArray[..] == SortRows(spec, FolderRows(rows))
  {
    var folderRows := FolderRows(rows);
    folderArray := new Row[|folderRows|](n requires 0 <= n < |folderRows| => folderRows[n]);
    assert folderArray[..] == folderRows;
    SortInPlace(folderArray, spec);
  }

  /**
   * The loop that rebuilds the table: each folder row in the array's order,
   * then the entry of `fileRowsMap` for its title, sorted.
   */
  method AppendSorted(folderArray: array<Row>, fileRowsMap: map<string, seq<Row>>, rows: seq<Row>, spec: SortSpec)
    returns (table: seq<Row>)
    requires forall k :: k in fileRowsMap ==> fileRowsMap[k] == FilesIn(rows, k)
    requires forall k :: k !in fileRowsMap ==> FilesIn(rows, k) == []
    ensures table == Layout(spec, folderArray[..], rows)
  {
    ghost var folders := folderArray[..];
    table := [];
    var f := 0;
    while f < folderArray.Length
      invariant 0 <= f <= folderArray.Length
      invariant table == Layout(spec, folders[..f], rows)
    {
      var folderRow := folderArray[f];
      var fileRows := if folderRow.title in fileRowsMap then fileRowsMap[folderRow.title] else [];
      assert fileRows == FilesIn(rows, folderRow.title);
      var sortedFiles := SortCopy(fileRows, spec);
      LayoutStep(spec, folders, f, rows);
      table := table + [folderRow] + sortedFiles;
      f := f + 1;
    }
    assert folders[..f] == folders;
  }

  /** Laying out one more folder appends it and its sorted files. */
  lemma LayoutStep(spec: SortSpec, folders: seq<Row>, f: int, rows: seq<Row>)
    requires 0 <= f < |folders|
    ensures Layout(spec, folders[..f + 1], rows) ==
      Layout(spec, folders[..f], rows) + [folders[f]] + SortRows(spec, FilesIn(rows, folders[f].title))
  {
    assert folders[..f + 1][..f] == folders[..f];
  }

  /** The file rows of each folder, in table order; a folder without file rows has no entry. */
  method GroupFiles(rows: seq<Row>) returns (fileRowsMap: map<string, seq<Row>>)
    ensures forall k :: k in fileRowsMap ==> fileRowsMap[k] == FilesIn(rows, k)
    ensures forall k :: k !in fileRowsMap ==> FilesIn(rows, k) == []
  {
    fileRowsMap := map[];
    var i := 0;
    while i < |rows|
      invariant 0 <= i <= |rows|
      invariant forall k :: k in fileRowsMap ==> fileRowsMap[k] == FilesIn(rows[..i], k)
      invariant forall k :: k !in fileRowsMap ==> FilesIn(rows[..i], k) == []
    {
      var row := rows[i];
      FilesInStep(rows, i);
      if row.kind == FileRow {
        if row.folder !in fileRowsMap {
          fileRowsMap := fileRowsMap[row.folder := []];
        }
        fileRowsMap := fileRowsMap[row.folder := fileRowsMap[row.folder] + [row]];
      }
      i := i + 1;
    }
    assert rows[..i] == rows;
  }

  /** Row `i` joins the file rows of its own folder, if it is a file row. */
  lemma FilesInStep(rows: seq<Row>, i: int)
    requires 0 <= i < |rows|
    ensures forall k :: FilesIn(rows[..i + 1], k) ==
                        FilesIn(rows[..i], k) + (if rows[i].kind == FileRow && rows[i].folder == k then [rows[i]] else [])
  {
    assert rows[..i + 1][..i] == rows[..i];
  }

  /** Sorts the rows of a folder: copies them to an array and sorts that in place. */
  method SortCopy(s: seq<Row>, spec: SortSpec) returns (sorted: seq<Row>)
    ensures sorted == SortRows(spec, s)
  {
    var a := new Row[|s|](n requires 0 <= n < |s| => s[n]);
    assert a[..] == s;
    SortInPlace(a, spec);
    sorted := a[..];
  }

  /** No two of the rows have the same title. */
  ghost predicate UniqueTitles(rows: seq<Row>) {
    forall i, j :: 0 <= i < j < |rows| ==> rows[i].title != rows[j].title
  }

  /** Some row is titled `k`. */
  ghost predicate HasTitle(rows: seq<Row>, k: string) {
    exists f :: f in rows && f.title == k
  }

  lemma {:induction false} InsertUniqueTitles(spec: SortSpec, sorted: seq<Row>, x: Row)
    requires UniqueTitles(sorted) && !HasTitle(sorted, x.title)
    ensures UniqueTitles(Insert(spec, sorted, x))
  {
    if sorted != [] && !Before(spec, sorted[|sorted| - 1], x) {
      var init, last := sorted[..|sorted| - 1], sorted[|sorted| - 1];
      assert !HasTitle(init, x.title) by {
        forall f | f in init ensures f.title != x.title {
          assert f in sorted;
        }
      }
      InsertUniqueTitles(spec, init, x);
      var r := Insert(spec, init, x);
      forall i | 0 <= i < |r| ensures r[i].title != last.title {
        InsertFrom(spec, init, x, r[i]);
        if r[i] in init {
          var k :| 0 <= k < |init| && init[k] == r[i];
          assert sorted[k] == r[i];
        }
      }
    }
  }

  /** Sorting keeps the titles unique. */
  lemma {:induction false} SortRowsUniqueTitles(spec: SortSpec, s: seq<Row>)
    requires UniqueTitles(s)
    ensures UniqueTitles(SortRows(spec, s))
  {
    if s != [] {
      var init, last := s[..|s| - 1], s[|s| - 1];
      SortRowsUniqueTitles(spec, init);
      forall f | f in SortRows(spec, init) ensures f.title != last.title {
        SortedFrom(spec, init, f);
        var k :| 0 <= k < |init| && init[k] == f;
        assert s[k] == f;
      }
      InsertUniqueTitles(spec, SortRows(spec, init), last);
    }
  }

  /** Sorting keeps the set of titles. */
  lemma SortRowsHasTitle(spec: SortSpec, s: seq<Row>, k: string)
    ensures HasTitle(SortRows(spec, s), k) <==> HasTitle(s, k)
  {
    SortRowsPermutation(spec, s);
    if HasTitle(s, k) {
      var f :| f in s && f.title == k;
      assert f in multiset(SortRows(spec, s));
    }
    if HasTitle(SortRows(spec, s), k) {
      var f :| f in SortRows(spec, s) && f.title == k;
      assert f in multiset(s);
    }
  }

  lemma {:induction false} FolderRowsConcat(a: seq<Row>, b: seq<Row>)
    ensures FolderRows(a + b) == FolderRows(a) + FolderRows(b)
    decreases |b|
  {
    if b != [] {
      var c := a + b;
      assert c[..|c| - 1] == a + b[..|b| - 1];
      FolderRowsConcat(a, b[..|b| - 1]);
    } else {
      assert a + b == a;
    }
  }

  lemma {:induction false} FilesInConcat(a: seq<Row>, b: seq<Row>, k: string)
    ensures FilesIn(a + b, k) == FilesIn(a, k) + FilesIn(b, k)
    decreases |b|
  {
    if b != [] {
      var c := a + b;
      assert c[..|c| - 1] == a + b[..|b| - 1];
      FilesInConcat(a, b[..|b| - 1], k);
    } else {
      assert a + b == a;
    }
  }

  /** Rows that are all file rows of folder `t`: their entry for `k` is all of them when `k` is `t`, none otherwise. */
  lemma {:induction false} FilesInOwn(s: seq<Row>, t: string, k: string)
    requires forall f :: f in s ==> f.kind == FileRow && f.folder == t
    ensures FilesIn(s, k) == if t == k then s else []
  {
    if s != [] {
      var init := s[..|s| - 1];
      assert forall f :: f in init ==> f in s;
      FilesInOwn(init, t, k);
      assert s == init + [s[|s| - 1]];
    }
  }

  /** The rows of a folder block, sorted or not, are the folder's file rows. */
  lemma SortedFilesOwn(spec: SortSpec, rows: seq<Row>, t: string, k: string)
    ensures FolderRows(SortRows(spec, FilesIn(rows, t))) == []
    ensures FilesIn(SortRows(spec, FilesIn(rows, t)), k) == if t == k then SortRows(spec, FilesIn(rows, t)) else []
  {
    var s := SortRows(spec, FilesIn(rows, t));
    forall f | f in s ensures f.kind == FileRow && f.folder == t {
      SortedFrom(spec, FilesIn(rows, t), f);
      FilesInMembers(rows, t);
    }
    FilesInOwn(s, t, k);
    if FolderRows(s) != [] {
      FolderRowsMembers(s);
      assert FolderRows(s)[0] in FolderRows(s);
    }
  }

  /** One more folder block adds that folder to the folder rows. */
  lemma LayoutFoldersStep(spec: SortSpec, folders: seq<Row>, rows: seq<Row>)
    requires folders != [] && folders[|folders| - 1].kind == FolderRow
    ensures FolderRows(Layout(spec, folders, rows)) ==
      FolderRows(Layout(spec, folders[..|folders| - 1], rows)) + [folders[|folders| - 1]]
  {
    var init, f := folders[..|folders| - 1], folders[|folders| - 1];
    var files := SortRows(spec, FilesIn(rows, f.title));
    FolderRowsConcat(Layout(spec, init, rows) + [f], files);
    FolderRowsConcat(Layout(spec, init, rows), [f]);
    assert FolderRows([f]) == [f] by {
      assert [f][..0] == [];
    }
    SortedFilesOwn(spec, rows, f.title, f.title);
  }

  /** The folder rows of a layout are the folders it was laid out from. */
  lemma {:induction false} LayoutFolders(spec: SortSpec, folders: seq<Row>, rows: seq<Row>)
    requires forall f :: f in folders ==> f.kind == FolderRow
    ensures FolderRows(Layout(spec, folders, rows)) == folders
  {
    if folders != [] {
      var init := folders[..|folders| - 1];
      assert forall g :: g in init ==> g in folders;
      LayoutFolders(spec, init, rows);
      LayoutFoldersStep(spec, folders, rows);
      assert folders == init + [folders[|folders| - 1]];
    }
  }

  /** One more folder block adds that folder's sorted files to the entry of its own title only. */
  lemma LayoutFilesStep(spec: SortSpec, folders: seq<Row>, rows: seq<Row>, k: string)
    requires folders != [] && folders[|folders| - 1].kind == FolderRow
    ensures FilesIn(Layout(spec, folders, rows), k) ==
      FilesIn(Layout(spec, folders[..|folders| - 1], rows), k) +
      (if folders[|folders| - 1].title == k then SortRows(spec, FilesIn(rows, k)) else [])
  {
    var init, f := folders[..|folders| - 1], folders[|folders| - 1];
    var before := Layout(spec, init, rows);
    var files := SortRows(spec, FilesIn(rows, f.title));
    assert Layout(spec, folders, rows) == before + [f] + files;
    assert FilesIn(before + [f], k) == FilesIn(before, k) by {
      FilesInConcat(before, [f], k);
      assert [f][..0] == [];
      assert FilesIn([f], k) == [];
    }
    assert FilesIn(files, k) == if f.title == k then SortRows(spec, FilesIn(rows, k)) else [] by {
      SortedFilesOwn(spec, rows, f.title, k);
    }
    FilesInConcat(before + [f], files, k);
  }

  /** A title of some folder is the title of the last one or of an earlier one. */
  lemma HasTitleSplit(folders: seq<Row>, k: string)
    requires folders != []
    ensures HasTitle(folders, k) <==>
      HasTitle(folders[..|folders| - 1], k) || folders[|folders| - 1].title == k
  {
    var init := folders[..|folders| - 1];
    assert folders == init + [folders[|folders| - 1]];
    if HasTitle(init, k) {
      var g :| g in init && g.title == k;
      assert g in folders;
    }
  }

  /**
   * In a layout from folders with unique titles, the file rows of folder
   * `k` are its own sorted file rows when a folder is titled `k`, and there
   * are none otherwise.
   */
  lemma {:induction false} LayoutFiles(spec: SortSpec, folders: seq<Row>, rows: seq<Row>, k: string)
    requires forall f :: f in folders ==> f.kind == FolderRow
    requires UniqueTitles(folders)
    ensures FilesIn(Layout(spec, folders, rows), k) == if HasTitle(folders, k) then SortRows(spec, FilesIn(rows, k)) else []
  {
    if folders != [] {
      var init, f := folders[..|folders| - 1], folders[|folders| - 1];
      assert forall g :: g in init ==> g in folders;
      assert UniqueTitles(init);
      LayoutFiles(spec, init, rows, k);
      LayoutFilesStep(spec, folders, rows, k);
      HasTitleSplit(folders, k);
    }
  }

  /** The folder rows of the ranked table are the folder rows sorted. */
  lemma RankedFolders(spec: SortSpec, rows: seq<Row>)
    ensures FolderRows(Ranked(spec, rows)) == SortRows(spec, FolderRows(rows))
  {
    var sorted := SortRows(spec, FolderRows(rows));
    forall f | f in sorted ensures f.kind == FolderRow {
      SortedFrom(spec, FolderRows(rows), f);
      FolderRowsMembers(rows);
    }
    LayoutFolders(spec, sorted, rows);
  }

  /**
   * With unique folder titles, the ranked table holds each folder's own file
   * rows, sorted; file rows whose folder has no folder row are dropped.
   */
  lemma RankedFiles(spec: SortSpec, rows: seq<Row>, k: string)
    requires UniqueTitles(FolderRows(rows))
    ensures FilesIn(Ranked(spec, rows), k) == if HasTitle(FolderRows(rows), k) then SortRows(spec, FilesIn(rows, k)) else []
  {
    var sorted := SortRows(spec, FolderRows(rows));
    forall f | f in sorted ensures f.kind == FolderRow {
      SortedFrom(spec, FolderRows(rows), f);
      FolderRowsMembers(rows);
    }
    SortRowsUniqueTitles(spec, FolderRows(rows));
    SortRowsHasTitle(spec, FolderRows(rows), k);
    LayoutFiles(spec, sorted, rows, k);
  }

  /** Layouts from the same folders that give each folder the same sorted files are equal. */
  lemma {:induction false} LayoutCongruent(spec: SortSpec, folders: seq<Row>, rows: seq<Row>, other: seq<Row>)
    requires forall f :: f in folders ==> SortRows(spec, FilesIn(rows, f.title)) == SortRows(spec, FilesIn(other, f.title))
    ensures Layout(spec, folders, rows) == Layout(spec, folders, other)
  {
    if folders != [] {
      var init := folders[..|folders| - 1];
      assert forall g :: g in init ==> g in folders;
      LayoutCongruent(spec, init, rows, other);
    }
  }

  /** Ranking a ranked table again with the same spec changes nothing. */
  lemma RankedIdempotent(spec: SortSpec, rows: seq<Row>)
    requires UniqueTitles(FolderRows(rows))
    ensures Ranked(spec, Ranked(spec, rows)) == Ranked(spec, rows)
  {
    var ranked := Ranked(spec, rows);
    var sorted := SortRows(spec, FolderRows(rows));
    RankedFolders(spec, rows);
    SortRowsIdempotent(spec, FolderRows(rows));
    forall f | f in sorted
      ensures SortRows(spec, FilesIn(ranked, f.title)) == SortRows(spec, FilesIn(rows, f.title))
    {
      RankedFiles(spec, rows, f.title);
      SortRowsHasTitle(spec, FolderRows(rows), f.title);
      SortRowsIdempotent(spec, FilesIn(rows, f.title));
    }
    LayoutCongruent(spec, sorted, ranked, rows);
  }

  /**
   * Ranking a ranked table again on the same column, in either direction,
   * gives what ranking the original table gives.
   */
  lemma RankedResort(s1: SortSpec, s2: SortSpec, rows: seq<Row>)
    requires s1.column == s2.column
    requires UniqueTitles(FolderRows(rows))
    ensures Ranked(s2, Ranked(s1, rows)) == Ranked(s2, rows)
  {
    var ranked := Ranked(s1, rows);
    var sorted := SortRows(s2, FolderRows(rows));
    RankedFolders(s1, rows);
    SortRowsResort(s1, s2, FolderRows(rows));
    forall f | f in sorted
      ensures SortRows(s2, FilesIn(ranked, f.title)) == SortRows(s2, FilesIn(rows, f.title))
    {
      RankedFiles(s1, rows, f.title);
      SortRowsHasTitle(s2, FolderRows(rows), f.title);
      SortRowsResort(s1, s2, FilesIn(rows, f.title));
    }
    LayoutCongruent(s2, sorted, ranked, rows);
  }
}
