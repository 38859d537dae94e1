/**
 * The table's sort state: which column the rows are ranked by and in which
 * direction, the transition taken when a column header is clicked, and the
 * position of each column's cell within a row.
 */
module SortSpecs {

  /** The five sortable columns, one per `data-sort` header. */
  datatype Column = Item | Translated | Fuzzy | Untranslated | Total

  datatype Direction = Asc | Desc

  /** The `currentSort` object: a column and a direction. */
  datatype SortSpec = SortSpec(column: Column, direction: Direction)

  /** The state the page starts in: by total, descending. */
  function DefaultSort(): SortSpec {
    SortSpec(Total, Desc)
  }

  function Flip(d: Direction): (r: Direction)
    ensures r != d
  {
    if d == Asc then Desc else Asc
  }

  /**
   * A click on the header of `column`: the same column flips the direction,
   * another column starts ascending.
   */
  function Select(s: SortSpec, column: Column): (r: SortSpec)
    ensures r.column == column
    ensures s.column == column ==> r.direction != s.direction
    ensures s.column != column ==> r.direction == Asc
  {
    if s.column == column then SortSpec(column, Flip(s.direction))
    else SortSpec(column, Asc)
  }

  /** Clicking the current column twice gives back the state it started in. */
  lemma SelectTwice(s: SortSpec)
    ensures Select(Select(s, s.column), s.column) == s
  {
  }

  /** Clicking another column and then that column again sorts it descending. */
  lemma SelectOtherTwice(s: SortSpec, column: Column)
    requires s.column != column
    ensures Select(Select(s, column), column) == SortSpec(column, Desc)
  {
  }

  /** The state after a sequence of clicks. */
  function Clicks(s: SortSpec, columns: seq<Column>): SortSpec {
    if columns == [] then s
    else Select(Clicks(s, columns[..|columns| - 1]), columns[|columns| - 1])
  }

  /**
   * After any clicks ending in a run of `n` clicks on column `c` that
   * started from another column, the table is sorted by `c`, ascending
   * when `n` is odd and descending when it is even.
   */
  lemma {:induction false} ClicksRun(s: SortSpec, columns: seq<Column>, c: Column, n: nat)
    requires 0 < n <= |columns|
    requires forall i :: |columns| - n <= i < |columns| ==> columns[i] == c
    requires Clicks(s, columns[..|columns| - n]).column != c
    ensures Clicks(s, columns) == SortSpec(c, if n % 2 == 1 then Asc else Desc)
    decreases n
  {
    var init := columns[..|columns| - 1];
    assert init[..|init| - (n - 1)] == columns[..|columns| - n];
    if n > 1 {
      ClicksRun(s, init, c, n - 1);
    } else {
      assert init == columns[..|columns| - n];
    }
  }

  /** The column names as the page lists them, in cell order. */
  function ColumnNames(): seq<string> {
    ["item", "translated", "fuzzy", "untranslated", "total"]
  }

  /** The `data-sort` name of a column. */
  function Name(c: Column): (name: string)
    ensures name in ColumnNames()
  {
    match c
    case Item => "item"
    case Translated => "translated"
    case Fuzzy => "fuzzy"
    case Untranslated => "untranslated"
    case Total => "total"
  }

  /** `indexOf`: the first position of `x` in `s`, or -1 when it is absent. */
  function IndexOf(s: seq<string>, x: string): (i: int)
    ensures -1 <= i < |s|
    ensures i == -1 <==> x !in s
    ensures i >= 0 ==> s[i] == x && x !in s[..i]
  {
    if s == [] then -1
    else if s[0] == x then 0
    else
      var j := IndexOf(s[1..], x);
      assert j >= 0 ==> s[..j + 1] == [s[0]] + s[1..][..j];
      if j == -1 then -1 else j + 1
  }

  /** `getColumnIndex`: the 1-based cell position of a column name, 0 for an unknown name. */
  function ColumnIndex(name: string): (i: nat)
    ensures i <= |ColumnNames()|
    ensures i == 0 <==> name !in ColumnNames()
    ensures i > 0 ==> ColumnNames()[i - 1] == name
  {
    IndexOf(ColumnNames(), name) + 1
  }

  /** The 1-based position of a column's cell in a row. */
  function Position(c: Column): (i: nat)
    ensures 1 <= i <= |ColumnNames()|
  {
    match c
    case Item => 1
    case Translated => 2
    case Fuzzy => 3
    case Untranslated => 4
    case Total => 5
  }

  /** `getColumnIndex` finds each column at its position; different columns at different ones. */
  lemma ColumnPositions(c: Column)
    ensures ColumnIndex(Name(c)) == Position(c)
    ensures forall d :: d != c ==> Position(d) != Position(c)
  {
    var names := ColumnNames();
    assert names[0] == "item" && names[1] == "translated" && names[2] == "fuzzy";
    assert names[3] == "untranslated" && names[4] == "total";
  }
}
