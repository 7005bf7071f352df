/**
 * The result grid (src/components/ResultTable.tsx): result-set tabs, the text filter, the
 * column sort, pagination, inline cell editing and the UPDATE statements built from the edits.
 */
module ResultGrid {
  import opened Wrappers
  import opened JsStrings
  import opened JsValues
  import opened JsArrays

  // ------------------------------------------------------------ result-set tabs

  /** A column description from the driver: its name and the table it comes from, `""` when absent. */
  datatype Field = Field(name: string, orgTable: string, table: string)

  datatype ResultSet = ResultSet(rows: seq<Row>, fields: seq<Field>, id: nat)

  /** `displayData.filter((_, i) => i !== index)` */
  function RemoveAt(data: seq<ResultSet>, index: nat): (r: seq<ResultSet>)
    ensures index < |data| ==> r == data[..index] + data[index + 1..]
    ensures index >= |data| ==> r == data
  {
    if index < |data| then data[..index] + data[index + 1..] else data
  }

  /** The active tab after closing tab `index`. */
  function ActiveAfterClose(active: nat, index: nat): (r: nat)
    ensures index == active ==> r == if index == 0 then 0 else index - 1
    ensures index < active ==> r == active - 1
    ensures index > active ==> r == active
  {
    if index == active then (if index - 1 > 0 then index - 1 else 0)
    else if index < active then active - 1
    else active
  }

  /** `handleCloseTab`: the remaining result sets and the repaired active index. */
  function CloseResultTab(data: seq<ResultSet>, active: nat, index: nat): (r: (seq<ResultSet>, nat))
    ensures r == (RemoveAt(data, index), ActiveAfterClose(active, index))
  {
    (RemoveAt(data, index), ActiveAfterClose(active, index))
  }

  /** `displayData[activeResultTab] || displayData[0]`, or nothing when there is no result set. */
  function Current(data: seq<ResultSet>, active: nat): (r: Option<ResultSet>)
    ensures data == [] <==> r.None?
    ensures 0 < |data| && active < |data| ==> r == Some(data[active])
    ensures 0 < |data| <= active ==> r == Some(data[0])
  {
    if data == [] then None else if active < |data| then Some(data[active]) else Some(data[0])
  }

  /**
   * Closing a tab keeps the active index inside the remaining tabs; closing another tab than
   * the active one leaves the same result set on display.
   */
  lemma CloseTabRepairsActive(data: seq<ResultSet>, active: nat, index: nat)
    requires active < |data|
    ensures var (rest, a) := CloseResultTab(data, active, index);
      && (rest != [] ==> a < |rest|)
      && (index != active ==> Current(rest, a) == Some(data[active]))
  {
    var (rest, a) := CloseResultTab(data, active, index);
    if index < |data| && index != active {
      if index < active {
        assert rest[a] == data[active];
      } else {
        assert rest[a] == data[active];
      }
    }
  }

  // --------------------------------------------------------------------- filter

  /** Some value of the row, as `String(val).toLowerCase()`, contains the lower-cased filter. */
  predicate RowMatches(row: Row, lowerFilter: string) {
    exists k | k in row :: Contains(Lower(ToString(row[k])), lowerFilter)
  }

  function Keep(rows: seq<Row>, lowerFilter: string): seq<Row> {
    if rows == [] then []
    else
      var rest := Keep(rows[1..], lowerFilter);
      if RowMatches(rows[0], lowerFilter) then [rows[0]] + rest else rest
  }

  /**
   * The filter keeps exactly the matching rows, in their order, each as often as it occurs:
   * it is `rows.filter(...)` with the row test as the callback.
   */
  lemma KeepExact(rows: seq<Row>, lowerFilter: string)
    ensures Keep(rows, lowerFilter) == Filter((row: Row) => RowMatches(row, lowerFilter), rows)
    ensures forall row :: row in Keep(rows, lowerFilter) <==> row in rows && RowMatches(row, lowerFilter)
    ensures forall row :: multiset(Keep(rows, lowerFilter))[row] ==
                          if RowMatches(row, lowerFilter) then multiset(rows)[row] else 0
  {
    var keep := (row: Row) => RowMatches(row, lowerFilter);
    KeepIsFilter(rows, lowerFilter);
    FilterMembers(keep, rows);
    forall row
      ensures multiset(Keep(rows, lowerFilter))[row] == if RowMatches(row, lowerFilter) then multiset(rows)[row] else 0
    {
      FilterCount(keep, rows, row);
    }
  }

  lemma {:induction false} KeepIsFilter(rows: seq<Row>, lowerFilter: string)
    ensures Keep(rows, lowerFilter) == Filter((row: Row) => RowMatches(row, lowerFilter), rows)
  {
    if rows != [] {
      KeepIsFilter(rows[1..], lowerFilter);
    }
  }

  /** The filter step: an empty filter keeps every row. */
  function FilterRows(rows: seq<Row>, filterText: string): (r: seq<Row>)
    ensures filterText == "" ==> r == rows
    ensures filterText != "" ==> r == Keep(rows, Lower(filterText))
  {
    if filterText == "" then rows else Keep(rows, Lower(filterText))
  }

  /** When every row matches, the filter keeps them all, in order. */
  lemma {:induction false} KeepAllMatching(rows: seq<Row>, lowerFilter: string)
    requires forall row | row in rows :: RowMatches(row, lowerFilter)
    ensures Keep(rows, lowerFilter) == rows
  {
    if rows != [] {
      assert forall row | row in rows[1..] :: row in rows;
      KeepAllMatching(rows[1..], lowerFilter);
      KeepMatchingHead(rows, lowerFilter);
    }
  }

  lemma KeepMatchingHead(rows: seq<Row>, lowerFilter: string)
    requires rows != [] && RowMatches(rows[0], lowerFilter) && Keep(rows[1..], lowerFilter) == rows[1..]
    ensures Keep(rows, lowerFilter) == rows
  {
    assert rows == [rows[0]] + rows[1..];
  }

  // ----------------------------------------------------------------------- sort

  datatype Direction = Asc | Desc

  datatype SortConfig = SortConfig(key: string, direction: Direction)

  /** `handleSort`: `desc` only when the same key is sorted `asc`, otherwise `asc`. */
  function NextSort(current: Option<SortConfig>, key: string): (r: SortConfig)
    ensures r.key == key
    ensures r.direction == Desc <==> current == Some(SortConfig(key, Asc))
  {
    SortConfig(key, if current.Some? && current.value.key == key && current.value.direction == Asc then Desc else Asc)
  }

  /** Clicking the same header three times cycles asc, desc, asc. */
  lemma SortClicksCycle(key: string)
    ensures NextSort(None, key) == SortConfig(key, Asc)
    ensures NextSort(Some(NextSort(None, key)), key) == SortConfig(key, Desc)
    ensures NextSort(Some(NextSort(Some(NextSort(None, key)), key)), key) == SortConfig(key, Asc)
  {
  }

  function Rank(v: Value): nat {
    match v
    case Null => 0
    case Undefined => 1
    case Bool(_) => 2
    case Num(_) => 3
    case Text(_) => 4
  }

  /** Code-unit order on strings, as `<` compares two strings. */
  predicate TextLess(s: string, t: string) {
    if t == [] then false
    else if s == [] then true
    else s[0] < t[0] || (s[0] == t[0] && TextLess(s[1..], t[1..]))
  }

  /** `<` on cell values: as JavaScript within one kind of value; kinds are ordered by `Rank`. */
  predicate ValueLess(a: Value, b: Value) {
    if Rank(a) != Rank(b) then Rank(a) < Rank(b)
    else match (a, b)
      case (Bool(x), Bool(y)) => !x && y
      case (Num(x), Num(y)) => x < y
      case (Text(x), Text(y)) => TextLess(x, y)
      case _ => false
  }

  lemma {:induction false} TextLessTransitive(s: string, t: string, u: string)
    requires TextLess(s, t) && TextLess(t, u)
    ensures TextLess(s, u)
  {
    if s != [] && s[0] == t[0] && t[0] == u[0] {
      TextLessTransitive(s[1..], t[1..], u[1..]);
    }
  }

  lemma {:induction false} TextLessTotal(s: string, t: string)
    ensures TextLess(s, t) || TextLess(t, s) || s == t
  {
    if s != [] && t != [] && s[0] == t[0] {
      TextLessTotal(s[1..], t[1..]);
      if s[1..] == t[1..] {
        assert s == [s[0]] + s[1..] && t == [t[0]] + t[1..];
      }
    }
  }

  lemma ValueLessTransitive(a: Value, b: Value, c: Value)
    requires ValueLess(a, b) && ValueLess(b, c)
    ensures ValueLess(a, c)
  {
    if a.Text? && b.Text? && c.Text? {
      TextLessTransitive(a.s, b.s, c.s);
    }
  }

  /** Two values neither of which is below the other are equal: the order is total. */
  lemma ValueLessTotal(a: Value, b: Value)
    ensures ValueLess(a, b) || ValueLess(b, a) || a == b
  {
    if a.Text? && b.Text? {
      TextLessTotal(a.s, b.s);
    }
  }

  /** The comparator returns a negative number: `a` goes before `b`. */
  predicate Before(cfg: SortConfig, a: Row, b: Row) {
    var x, y := Get(a, cfg.key), Get(b, cfg.key);
    if cfg.direction == Asc then ValueLess(x, y) else ValueLess(y, x)
  }

  lemma BeforeTransitive(cfg: SortConfig, a: Row, b: Row, c: Row)
    ensures Before(cfg, a, b) && Before(cfg, b, c) ==> Before(cfg, a, c)
  {
    if Before(cfg, a, b) && Before(cfg, b, c) {
      if cfg.direction == Asc {
        ValueLessTransitive(Get(a, cfg.key), Get(b, cfg.key), Get(c, cfg.key));
      } else {
        ValueLessTransitive(Get(c, cfg.key), Get(b, cfg.key), Get(a, cfg.key));
      }
    }
  }

  /** No row goes before one placed ahead of it. */
  predicate Sorted(cfg: SortConfig, s: seq<Row>) {
    forall i, j | 0 <= i < j < |s| :: !Before(cfg, s[j], s[i])
  }

  /** Insert `x` after every row it does not go before. */
  function Insert(cfg: SortConfig, sorted: seq<Row>, x: Row): (r: seq<Row>)
    ensures multiset(r) == multiset(sorted) + multiset{x}
    ensures |r| == |sorted| + 1
  {
    if sorted == [] then [x]
    else if Before(cfg, x, sorted[0]) then [x] + sorted
    else
      assert sorted == [sorted[0]] + sorted[1..];
      [sorted[0]] + Insert(cfg, sorted[1..], x)
  }

  lemma {:induction false} InsertSorted(cfg: SortConfig, sorted: seq<Row>, x: Row)
    requires Sorted(cfg, sorted)
    ensures Sorted(cfg, Insert(cfg, sorted, x))
  {
    if sorted == [] {
    } else if Before(cfg, x, sorted[0]) {
      InsertFrontSorted(cfg, sorted, x);
    } else {
      InsertSorted(cfg, sorted[1..], x);
      HeadAheadOfInsert(cfg, sorted, x);
      ConsSorted(cfg, sorted[0], Insert(cfg, sorted[1..], x));
    }
  }

  /** A row that goes before the first row of a sorted list may lead it. */
  lemma InsertFrontSorted(cfg: SortConfig, sorted: seq<Row>, x: Row)
    requires Sorted(cfg, sorted) && sorted != [] && Before(cfg, x, sorted[0])
    ensures Sorted(cfg, [x] + sorted)
  {
    var r := [x] + sorted;
    forall i, j | 0 <= i < j < |r|
      ensures !Before(cfg, r[j], r[i])
    {
      if i == 0 {
        ValueLessIrreflexive(cfg, sorted[0]);
        BeforeTransitive(cfg, r[j], x, sorted[0]);
        assert r[j] == sorted[j - 1];
      } else {
        assert r[i] == sorted[i - 1] && r[j] == sorted[j - 1];
      }
    }
  }

  /** A row that no row of a sorted list goes before may lead it. */
  lemma ConsSorted(cfg: SortConfig, head: Row, tail: seq<Row>)
    requires Sorted(cfg, tail) && forall j | 0 <= j < |tail| :: !Before(cfg, tail[j], head)
    ensures Sorted(cfg, [head] + tail)
  {
    var r := [head] + tail;
    forall i, j | 0 <= i < j < |r|
      ensures !Before(cfg, r[j], r[i])
    {
      assert r[j] == tail[j - 1];
      if i > 0 {
        assert r[i] == tail[i - 1];
      }
    }
  }

  /** No row of the rest with `x` inserted goes before the first row. */
  lemma HeadAheadOfInsert(cfg: SortConfig, sorted: seq<Row>, x: Row)
    requires Sorted(cfg, sorted) && sorted != [] && !Before(cfg, x, sorted[0])
    ensures forall j | 0 <= j < |Insert(cfg, sorted[1..], x)| :: !Before(cfg, Insert(cfg, sorted[1..], x)[j], sorted[0])
  {
    var tail := Insert(cfg, sorted[1..], x);
    forall j | 0 <= j < |tail|
      ensures !Before(cfg, tail[j], sorted[0])
    {
      assert tail[j] in multiset(sorted[1..]) + multiset{x};
      if tail[j] != x {
        assert tail[j] in sorted[1..];
        var k :| 0 <= k < |sorted[1..]| && sorted[1..][k] == tail[j];
        assert sorted[k + 1] == tail[j];
      }
    }
  }

  lemma ValueLessIrreflexive(cfg: SortConfig, a: Row)
    ensures !Before(cfg, a, a)
  {
    var v := Get(a, cfg.key);
    if v.Text? {
      TextLessIrreflexive(v.s);
    }
  }

  lemma {:induction false} TextLessIrreflexive(s: string)
    ensures !TextLess(s, s)
  {
    if s != [] {
      TextLessIrreflexive(s[1..]);
    }
  }

  /** The engine's sort on the copy, written as an insertion sort; ties keep their input order. */
  function SortRows(cfg: SortConfig, rows: seq<Row>): (r: seq<Row>)
    ensures multiset(r) == multiset(rows)
  {
    if rows == [] then []
    else
      assert rows == rows[..|rows| - 1] + [rows[|rows| - 1]];
      Insert(cfg, SortRows(cfg, rows[..|rows| - 1]), rows[|rows| - 1])
  }

  lemma {:induction false} SortRowsSorted(cfg: SortConfig, rows: seq<Row>)
    ensures Sorted(cfg, SortRows(cfg, rows))
  {
    if rows != [] {
      SortRowsSorted(cfg, rows[..|rows| - 1]);
      InsertSorted(cfg, SortRows(cfg, rows[..|rows| - 1]), rows[|rows| - 1]);
    }
  }

  /** `processedRows`: the filter, then the sort when a sort is set. */
  function ProcessedRows(rows: seq<Row>, filterText: string, sort: Option<SortConfig>): seq<Row> {
    var kept := FilterRows(rows, filterText);
    if sort.Some? then SortRows(sort.value, kept) else kept
  }

  /** The processed rows are a permutation of the matching rows, ordered by the sort when one is set. */
  lemma ProcessedRowsCorrect(rows: seq<Row>, filterText: string, sort: Option<SortConfig>)
    ensures multiset(ProcessedRows(rows, filterText, sort)) == multiset(FilterRows(rows, filterText))
    ensures multiset(ProcessedRows(rows, filterText, sort)) <= multiset(rows)
    ensures sort.Some? ==> Sorted(sort.value, ProcessedRows(rows, filterText, sort))
    ensures sort.None? ==> ProcessedRows(rows, filterText, sort) == FilterRows(rows, filterText)
  {
    if filterText != "" {
      KeepExact(rows, Lower(filterText));
    }
    if sort.Some? {
      SortRowsSorted(sort.value, FilterRows(rows, filterText));
    }
  }

  // ----------------------------------------------------------------- pagination

  /** `Math.ceil(n / pageSize)` */
  function TotalPages(n: nat, pageSize: nat): (pages: nat)
    requires pageSize > 0
    ensures (pages - 1) * pageSize < n <= pages * pageSize || (n == 0 && pages == 0)
  {
    (n + pageSize - 1) / pageSize
  }

  /** `Array.prototype.slice(start, end)`, with its clamping of negative and large bounds. */
  function JsSlice<T>(s: seq<T>, start: int, end: int): (r: seq<T>)
    ensures |r| <= |s|
    ensures 0 <= start <= end <= |s| ==> r == s[start..end]
    ensures 0 <= start <= |s| <= end ==> r == s[start..]
    ensures 0 <= end <= start ==> r == []
    ensures 0 < -start <= |s| <= end ==> r == s[|s| + start..]
  {
    var lo := if start < 0 then (if |s| + start > 0 then |s| + start else 0) else if start < |s| then start else |s|;
    var hi := if end < 0 then (if |s| + end > 0 then |s| + end else 0) else if end < |s| then end else |s|;
    if hi <= lo then [] else s[lo..hi]
  }

  /** `processedRows.slice((currentPage - 1) * pageSize, currentPage * pageSize)` */
  function PageRows(rows: seq<Row>, page: int, pageSize: nat): (r: seq<Row>)
    requires pageSize > 0
    ensures |r| <= pageSize
    ensures page >= 1 && (page - 1) * pageSize < |rows| ==>
      r == rows[(page - 1) * pageSize..if page * pageSize < |rows| then page * pageSize else |rows|]
    ensures page == 0 ==> r == []
  {
    JsSlice(rows, (page - 1) * pageSize, page * pageSize)
  }

  /** The Prev button: `Math.max(1, p - 1)` */
  function PrevPage(page: int): (r: int)
    ensures r >= 1 && (page > 1 ==> r == page - 1)
  {
    if page - 1 > 1 then page - 1 else 1
  }

  /** The Next button: `Math.min(totalPages, p + 1)` */
  function NextPage(page: int, totalPages: nat): (r: int)
    ensures r <= totalPages && (page < totalPages ==> r == page + 1)
  {
    if page + 1 < totalPages then page + 1 else totalPages
  }

  /** Inside a non-empty grid the buttons keep the page between 1 and the page count; on an empty grid Next goes to page 0, which shows no rows. */
  lemma PagesStayInRange(page: int, totalPages: nat, pageSize: nat)
    requires pageSize > 0
    ensures 1 <= page <= totalPages ==> 1 <= PrevPage(page) <= totalPages && 1 <= NextPage(page, totalPages) <= totalPages
    ensures NextPage(1, 0) == 0 && PageRows([], 0, pageSize) == []
  {
  }
}
