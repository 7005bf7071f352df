/**
 * The chart view (src/components/DataVisualizer.tsx): which rows it charts, how it splits the
 * fields into numeric and categorical ones by the first row, how it picks default axes, and the
 * pie-slice highlight. A field is represented by its name; `""` stands for a field without one.
 */
module DataVisualizer {
  import opened Wrappers
  import opened JsValues
  import opened JsArrays

  const CurrentResults := "Current Query Results"

  /** `prev === index ? undefined : index` */
  function PieToggle(prev: Option<nat>, index: nat): (r: Option<nat>)
    ensures r.None? <==> prev == Some(index)
    ensures r.Some? ==> r.value == index
  {
    if prev == Some(index) then None else Some(index)
  }

  /** Entering the highlighted slice again clears the highlight; entering it once more restores it. */
  lemma PieToggleTwice(index: nat)
    ensures PieToggle(PieToggle(Some(index), index), index) == Some(index)
    ensures PieToggle(PieToggle(None, index), index) == None
  {
  }

  /** The number of named fields. */
  function NamedCount(fields: seq<string>): nat {
    if fields == [] then 0
    else NamedCount(fields[..|fields| - 1]) + (if fields[|fields| - 1] == "" then 0 else 1)
  }

  /**
   * The numeric and the categorical field names, in field order: a named field is numeric
   * when its value in `row` is a number.
   */
  function Classified(fields: seq<string>, row: Row): (r: (seq<string>, seq<string>))
    ensures forall n | n in r.0 :: n in fields && n != "" && Get(row, n).Num?
    ensures forall n | n in r.1 :: n in fields && n != "" && !Get(row, n).Num?
    ensures forall n | n in fields && n != "" :: n in r.0 || n in r.1
    ensures |r.0| + |r.1| == NamedCount(fields)
  {
    if fields == [] then ([], [])
    else
      var init := fields[..|fields| - 1];
      var f := fields[|fields| - 1];
      var (numeric, category) := Classified(init, row);
      assert forall n | n in init :: n in fields;
      assert fields == init + [f];
      if f == "" then (numeric, category)
      else if Get(row, f).Num? then (numeric + [f], category)
      else (numeric, category + [f])
  }

  /** The numeric list keeps field order: it is `fields.filter(...)` with the numeric test. */
  lemma {:induction false} NumericInOrder(fields: seq<string>, row: Row)
    ensures Classified(fields, row).0 == Filter((n: string) => n != "" && Get(row, n).Num?, fields)
  {
    if fields != [] {
      var init := fields[..|fields| - 1];
      var f := fields[|fields| - 1];
      NumericInOrder(init, row);
      assert fields == init + [f];
      FilterSnoc((n: string) => n != "" && Get(row, n).Num?, init, f);
      var (numeric, category) := Classified(init, row);
      assert Classified(fields, row).0 == if f != "" && Get(row, f).Num? then numeric + [f] else numeric;
    }
  }

  /** The categorical list keeps field order: it is `fields.filter(...)` with the other test. */
  lemma {:induction false} CategoryInOrder(fields: seq<string>, row: Row)
    ensures Classified(fields, row).1 == Filter((n: string) => n != "" && !Get(row, n).Num?, fields)
  {
    if fields != [] {
      var init := fields[..|fields| - 1];
      var f := fields[|fields| - 1];
      CategoryInOrder(init, row);
      assert fields == init + [f];
      FilterSnoc((n: string) => n != "" && !Get(row, n).Num?, init, f);
      var (numeric, category) := Classified(init, row);
      assert Classified(fields, row).1 == if f != "" && !Get(row, f).Num? then category + [f] else category;
    }
  }

  /**
   * Both lists keep field order, so the first numeric and the first categorical field are the
   * first such fields of the row.
   */
  lemma ClassifiedInOrder(fields: seq<string>, row: Row)
    ensures Classified(fields, row).0 == Filter((n: string) => n != "" && Get(row, n).Num?, fields)
    ensures Classified(fields, row).1 == Filter((n: string) => n != "" && !Get(row, n).Num?, fields)
  {
    NumericInOrder(fields, row);
    CategoryInOrder(fields, row);
  }

  /** The `useMemo` that fills `numeric` and `category` by a `forEach` over the fields. */
  method Classify(fields: seq<string>, data: seq<Row>) returns (numeric: seq<string>, category: seq<string>)
    ensures fields == [] || data == [] ==> numeric == [] && category == []
    ensures fields != [] && data != [] ==> (numeric, category) == Classified(fields, data[0])
  {
    numeric, category := [], [];
    if |fields| > 0 && |data| > 0 {
      for i := 0 to |fields|
        invariant (numeric, category) == Classified(fields[..i], data[0])
      {
        assert fields[..i + 1][..i] == fields[..i];
        var name := fields[i];
        if name == "" {
          continue;
        }
        var val := Get(data[0], name);
        if val.Num? {
          numeric := numeric + [name];
        } else {
          category := category + [name];
        }
      }
      assert fields[..|fields|] == fields;
    }
  }

  /** `names.filter(n => n !== x)` */
  function Except(names: seq<string>, x: string): (r: seq<string>)
    ensures forall n :: n in r <==> n in names && n != x
    ensures |r| <= |names|
  {
    if names == [] then []
    else if names[0] == x then Except(names[1..], x)
    else [names[0]] + Except(names[1..], x)
  }

  /** The names other than x, in their order: `names.filter(n => n !== x)`, so `[0]` is the first of them. */
  lemma {:induction false} ExceptInOrder(names: seq<string>, x: string)
    ensures Except(names, x) == Filter((n: string) => n != x, names)
  {
    if names != [] {
      ExceptInOrder(names[1..], x);
    }
  }

  /** Whether the y axis is reset: unset, equal to x, or not among the other fields, while some other field exists. */
  predicate ResetsY(x: string, y: string, fields: seq<string>) {
    var valid := Except(fields, x);
    (y == "" || y == x || y !in valid) && |valid| > 0
  }

  /**
   * One evaluation of the default-axes memo, which reads the axes as they were before its own
   * setter calls: the new x, and the new y chosen against the OLD x.
   */
  function Axes(x: string, y: string, fields: seq<string>, numeric: seq<string>, category: seq<string>): (r: (string, string))
    ensures x == "" && |category| > 0 ==> r.0 == category[0]
    ensures !(x == "" && |category| > 0) ==> r.0 == x
    ensures !ResetsY(x, y, fields) ==> r.1 == y
    ensures ResetsY(x, y, fields) && |Except(numeric, x)| > 0 ==> r.1 == Except(numeric, x)[0]
    ensures ResetsY(x, y, fields) && |Except(numeric, x)| == 0 ==> r.1 == Except(fields, x)[0]
    ensures (exists n :: n in fields && n != x) ==> r.1 != x
  {
    var newX := if x == "" && |category| > 0 then category[0] else x;
    var valid := Except(fields, x);
    if ResetsY(x, y, fields) then
      var validNumeric := Except(numeric, x);
      if |validNumeric| > 0 then
        assert validNumeric[0] in validNumeric;
        (newX, validNumeric[0])
      else
        assert valid[0] in valid;
        (newX, valid[0])
    else (newX, y)
  }

  /**
   * Two evaluations settle: the second one's result is left as it is by a third, and there
   * the y axis differs from the x axis whenever some field other than x exists.
   */
  lemma AxesSettle(x: string, y: string, fields: seq<string>, numeric: seq<string>, category: seq<string>)
    requires forall n | n in category :: n != ""
    ensures var first := Axes(x, y, fields, numeric, category);
      var second := Axes(first.0, first.1, fields, numeric, category);
      && second.0 == first.0
      && Axes(second.0, second.1, fields, numeric, category) == second
      && ((exists n :: n in fields && n != second.0) ==> second.1 != second.0)
  {
    var first := Axes(x, y, fields, numeric, category);
    if |category| > 0 {
      assert category[0] in category;
    }
    var second := Axes(first.0, first.1, fields, numeric, category);
    assert second.0 == first.0;
  }

  class Visualizer {
    var xAxisKey: string
    var yAxisKey: string
    var activeIndex: Option<nat>
    var selectedTable: string
    var localData: seq<Row>
    var localFields: seq<string>

    constructor ()
      ensures xAxisKey == "" && yAxisKey == "" && activeIndex.None?
      ensures selectedTable == CurrentResults && localData == [] && localFields == []
    {
      xAxisKey, yAxisKey, activeIndex := "", "", None;
      selectedTable, localData, localFields := CurrentResults, [], [];
    }

    /** The rows and fields charted: the props for the current results, otherwise the fetched table. */
    function Source(initialData: seq<Row>, initialFields: seq<string>): (r: (seq<Row>, seq<string>))
      reads this
      ensures selectedTable == CurrentResults ==> r == (initialData, initialFields)
      ensures selectedTable != CurrentResults ==> r == (localData, localFields)
    {
      if selectedTable == CurrentResults then (initialData, initialFields) else (localData, localFields)
    }

    /** `onPieEnter` */
    method PieEnter(index: nat)
      modifies this
      ensures activeIndex == PieToggle(old(activeIndex), index)
      ensures xAxisKey == old(xAxisKey) && yAxisKey == old(yAxisKey)
      ensures selectedTable == old(selectedTable) && localData == old(localData) && localFields == old(localFields)
    {
      activeIndex := PieToggle(activeIndex, index);
    }

    /** `handleTableChange`; `fetched` is what `onFetchTableData` resolves to for another table. */
    method ChangeTable(tableName: string, fetched: (seq<Row>, seq<string>))
      modifies this
      ensures selectedTable == tableName
      ensures tableName != CurrentResults ==> localData == fetched.0 && localFields == fetched.1
      ensures tableName == CurrentResults ==> localData == old(localData) && localFields == old(localFields)
      ensures xAxisKey == old(xAxisKey) && yAxisKey == old(yAxisKey) && activeIndex == old(activeIndex)
    {
      selectedTable := tableName;
      if tableName != CurrentResults {
        localData := fetched.0;
        localFields := fetched.1;
      }
    }

    /** One render's field classification and default-axes memo. */
    method DefaultAxes(initialData: seq<Row>, initialFields: seq<string>)
      modifies this
      ensures var (data, fields) := old(Source(initialData, initialFields));
        var split := if fields == [] || data == [] then ([], []) else Classified(fields, data[0]);
        (xAxisKey, yAxisKey) == Axes(old(xAxisKey), old(yAxisKey), fields, split.0, split.1)
      ensures activeIndex == old(activeIndex)
      ensures selectedTable == old(selectedTable) && localData == old(localData) && localFields == old(localFields)
    {
      var (data, fields) := Source(initialData, initialFields);
      var numericFields, categoryFields := Classify(fields, data);
      var x, y := xAxisKey, yAxisKey;
      if x == "" && |categoryFields| > 0 {
        xAxisKey := categoryFields[0];
      }
      var validYFields := Except(fields, x);
      if (y == "" || y == x || y !in validYFields) && |validYFields| > 0 {
        var validNumeric := Except(numericFields, x);
        if |validNumeric| > 0 {
          yAxisKey := validNumeric[0];
        } else {
          yAxisKey := validYFields[0];
        }
      }
    }
  }
}
