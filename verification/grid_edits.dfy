/**
 * Inline cell editing in the result grid (src/components/ResultTable.tsx): the key handling
 * that records an edit, the SQL literals, and the UPDATE statements built from pending edits.
 */
module GridEdits {
  import opened Wrappers
  import opened JsStrings
  import opened JsValues
  import opened ResultGrid
  import opened JsArrays

  // ----------------------------------------------------------------- cell edits

  datatype EditingCell = EditingCell(rowId: int, col: string, value: Value)

  datatype Edit = Edit(rowId: int, col: string, value: Value, originalRow: Row)

  /** `pendingEdits.filter(pe => !(pe.rowId === rowId && pe.col === col))` */
  function WithoutCell(pending: seq<Edit>, rowId: int, col: string): (r: seq<Edit>)
    ensures r == Filter((e: Edit) => !(e.rowId == rowId && e.col == col), pending)
    ensures forall e :: e in r <==> e in pending && !(e.rowId == rowId && e.col == col)
  {
    if pending == [] then []
    else
      var rest := WithoutCell(pending[1..], rowId, col);
      assert pending == [pending[0]] + pending[1..];
      if pending[0].rowId == rowId && pending[0].col == col then rest else [pending[0]] + rest
  }

  /** At most one pending edit per cell. */
  predicate OnePerCell(pending: seq<Edit>) {
    forall i, j | 0 <= i < j < |pending| :: !(pending[i].rowId == pending[j].rowId && pending[i].col == pending[j].col)
  }

  /** `handleEditKeyDown`: the new editing cell and pending edits. */
  function KeyDown(key: string, editing: Option<EditingCell>, pending: seq<Edit>, row: Row): (r: (Option<EditingCell>, seq<Edit>))
    ensures key == "Enter" && editing.Some? ==>
      var c := editing.value;
      r == (None, WithoutCell(pending, c.rowId, c.col) + [Edit(c.rowId, c.col, c.value, row)])
    ensures key == "Escape" ==> r == (None, pending)
    ensures key != "Escape" && !(key == "Enter" && editing.Some?) ==> r == (editing, pending)
  {
    if key == "Enter" && editing.Some? then
      var c := editing.value;
      (None, WithoutCell(pending, c.rowId, c.col) + [Edit(c.rowId, c.col, c.value, row)])
    else if key == "Escape" then (None, pending)
    else (editing, pending)
  }

  lemma {:induction false} WithoutCellKeepsOnePerCell(pending: seq<Edit>, rowId: int, col: string)
    requires OnePerCell(pending)
    ensures OnePerCell(WithoutCell(pending, rowId, col))
  {
    if pending != [] {
      var rest := WithoutCell(pending[1..], rowId, col);
      WithoutCellKeepsOnePerCell(pending[1..], rowId, col);
      if !(pending[0].rowId == rowId && pending[0].col == col) {
        HeadCellUnique(pending);
        ConsOnePerCell(pending[0], rest, pending[1..]);
      }
    }
  }

  /** With one edit per cell, no later edit shares the first edit's cell. */
  lemma HeadCellUnique(pending: seq<Edit>)
    requires pending != [] && OnePerCell(pending)
    ensures forall e | e in pending[1..] :: !(e.rowId == pending[0].rowId && e.col == pending[0].col)
  {
    forall e | e in pending[1..]
      ensures !(e.rowId == pending[0].rowId && e.col == pending[0].col)
    {
      var k :| 0 <= k < |pending[1..]| && pending[1..][k] == e;
      assert pending[k + 1] == e;
    }
  }

  /** An edit put in front of edits for other cells keeps one edit per cell. */
  lemma ConsOnePerCell(head: Edit, rest: seq<Edit>, from: seq<Edit>)
    requires OnePerCell(rest) && forall e | e in rest :: e in from
    requires forall e | e in from :: !(e.rowId == head.rowId && e.col == head.col)
    ensures OnePerCell([head] + rest)
  {
    forall j | 0 <= j < |rest|
      ensures !(head.rowId == rest[j].rowId && head.col == rest[j].col)
    {
      assert rest[j] in rest;
    }
  }

  /** Every key press keeps at most one pending edit per cell; Enter leaves the new edit last. */
  lemma KeyDownKeepsOnePerCell(key: string, editing: Option<EditingCell>, pending: seq<Edit>, row: Row)
    requires OnePerCell(pending)
    ensures OnePerCell(KeyDown(key, editing, pending, row).1)
  {
    if key == "Enter" && editing.Some? {
      var c := editing.value;
      var kept := WithoutCell(pending, c.rowId, c.col);
      WithoutCellKeepsOnePerCell(pending, c.rowId, c.col);
      var r := kept + [Edit(c.rowId, c.col, c.value, row)];
      forall i, j | 0 <= i < j < |r|
        ensures !(r[i].rowId == r[j].rowId && r[i].col == r[j].col)
      {
        if j == |r| - 1 {
          assert r[i] in kept;
        } else {
          assert r[i] == kept[i] && r[j] == kept[j];
        }
      }
    }
  }

  // ---------------------------------------------------------- literals, UPDATE

  /** `s.replace(/'/g, "''")` */
  function DoubleQuotes(s: string): (r: string)
    ensures |r| >= |s|
  {
    if s == [] then []
    else (if s[0] == '\'' then "''" else [s[0]]) + DoubleQuotes(s[1..])
  }

  /** How SQL reads the inside of a quoted literal back: `''` stands for one `'`. */
  function UndoubleQuotes(t: string): string
    decreases |t|
  {
    if t == [] then []
    else if |t| >= 2 && t[0] == '\'' && t[1] == '\'' then "'" + UndoubleQuotes(t[2..])
    else [t[0]] + UndoubleQuotes(t[1..])
  }

  lemma {:induction false} QuotesRoundTrip(s: string)
    ensures UndoubleQuotes(DoubleQuotes(s)) == s
  {
    if s != [] {
      QuotesRoundTrip(s[1..]);
      var rest := DoubleQuotes(s[1..]);
      if s[0] == '\'' {
        assert DoubleQuotes(s) == "''" + rest;
        assert ("''" + rest)[2..] == rest;
      } else {
        assert DoubleQuotes(s) == [s[0]] + rest;
        assert ([s[0]] + rest)[1..] == rest;
      }
      assert s == [s[0]] + s[1..];
    }
  }

  /**
   * Standard SQL's reading of a quoted literal from just after its opening `'`, without
   * backslash escapes: `''` stands for one `'` and a lone `'` closes the literal. The text read
   * and what follows the closing quote, or `None` when the literal never closes.
   */
  function ReadQuoted(t: string): Option<(string, string)>
    decreases |t|
  {
    if t == [] then None
    else if t[0] == '\'' && |t| >= 2 && t[1] == '\'' then
      match ReadQuoted(t[2..])
      case None => None
      case Some(p) => Some(("'" + p.0, p.1))
    else if t[0] == '\'' then Some(([], t[1..]))
    else
      match ReadQuoted(t[1..])
      case None => None
      case Some(p) => Some(([t[0]] + p.0, p.1))
  }

  /**
   * A doubled text followed by `'` is one literal to the `''`-only reader: it reads back exactly
   * the text and resumes right after that quote, whatever follows it that does not itself start
   * with a quote. A reader that also honours backslash escapes can close it elsewhere.
   */
  lemma {:induction false} ReadQuotedDoubled(s: string, tail: string)
    requires tail == [] || tail[0] != '\''
    ensures ReadQuoted(DoubleQuotes(s) + "'" + tail) == Some((s, tail))
  {
    if s == [] {
      ReadClosing(tail);
    } else {
      ReadQuotedDoubled(s[1..], tail);
      var head := if s[0] == '\'' then "''" else [s[0]];
      assert DoubleQuotes(s) == head + DoubleQuotes(s[1..]);
      RegroupLiteral(head, DoubleQuotes(s[1..]), tail);
      if s[0] == '\'' {
        ReadEscapedQuote(DoubleQuotes(s[1..]) + "'" + tail, s[1..], tail);
      } else {
        ReadPlainChar(s[0], DoubleQuotes(s[1..]) + "'" + tail, s[1..], tail);
      }
      assert s == [s[0]] + s[1..];
    }
  }

  /** A lone quote closes the literal at once. */
  lemma ReadClosing(tail: string)
    requires tail == [] || tail[0] != '\''
    ensures ReadQuoted([] + "'" + tail) == Some(([], tail))
  {
    assert [] + "'" + tail == "'" + tail;
    assert ("'" + tail)[1..] == tail;
  }

  lemma RegroupLiteral(head: string, d: string, tail: string)
    ensures head + d + "'" + tail == head + (d + "'" + tail)
  {
  }

  /** `''` reads as one quote and the literal goes on. */
  lemma ReadEscapedQuote(later: string, text: string, tail: string)
    requires ReadQuoted(later) == Some((text, tail))
    ensures ReadQuoted("''" + later) == Some(("'" + text, tail))
  {
    assert ("''" + later)[2..] == later;
  }

  /** Any other character reads as itself and the literal goes on. */
  lemma ReadPlainChar(c: char, later: string, text: string, tail: string)
    requires c != '\'' && ReadQuoted(later) == Some((text, tail))
    ensures ReadQuoted([c] + later) == Some(([c] + text, tail))
  {
    assert ([c] + later)[1..] == later;
  }

  /** `'…'` around the text with its quotes doubled. */
  function Quoted(v: Value): string {
    "'" + DoubleQuotes(ToString(v)) + "'"
  }

  /** The literal in a SET clause: `NULL` for null, a number as is, anything else quoted. */
  function SetLiteral(v: Value): (r: string)
    ensures v.Null? ==> r == "NULL"
    ensures v.Num? ==> r == IntToString(v.n)
    ensures !v.Null? && !v.Num? ==> r == Quoted(v)
  {
    match v
    case Null => "NULL"
    case Num(n) => IntToString(n)
    case _ => Quoted(v)
  }

  /** To the `''`-only reader, a quoted value is one literal holding `String(val)`. */
  lemma QuotedReadsBack(v: Value, tail: string)
    requires tail == [] || tail[0] != '\''
    ensures var q := Quoted(v);
      q[0] == '\'' && ReadQuoted(q[1..] + tail) == Some((ToString(v), tail))
  {
    InsideQuotes(DoubleQuotes(ToString(v)), tail);
    ReadQuotedDoubled(ToString(v), tail);
  }

  lemma InsideQuotes(d: string, tail: string)
    ensures var q := "'" + d + "'";
      q[0] == '\'' && q[1..] + tail == d + "'" + tail
  {
    var q := "'" + d + "'";
    assert q[1..] == d + "'";
  }

  /** Un-doubling the inside of a quoted literal gives back `String(val)`. */
  lemma QuotedRoundTrip(v: Value)
    ensures var q := Quoted(v);
      && |q| >= 2 && q[0] == '\'' && q[|q| - 1] == '\''
      && UndoubleQuotes(q[1..|q| - 1]) == ToString(v)
  {
    var q := Quoted(v);
    assert q[1..|q| - 1] == DoubleQuotes(ToString(v));
    QuotesRoundTrip(ToString(v));
  }

  function SetClause(e: Edit): string {
    "`" + e.col + "` = " + SetLiteral(e.value)
  }

  function SetClauses(edits: seq<Edit>): seq<string> {
    seq(|edits|, i requires 0 <= i < |edits| => SetClause(edits[i]))
  }

  /** A WHERE condition on the original row: `IS NULL` for null or a missing value. */
  function WhereClause(key: string, row: Row): (r: string)
    ensures Get(row, key).Null? || Get(row, key).Undefined? ==> r == "`" + key + "` IS NULL"
    ensures Get(row, key).Num? ==> r == "`" + key + "` = " + IntToString(Get(row, key).n)
    ensures !(Get(row, key).Null? || Get(row, key).Undefined? || Get(row, key).Num?) ==>
      r == "`" + key + "` = " + Quoted(Get(row, key))
  {
    var v := Get(row, key);
    if v.Null? || v.Undefined? then "`" + key + "` IS NULL"
    else "`" + key + "` = " + (if v.Num? then IntToString(v.n) else Quoted(v))
  }

  function WhereClauses(fields: seq<Field>, row: Row): seq<string> {
    seq(|fields|, i requires 0 <= i < |fields| => WhereClause(fields[i].name, row))
  }

  /** `orgTable || table` */
  function FieldTable(f: Field): string {
    if f.orgTable != "" then f.orgTable else f.table
  }

  /** `k` is the first position of a field with that name. */
  ghost predicate FirstNamed(fields: seq<Field>, col: string, k: nat) {
    k < |fields| && fields[k].name == col && forall j | 0 <= j < k :: fields[j].name != col
  }

  /** `currentFields.find(f => f.name === col)`, then `orgTable || table`; `""` when none. */
  function TableOf(fields: seq<Field>, col: string): (t: string)
    ensures (forall f | f in fields :: f.name != col) ==> t == ""
    ensures forall k: nat | FirstNamed(fields, col, k) :: t == FieldTable(fields[k])
  {
    if fields == [] then ""
    else if fields[0].name == col then FieldTable(fields[0])
    else
      FirstNamedShift(fields, col);
      TableOf(fields[1..], col)
  }

  /** Past a first field with another name, the first position moves one back. */
  lemma FirstNamedShift(fields: seq<Field>, col: string)
    requires fields != [] && fields[0].name != col
    ensures forall k: nat | FirstNamed(fields, col, k) :: k > 0 && FirstNamed(fields[1..], col, k - 1)
  {
    forall k: nat | FirstNamed(fields, col, k)
      ensures k > 0 && FirstNamed(fields[1..], col, k - 1)
    {
      assert forall j | 0 <= j < k - 1 :: fields[1..][j] == fields[j + 1];
    }
  }

  /** The statement template: `` UPDATE `t` SET … WHERE … LIMIT 1; `` */
  function UpdateStatement(table: string, setClauses: seq<string>, whereClauses: seq<string>): string {
    "UPDATE `" + table + "` SET " + Join(setClauses, ", ") + " WHERE " + Join(whereClauses, " AND ") + " LIMIT 1;"
  }

  /** The rows edited, in the order their first edit appears: the key order of `editsByRow`. */
  function RowOrder(edits: seq<Edit>): seq<int> {
    if edits == [] then []
    else
      var before := RowOrder(edits[..|edits| - 1]);
      var id := edits[|edits| - 1].rowId;
      if id in before then before else before + [id]
  }

  /** The edits of one row, in edit order: `editsByRow.get(rowId)`. */
  function EditsOf(edits: seq<Edit>, rowId: int): seq<Edit> {
    if edits == [] then []
    else
      var last := edits[|edits| - 1];
      EditsOf(edits[..|edits| - 1], rowId) + (if last.rowId == rowId then [last] else [])
  }

  /** The row order lists each edited row exactly once. */
  lemma {:induction false} RowOrderExact(edits: seq<Edit>)
    ensures forall id :: id in RowOrder(edits) <==> exists e | e in edits :: e.rowId == id
    ensures forall i, j | 0 <= i < j < |RowOrder(edits)| :: RowOrder(edits)[i] != RowOrder(edits)[j]
  {
    if edits != [] {
      var init := edits[..|edits| - 1];
      RowOrderExact(init);
      assert edits == init + [edits[|edits| - 1]];
    }
  }

  /** The index of the first edit of row `id`, or the number of edits when the row was never edited. */
  function FirstEditOf(edits: seq<Edit>, id: int): (k: nat)
    ensures k <= |edits|
    ensures k < |edits| ==> edits[k].rowId == id
    ensures forall j | 0 <= j < k :: edits[j].rowId != id
  {
    if edits == [] then 0
    else if edits[0].rowId == id then 0
    else 1 + FirstEditOf(edits[1..], id)
  }

  /** An edit appended at the end moves no row's first edit, and gives a new row its first edit there. */
  lemma FirstEditSnoc(init: seq<Edit>, e: Edit, id: int)
    ensures FirstEditOf(init, id) < |init| ==> FirstEditOf(init + [e], id) == FirstEditOf(init, id)
    ensures FirstEditOf(init, id) == |init| && e.rowId == id ==> FirstEditOf(init + [e], id) == |init|
  {
    var s := init + [e];
    var k0, k := FirstEditOf(init, id), FirstEditOf(s, id);
    if k0 < |init| {
      assert s[k0] == init[k0];
      assert forall j | 0 <= j < k0 :: s[j] == init[j];
    } else if e.rowId == id {
      assert s[|init|] == e;
      assert forall j | 0 <= j < |init| :: s[j] == init[j];
    }
  }

  /** The key order is the order in which each row's first edit appears. */
  lemma {:induction false} RowOrderByFirstEdit(edits: seq<Edit>)
    ensures forall i, j | 0 <= i < j < |RowOrder(edits)| ::
      FirstEditOf(edits, RowOrder(edits)[i]) < FirstEditOf(edits, RowOrder(edits)[j])
    ensures forall i | 0 <= i < |RowOrder(edits)| :: FirstEditOf(edits, RowOrder(edits)[i]) < |edits|
  {
    if edits != [] {
      var init := edits[..|edits| - 1];
      var e := edits[|edits| - 1];
      var before := RowOrder(init);
      RowOrderByFirstEdit(init);
      RowOrderExact(init);
      assert edits == init + [e];
      forall i | 0 <= i < |before|
        ensures FirstEditOf(edits, before[i]) == FirstEditOf(init, before[i])
      {
        FirstEditSnoc(init, e, before[i]);
      }
      if e.rowId !in before {
        assert forall x | x in init :: x.rowId != e.rowId;
        FirstEditSnoc(init, e, e.rowId);
        assert RowOrder(edits) == before + [e.rowId];
      }
    }
  }

  /**
   * A row's group holds exactly that row's edits, in their order (it is the edits filtered by
   * row), and is empty only for rows never edited.
   */
  lemma EditsOfExact(edits: seq<Edit>, rowId: int)
    ensures EditsOf(edits, rowId) == Filter((e: Edit) => e.rowId == rowId, edits)
    ensures forall e :: e in EditsOf(edits, rowId) <==> e in edits && e.rowId == rowId
    ensures EditsOf(edits, rowId) == [] <==> rowId !in RowOrder(edits)
  {
    EditsOfIsFilter(edits, rowId);
    FilterMembers((e: Edit) => e.rowId == rowId, edits);
    RowOrderExact(edits);
    if EditsOf(edits, rowId) != [] {
      assert EditsOf(edits, rowId)[0] in EditsOf(edits, rowId);
    }
  }

  lemma {:induction false} EditsOfIsFilter(edits: seq<Edit>, rowId: int)
    ensures EditsOf(edits, rowId) == Filter((e: Edit) => e.rowId == rowId, edits)
  {
    if edits != [] {
      var init := edits[..|edits| - 1];
      var last := edits[|edits| - 1];
      EditsOfIsFilter(init, rowId);
      assert edits == init + [last];
      FilterSnoc((e: Edit) => e.rowId == rowId, init, last);
    }
  }

  /** The UPDATE for one row's edits, or nothing when its table is unknown. */
  function RowUpdate(group: seq<Edit>, fields: seq<Field>): (r: Option<string>)
    ensures group == [] ==> r.None?
    ensures group != [] ==> (r.None? <==> TableOf(fields, group[0].col) == "")
  {
    if group == [] then None
    else
      var table := TableOf(fields, group[0].col);
      if table == "" then None else Some(UpdateStatement(table, SetClauses(group), WhereClauses(fields, group[0].originalRow)))
  }

  /** Adds one row's outcome: a statement, or one more error. */
  function Tally(acc: (seq<string>, nat), update: Option<string>): (seq<string>, nat) {
    if update.Some? then (acc.0 + [update.value], acc.1) else (acc.0, acc.1 + 1)
  }

  /** The statements and the error count for the rows in `rows`, taken in order. */
  function Updates(rows: seq<int>, edits: seq<Edit>, fields: seq<Field>): (r: (seq<string>, nat))
    ensures |r.0| + r.1 == |rows|
  {
    if rows == [] then ([], 0)
    else Tally(Updates(rows[..|rows| - 1], edits, fields), RowUpdate(EditsOf(edits, rows[|rows| - 1]), fields))
  }

  lemma UpdatesStep(rows: seq<int>, j: nat, edits: seq<Edit>, fields: seq<Field>)
    requires j < |rows|
    ensures Updates(rows[..j + 1], edits, fields) == Tally(Updates(rows[..j], edits, fields), RowUpdate(EditsOf(edits, rows[j]), fields))
  {
    assert rows[..j + 1][..j] == rows[..j];
  }

  /** What `handleSaveEdits` does: its alerts, the query it runs, and the pending edits left. */
  datatype SaveOutcome = SaveOutcome(alerts: seq<string>, query: Option<string>, pending: seq<Edit>)

  /** `keys` and `editsByRow` hold the grouping of `edits`. */
  ghost predicate Grouped(edits: seq<Edit>, keys: seq<int>, editsByRow: map<int, seq<Edit>>) {
    && keys == RowOrder(edits)
    && (forall id :: id in editsByRow <==> id in keys)
    && (forall id | id in editsByRow :: editsByRow[id] == EditsOf(edits, id))
  }

  /** The map after adding `e` to its row's group, starting an empty group for a new row. */
  function AddToGroup(editsByRow: map<int, seq<Edit>>, e: Edit): map<int, seq<Edit>> {
    var started := if e.rowId in editsByRow then editsByRow else editsByRow[e.rowId := []];
    started[e.rowId := started[e.rowId] + [e]]
  }

  lemma GroupedKeysStep(keys: seq<int>, editsByRow: map<int, seq<Edit>>, e: Edit)
    requires forall id :: id in editsByRow <==> id in keys
    ensures forall id :: id in AddToGroup(editsByRow, e) <==> id in (if e.rowId in editsByRow then keys else keys + [e.rowId])
  {
  }

  lemma GroupedValuesStep(edits: seq<Edit>, i: nat, editsByRow: map<int, seq<Edit>>)
    requires i < |edits|
    requires edits[i].rowId !in editsByRow ==> edits[i].rowId !in RowOrder(edits[..i])
    requires forall id | id in editsByRow :: editsByRow[id] == EditsOf(edits[..i], id)
    ensures forall id | id in AddToGroup(editsByRow, edits[i]) :: AddToGroup(editsByRow, edits[i])[id] == EditsOf(edits[..i + 1], id)
  {
    var e := edits[i];
    assert edits[..i + 1][..i] == edits[..i];
    if e.rowId !in editsByRow {
      EditsOfExact(edits[..i], e.rowId);
    }
  }

  /** One iteration of the first `forEach` keeps the grouping up to date. */
  lemma GroupedStep(edits: seq<Edit>, i: nat, keys: seq<int>, editsByRow: map<int, seq<Edit>>)
    requires i < |edits| && Grouped(edits[..i], keys, editsByRow)
    ensures Grouped(edits[..i + 1], if edits[i].rowId in editsByRow then keys else keys + [edits[i].rowId], AddToGroup(editsByRow, edits[i]))
  {
    assert edits[..i + 1][..i] == edits[..i];
    GroupedKeysStep(keys, editsByRow, edits[i]);
    GroupedValuesStep(edits, i, editsByRow);
  }

  /** The first `forEach`: the edits grouped by row, with the rows in first-appearance order. */
  method GroupByRow(pendingEdits: seq<Edit>) returns (keys: seq<int>, editsByRow: map<int, seq<Edit>>)
    ensures keys == RowOrder(pendingEdits)
    ensures forall id :: id in editsByRow <==> id in keys
    ensures forall id | id in editsByRow :: editsByRow[id] == EditsOf(pendingEdits, id)
  {
    editsByRow := map[];
    keys := [];
    for i := 0 to |pendingEdits|
      invariant Grouped(pendingEdits[..i], keys, editsByRow)
    {
      var edit := pendingEdits[i];
      GroupedStep(pendingEdits, i, keys, editsByRow);
      ghost var added := AddToGroup(editsByRow, edit);
      if edit.rowId !in editsByRow {
        editsByRow := editsByRow[edit.rowId := []];
        keys := keys + [edit.rowId];
      }
      editsByRow := editsByRow[edit.rowId := editsByRow[edit.rowId] + [edit]];
      assert editsByRow == added;
    }
    assert pendingEdits[..|pendingEdits|] == pendingEdits;
  }

  /** The body of the second `forEach` for one row: its UPDATE, or nothing when its table is unknown. */
  method RowStatement(edits: seq<Edit>, currentFields: seq<Field>) returns (sql: Option<string>)
    ensures sql == RowUpdate(edits, currentFields)
  {
    if |edits| == 0 {
      return None;
    }
    var firstEdit := edits[0];
    var tableName := TableOf(currentFields, firstEdit.col);
    if tableName == "" {
      return None;
    }
    var setClauses := SetClauses(edits);
    var whereClauses := WhereClauses(currentFields, firstEdit.originalRow);
    sql := Some(UpdateStatement(tableName, setClauses, whereClauses));
  }

  /** The second `forEach`: one UPDATE per row whose table is known, and a count of the others. */
  method BuildUpdates(keys: seq<int>, editsByRow: map<int, seq<Edit>>, pendingEdits: seq<Edit>, currentFields: seq<Field>)
    returns (statements: seq<string>, errorCount: nat)
    requires forall id | id in keys :: id in editsByRow && editsByRow[id] == EditsOf(pendingEdits, id)
    ensures (statements, errorCount) == Updates(keys, pendingEdits, currentFields)
  {
    statements, errorCount := [], 0;
    for j := 0 to |keys|
      invariant statements == Updates(keys[..j], pendingEdits, currentFields).0
      invariant errorCount == Updates(keys[..j], pendingEdits, currentFields).1
    {
      var rowId := keys[j];
      var sql := RowStatement(editsByRow[rowId], currentFields);
      UpdatesStep(keys, j, pendingEdits, currentFields);
      if sql.Some? {
        statements := statements + [sql.value];
      } else {
        errorCount := errorCount + 1;
      }
    }
    assert keys[..|keys|] == keys;
  }

  /**
   * `handleSaveEdits`. `runRejects` says whether the awaited `onRunQuery` call rejects; then the
   * catch block alerts and the pending edits stay.
   */
  method SaveEdits(hasRunner: bool, runRejects: bool, pendingEdits: seq<Edit>, currentFields: seq<Field>) returns (out: SaveOutcome)
    ensures !hasRunner ==> out == SaveOutcome(["Query execution function not provided."], None, pendingEdits)
    ensures hasRunner ==>
      var (statements, errorCount) := Updates(RowOrder(pendingEdits), pendingEdits, currentFields);
      var missing := if errorCount > 0 then ["Could not generate updates for " + NatToString(errorCount) + " rows due to missing table information."] else [];
      && out.query == (if statements != [] then Some(Join(statements, "\n")) else None)
      && out.alerts == (if statements != [] && runRejects then missing + ["Failed to save edits"] else missing)
      && out.pending == (if statements != [] && !runRejects then [] else pendingEdits)
  {
    if !hasRunner {
      return SaveOutcome(["Query execution function not provided."], None, pendingEdits);
    }
    var keys, editsByRow := GroupByRow(pendingEdits);
    var statements, errorCount := BuildUpdates(keys, editsByRow, pendingEdits, currentFields);
    var alerts: seq<string> := [];
    if errorCount > 0 {
      alerts := ["Could not generate updates for " + NatToString(errorCount) + " rows due to missing table information."];
    }
    if |statements| > 0 {
      var fullQuery := Join(statements, "\n");
      if runRejects {
        return SaveOutcome(alerts + ["Failed to save edits"], Some(fullQuery), pendingEdits);
      }
      return SaveOutcome(alerts, Some(fullQuery), []);
    }
    out := SaveOutcome(alerts, None, pendingEdits);
  }

  /**
   * Every edited row yields either one statement or one error: the statements and the errors
   * add up to the number of distinct rows edited.
   */
  lemma SaveEditsAccounting(pendingEdits: seq<Edit>, fields: seq<Field>)
    ensures var (statements, errors) := Updates(RowOrder(pendingEdits), pendingEdits, fields);
      |statements| + errors == |RowOrder(pendingEdits)|
    ensures forall id | id in RowOrder(pendingEdits) :: EditsOf(pendingEdits, id) != []
  {
    forall id | id in RowOrder(pendingEdits)
      ensures EditsOf(pendingEdits, id) != []
    {
      EditsOfExact(pendingEdits, id);
    }
  }
}
