/**
 * The entity-relationship diagram (src/components/EERDiagram.tsx): one node per table, and a
 * foreign-key edge inferred from every column named `…_id` whose base name, plural or singular,
 * is another table. Layout positions are not modelled.
 */
module EerDiagram {
  import opened Wrappers
  import opened JsStrings
  import opened SchemaModel

  datatype TableNode = TableNode(id: string, title: string, columns: seq<Column>)

  /** An inferred reference: `source` is the referenced table, `target` the referencing one. */
  datatype FkEdge = FkEdge(id: string, source: string, target: string)

  /** `col.name.replace('_id', '')`: the first `_id` is removed, wherever it is. */
  function BaseName(colName: string): string {
    ReplaceFirst(colName, "_id", "")
  }

  /** The referenced table: `base + 's'` if that is a table, else `base` if that is a table. */
  function ReferencedTable(schema: Schema, colName: string): (r: Option<string>)
    ensures r.Some? ==> HasTable(schema, r.value)
    ensures r.Some? ==> r.value == BaseName(colName) + "s" || r.value == BaseName(colName)
    ensures HasTable(schema, BaseName(colName) + "s") ==> r == Some(BaseName(colName) + "s")
    ensures r.None? <==> !HasTable(schema, BaseName(colName) + "s") && !HasTable(schema, BaseName(colName))
  {
    var base := BaseName(colName);
    if HasTable(schema, base + "s") then Some(base + "s")
    else if HasTable(schema, base) then Some(base)
    else None
  }

  /** The edge one column of `table` contributes, if any. */
  function ColumnEdge(schema: Schema, table: string, col: Column): (r: Option<FkEdge>)
    ensures r.Some? ==> EndsWith(col.name, "_id")
    ensures r.Some? ==> r.value.target == table && r.value.source != table && r.value.source != ""
    ensures r.Some? ==> ReferencedTable(schema, col.name) == Some(r.value.source)
    ensures r.Some? ==> r.value.id == table + "-" + col.name + "-" + r.value.source
    ensures (EndsWith(col.name, "_id") && ReferencedTable(schema, col.name).Some?
      && ReferencedTable(schema, col.name).value !in {"", table}) ==> r.Some?
  {
    if !EndsWith(col.name, "_id") then None
    else match ReferencedTable(schema, col.name)
      case None => None
      case Some(t) =>
        if t != "" && t != table then Some(FkEdge(table + "-" + col.name + "-" + t, t, table)) else None
  }

  function ColumnEdges(schema: Schema, table: string, cols: seq<Column>): seq<FkEdge> {
    if cols == [] then []
    else
      var init := ColumnEdges(schema, table, cols[..|cols| - 1]);
      match ColumnEdge(schema, table, cols[|cols| - 1])
      case None => init
      case Some(e) => init + [e]
  }

  function TableEdges(schema: Schema, tables: seq<Table>): seq<FkEdge> {
    if tables == [] then []
    else
      var last := tables[|tables| - 1];
      TableEdges(schema, tables[..|tables| - 1]) + ColumnEdges(schema, last.name, last.columns)
  }

  function TableNodes(schema: Schema): (r: seq<TableNode>)
    ensures |r| == |schema|
    ensures forall i | 0 <= i < |schema| :: r[i] == TableNode(schema[i].name, schema[i].name, schema[i].columns)
  {
    seq(|schema|, i requires 0 <= i < |schema| => TableNode(schema[i].name, schema[i].name, schema[i].columns))
  }

  /**
   * The effect body: `None` for the early return on an empty schema (the diagram keeps what it
   * showed); otherwise the nodes and edges handed to the layout, built by nested loops.
   */
  method BuildDiagram(schema: Schema) returns (diagram: Option<(seq<TableNode>, seq<FkEdge>)>)
    ensures schema == [] <==> diagram.None?
    ensures diagram.Some? ==> diagram.value == (TableNodes(schema), TableEdges(schema, schema))
  {
    if |schema| == 0 {
      diagram := None;
    } else {
      var nodes: seq<TableNode> := [];
      var edges: seq<FkEdge> := [];
      for i := 0 to |schema|
        invariant nodes == TableNodes(schema[..i]) && edges == TableEdges(schema, schema[..i])
      {
        var table := schema[i];
        NodesStep(schema, i);
        EdgesStep(schema, i);
        nodes := nodes + [TableNode(table.name, table.name, table.columns)];
        edges := AddColumnEdges(schema, edges, table);
      }
      assert schema[..|schema|] == schema;
      diagram := Some((nodes, edges));
    }
  }

  /** One more table adds its node at the end. */
  lemma NodesStep(schema: Schema, i: nat)
    requires i < |schema|
    ensures TableNodes(schema[..i + 1]) == TableNodes(schema[..i]) + [TableNode(schema[i].name, schema[i].name, schema[i].columns)]
  {
    var l, r := TableNodes(schema[..i + 1]), TableNodes(schema[..i]) + [TableNode(schema[i].name, schema[i].name, schema[i].columns)];
    forall k | 0 <= k < |l|
      ensures l[k] == r[k]
    {
    }
  }

  /** One more table adds its columns' edges at the end. */
  lemma EdgesStep(schema: Schema, i: nat)
    requires i < |schema|
    ensures TableEdges(schema, schema[..i + 1]) == TableEdges(schema, schema[..i]) + ColumnEdges(schema, schema[i].name, schema[i].columns)
  {
    assert schema[..i + 1][..i] == schema[..i];
  }

  /** The inner loop of the effect: the edges of one table's columns, appended in column order. */
  method AddColumnEdges(schema: Schema, before: seq<FkEdge>, table: Table) returns (edges: seq<FkEdge>)
    ensures edges == before + ColumnEdges(schema, table.name, table.columns)
  {
    edges := before;
    for j := 0 to |table.columns|
      invariant edges == before + ColumnEdges(schema, table.name, table.columns[..j])
    {
      var col := table.columns[j];
      assert table.columns[..j + 1][..j] == table.columns[..j];
      if EndsWith(col.name, "_id") {
        var actualTarget := ReferencedTable(schema, col.name);
        if actualTarget.Some? && actualTarget.value != "" && actualTarget.value != table.name {
          edges := edges + [FkEdge(table.name + "-" + col.name + "-" + actualTarget.value, actualTarget.value, table.name)];
        }
      }
    }
    assert table.columns[..|table.columns|] == table.columns;
  }

  /** Every edge comes from one `_id` column of the table it points from, and is never a self-edge. */
  lemma {:induction false} ColumnEdgesSound(schema: Schema, table: string, cols: seq<Column>, e: FkEdge)
    requires e in ColumnEdges(schema, table, cols)
    ensures exists c | c in cols :: ColumnEdge(schema, table, c) == Some(e)
    ensures e.target == table && e.source != table && HasTable(schema, e.source)
  {
    var init := cols[..|cols| - 1];
    var last := cols[|cols| - 1];
    if e in ColumnEdges(schema, table, init) {
      ColumnEdgesSound(schema, table, init, e);
      var c :| c in init && ColumnEdge(schema, table, c) == Some(e);
      assert c in cols;
    } else {
      assert ColumnEdge(schema, table, last) == Some(e);
    }
  }

  lemma {:induction false} TableEdgesSound(schema: Schema, tables: seq<Table>, e: FkEdge)
    requires e in TableEdges(schema, tables)
    ensures exists t, c | t in tables && c in t.columns :: e.target == t.name && ColumnEdge(schema, t.name, c) == Some(e)
    ensures e.source != e.target && HasTable(schema, e.source)
  {
    var init := tables[..|tables| - 1];
    var last := tables[|tables| - 1];
    if e in TableEdges(schema, init) {
      TableEdgesSound(schema, init, e);
      var t, c :| t in init && c in t.columns && e.target == t.name && ColumnEdge(schema, t.name, c) == Some(e);
      assert t in tables;
    } else {
      ColumnEdgesSound(schema, last.name, last.columns, e);
    }
  }

  /** Each column yields at most one edge: there are never more edges than `_id` columns. */
  function IdColumns(cols: seq<Column>): nat {
    if cols == [] then 0
    else IdColumns(cols[..|cols| - 1]) + (if EndsWith(cols[|cols| - 1].name, "_id") then 1 else 0)
  }

  lemma {:induction false} ColumnEdgesAtMostOnePerColumn(schema: Schema, table: string, cols: seq<Column>)
    ensures |ColumnEdges(schema, table, cols)| <= IdColumns(cols)
  {
    if cols != [] {
      ColumnEdgesAtMostOnePerColumn(schema, table, cols[..|cols| - 1]);
    }
  }

  /** Removing `_id` from `b_id` gives `b` back when `b` holds no other `_id`. */
  lemma BaseOfSuffix(b: string)
    requires !Contains(b, "_id")
    ensures BaseName(b + "_id") == b
  {
    assert Unbordered("_id") by {
      var p := "_id";
      forall k | 0 < k < |p|
        ensures p[k..] != p[..|p| - k]
      {
        assert p[k..][0] != p[..|p| - k][0];
      }
    }
    ReplaceFirstAppended(b, "_id");
  }

  /** `author_id` in a table other than `authors`, with `authors` present, gives the edge `authors -> table`. */
  lemma PluralReference(schema: Schema, table: string, b: string)
    requires !Contains(b, "_id") && HasTable(schema, b + "s") && b + "s" != table
    ensures ColumnEdge(schema, table, Column(b + "_id", "int")).Some?
    ensures ColumnEdge(schema, table, Column(b + "_id", "int")).value == FkEdge(table + "-" + (b + "_id") + "-" + (b + "s"), b + "s", table)
  {
    var name := b + "_id";
    BaseOfSuffix(b);
    assert EndsWith(name, "_id") by { assert name[|b|..] == "_id"; }
    assert ReferencedTable(schema, name) == Some(b + "s");
  }
}
