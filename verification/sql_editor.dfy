/** The keyword list the editor offers first, in its order. */
module SqlKeywords {
  const Keywords: seq<string> := [
    "SELECT", "FROM", "WHERE", "INSERT", "UPDATE", "DELETE", "JOIN", "LEFT", "RIGHT", "INNER",
    "GROUP BY", "ORDER BY", "LIMIT", "OFFSET", "AND", "OR", "NOT", "NULL", "IS", "IN",
    "BETWEEN", "LIKE", "AS", "ON", "VALUES", "SET", "CREATE", "TABLE", "DROP", "ALTER",
    "INDEX", "VIEW", "TRIGGER", "PROCEDURE", "FUNCTION", "DATABASE", "USE", "SHOW", "DESCRIBE", "EXPLAIN"]
}

/**
 * The SQL editor (src/components/SQLEditor.tsx): the completion list it offers, the font-size
 * zoom buttons, and when typing `?` asks the assistant instead of inserting the character.
 */
module SqlEditor {
  import opened JsStrings
  import opened SchemaModel
  import opened SqlKeywords

  datatype SuggestionKind = Keyword | TableName | FieldName

  /** One completion item; its label and its insert text are both `text`. */
  datatype Suggestion = Suggestion(text: string, kind: SuggestionKind, detail: string)

  /** The keyword items, in list order; keyword items carry no detail. */
  function KeywordSuggestions(): (r: seq<Suggestion>)
    ensures |r| == |Keywords| == 40
    ensures forall i | 0 <= i < |Keywords| :: r[i] == Suggestion(Keywords[i], Keyword, "")
  {
    seq(|Keywords|, i requires 0 <= i < |Keywords| => Suggestion(Keywords[i], Keyword, ""))
  }

  /** The item for a column of `table`: detail `{table} ({type})`. */
  function FieldSuggestion(table: string, col: Column): Suggestion {
    Suggestion(col.name, FieldName, table + " (" + col.colType + ")")
  }

  function ColumnSuggestions(table: string, cols: seq<Column>): (r: seq<Suggestion>)
    ensures |r| == |cols|
    ensures forall j | 0 <= j < |cols| :: r[j] == FieldSuggestion(table, cols[j])
  {
    seq(|cols|, j requires 0 <= j < |cols| => FieldSuggestion(table, cols[j]))
  }

  /** One table's items: the table itself, detail `Table`, then its columns in order. */
  function TableSuggestions(t: Table): seq<Suggestion> {
    [Suggestion(t.name, TableName, "Table")] + ColumnSuggestions(t.name, t.columns)
  }

  function SchemaSuggestions(schema: Schema): seq<Suggestion> {
    if schema == [] then []
    else SchemaSuggestions(schema[..|schema| - 1]) + TableSuggestions(schema[|schema| - 1])
  }

  /** One item per table plus one per column. */
  function ItemCount(schema: Schema): nat {
    if schema == [] then 0
    else ItemCount(schema[..|schema| - 1]) + 1 + |schema[|schema| - 1].columns|
  }

  lemma {:induction false} SchemaSuggestionsLength(schema: Schema)
    ensures |SchemaSuggestions(schema)| == ItemCount(schema)
  {
    if schema != [] {
      SchemaSuggestionsLength(schema[..|schema| - 1]);
    }
  }

  /** The schema part is the tables' parts laid end to end. */
  lemma {:induction false} SchemaSuggestionsAppend(a: Schema, b: Schema)
    ensures SchemaSuggestions(a + b) == SchemaSuggestions(a) + SchemaSuggestions(b)
  {
    if b != [] {
      assert (a + b)[..|a + b| - 1] == a + b[..|b| - 1];
      SchemaSuggestionsAppend(a, b[..|b| - 1]);
    } else {
      assert a + b == a;
    }
  }

  /** Each table's items sit, together and in order, between those of the tables before and after it. */
  lemma TableItemsInPlace(schema: Schema, i: nat)
    requires i < |schema|
    ensures SchemaSuggestions(schema) ==
      SchemaSuggestions(schema[..i]) + TableSuggestions(schema[i]) + SchemaSuggestions(schema[i + 1..])
  {
    var before, t, after := schema[..i], schema[i], schema[i + 1..];
    SplitAt(schema, i);
    SchemaSuggestionsAppend(before + [t], after);
    SchemaSuggestionsAppend(before, [t]);
    OneTable(t);
  }

  lemma SplitAt<X>(s: seq<X>, i: nat)
    requires i < |s|
    ensures s == s[..i] + [s[i]] + s[i + 1..]
  {
  }

  lemma OneTable(t: Table)
    ensures SchemaSuggestions([t]) == TableSuggestions(t)
  {
    assert [t][..0] == [];
  }

  /** `provideCompletionItems`: keywords first, then each table followed by its columns. */
  method BuildSuggestions(schema: Schema) returns (suggestions: seq<Suggestion>)
    ensures suggestions == KeywordSuggestions() + SchemaSuggestions(schema)
    ensures suggestions[..40] == KeywordSuggestions()
    ensures |suggestions| == 40 + ItemCount(schema)
  {
    suggestions := AddKeywords();
    ghost var keywordPart := suggestions;
    for i := 0 to |schema|
      invariant suggestions == keywordPart + SchemaSuggestions(schema[..i])
    {
      TableStep(schema, i);
      suggestions := AddTable(suggestions, schema[i]);
    }
    assert schema[..|schema|] == schema;
    SchemaSuggestionsLength(schema);
  }

  /** The keyword loop of `provideCompletionItems`. */
  method AddKeywords() returns (suggestions: seq<Suggestion>)
    ensures suggestions == KeywordSuggestions()
  {
    suggestions := [];
    for k := 0 to |Keywords|
      invariant suggestions == KeywordSuggestions()[..k]
    {
      KeywordStep(k);
      suggestions := suggestions + [Suggestion(Keywords[k], Keyword, "")];
    }
    assert KeywordSuggestions()[..|Keywords|] == KeywordSuggestions();
  }

  /** One pass of the table loop of `provideCompletionItems`: the table, then its columns. */
  method AddTable(before: seq<Suggestion>, table: Table) returns (suggestions: seq<Suggestion>)
    ensures suggestions == before + TableSuggestions(table)
  {
    suggestions := before + [Suggestion(table.name, TableName, "Table")];
    ghost var beforeColumns := suggestions;
    for j := 0 to |table.columns|
      invariant suggestions == beforeColumns + ColumnSuggestions(table.name, table.columns[..j])
    {
      var col := table.columns[j];
      ColumnStep(table.name, table.columns, j);
      suggestions := suggestions + [Suggestion(col.name, FieldName, table.name + " (" + col.colType + ")")];
    }
    assert table.columns[..|table.columns|] == table.columns;
  }

  lemma KeywordStep(k: nat)
    requires k < |Keywords|
    ensures KeywordSuggestions()[..k + 1] == KeywordSuggestions()[..k] + [Suggestion(Keywords[k], Keyword, "")]
  {
  }

  lemma TableStep(schema: Schema, i: nat)
    requires i < |schema|
    ensures SchemaSuggestions(schema[..i + 1]) == SchemaSuggestions(schema[..i]) + TableSuggestions(schema[i])
  {
    assert schema[..i + 1][..i] == schema[..i];
  }

  lemma ColumnStep(table: string, cols: seq<Column>, j: nat)
    requires j < |cols|
    ensures ColumnSuggestions(table, cols[..j + 1]) == ColumnSuggestions(table, cols[..j]) + [FieldSuggestion(table, cols[j])]
  {
  }

  /** `Math.max(10, fontSize - 1)` */
  function ZoomOut(size: int): (r: int)
    ensures r >= 10 && r <= if size > 10 then size else 10
    ensures size > 10 ==> r == size - 1
  {
    if size - 1 > 10 then size - 1 else 10
  }

  /** `Math.min(24, fontSize + 1)` */
  function ZoomIn(size: int): (r: int)
    ensures r <= 24 && r >= if size < 24 then size else 24
    ensures size < 24 ==> r == size + 1
  {
    if size + 1 < 24 then size + 1 else 24
  }

  /** Inside the range, one step in and one step out return to the same size. */
  lemma ZoomInThenOut(size: int)
    requires 10 <= size < 24
    ensures ZoomOut(ZoomIn(size)) == size
  {
  }

  const InitialFontSize: int := 12

  /** The font size after a run of clicks, `true` for zoom in, starting at 12. */
  function FontSizeAfter(clicks: seq<bool>): int {
    if clicks == [] then InitialFontSize
    else
      var before := FontSizeAfter(clicks[..|clicks| - 1]);
      if clicks[|clicks| - 1] then ZoomIn(before) else ZoomOut(before)
  }

  lemma {:induction false} FontSizeInRange(clicks: seq<bool>)
    ensures 10 <= FontSizeAfter(clicks) <= 24
  {
    if clicks != [] {
      FontSizeInRange(clicks[..|clicks| - 1]);
    }
  }

  /** `lineContent.substring(0, position.column - 1)`: the column is 1-based, and `substring` clamps. */
  function BeforeCursor(line: string, column: nat): (r: string)
    ensures |r| <= |line| && r == line[..|r|]
    ensures 1 <= column <= |line| + 1 ==> |r| == column - 1
    ensures column > |line| + 1 ==> r == line
  {
    if column == 0 then ""
    else if column - 1 <= |line| then line[..column - 1]
    else line
  }

  /** A `?` key asks the assistant exactly when only white space precedes the cursor on its line. */
  predicate TriggersAi(key: string, line: string, column: nat) {
    key == "?" && Trim(BeforeCursor(line, column)) == ""
  }

  lemma TriggersAiExactly(key: string, line: string, column: nat)
    ensures TriggersAi(key, line, column) <==>
      key == "?" && forall k | 0 <= k < |BeforeCursor(line, column)| :: IsSpace(line[k])
  {
  }

  /** At the start of a line `?` always asks the assistant; after any other character on it, never. */
  lemma TriggerAtLineStart(line: string, column: nat)
    ensures TriggersAi("?", line, 1)
    ensures 1 <= column <= |line| + 1 && column >= 2 && !IsSpace(line[column - 2]) ==> !TriggersAi("?", line, column)
  {
    var before := BeforeCursor(line, column);
    if 1 <= column <= |line| + 1 && column >= 2 && !IsSpace(line[column - 2]) {
      assert before[column - 2] == line[column - 2];
      assert !IsBlank(before);
    }
  }
}
