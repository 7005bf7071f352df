/**
 * The schema object the server returns: table name to its ordered column list, with the
 * tables in the key order `Object.keys` reports.
 */
module SchemaModel {
  import opened Wrappers

  datatype Column = Column(name: string, colType: string)

  datatype Table = Table(name: string, columns: seq<Column>)

  /** `Record<string, Column[]>` in key order. */
  type Schema = seq<Table>

  function TableNames(schema: Schema): (names: seq<string>)
    ensures |names| == |schema| && forall i | 0 <= i < |schema| :: names[i] == schema[i].name
  {
    seq(|schema|, i requires 0 <= i < |schema| => schema[i].name)
  }

  /** Object keys are unique. */
  predicate UniqueNames(schema: Schema) {
    forall i, j | 0 <= i < j < |schema| :: schema[i].name != schema[j].name
  }

  /** `schema[name]`, `None` standing for `undefined`. */
  function Lookup(schema: Schema, name: string): (r: Option<seq<Column>>)
    ensures r.None? <==> forall i | 0 <= i < |schema| :: schema[i].name != name
    ensures r.Some? ==> exists i | 0 <= i < |schema| :: schema[i].name == name && schema[i].columns == r.value
  {
    if schema == [] then None
    else if schema[0].name == name then Some(schema[0].columns)
    else
      var r := Lookup(schema[1..], name);
      assert r.Some? ==> exists i | 0 <= i < |schema[1..]| :: schema[1..][i].name == name && schema[1..][i].columns == r.value;
      r
  }

  /** `name in schema` */
  predicate HasTable(schema: Schema, name: string) {
    Lookup(schema, name).Some?
  }
}
