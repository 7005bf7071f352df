/** The schema sidebar's state (src/components/SchemaSidebar.tsx): which tables are expanded. */
module SchemaSidebar {
  import opened ExpandSets

  class TableTree {
    var expandedTables: set<string>

    constructor ()
      ensures expandedTables == {}
    {
      expandedTables := {};
    }

    method ToggleTable(tableName: string)
      modifies this
      ensures expandedTables == Flip(old(expandedTables), tableName)
    {
      expandedTables := Flip(expandedTables, tableName);
    }
  }
}
