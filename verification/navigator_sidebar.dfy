/**
 * The navigator sidebar's state (src/components/NavigatorSidebar.tsx): which sections and
 * which tables are expanded.
 */
module NavigatorSidebar {
  import opened ExpandSets

  class Navigator {
    var expandedSections: set<string>
    var expandedTables: set<string>

    /** Management and schemas start open; no table does. */
    constructor ()
      ensures expandedSections == {"management", "schemas"} && expandedTables == {}
    {
      expandedSections := {"management", "schemas"};
      expandedTables := {};
    }

    method ToggleSection(section: string)
      modifies this
      ensures expandedSections == Flip(old(expandedSections), section)
      ensures expandedTables == old(expandedTables)
    {
      expandedSections := Flip(expandedSections, section);
    }

    method ToggleTable(tableName: string)
      modifies this
      ensures expandedTables == Flip(old(expandedTables), tableName)
      ensures expandedSections == old(expandedSections)
    {
      expandedTables := Flip(expandedTables, tableName);
    }
  }
}
