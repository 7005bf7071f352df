# SQL editor web app: a Dafny model of its logic

The application is a browser-based MySQL client built with Next.js. Around its React views it
has a number of small sequential algorithms, and this project models them in Dafny and proves
what each one promises:

- the visual query builder's join-graph-to-SQL compiler and the canvas operations around it;
- the editor page's statement-at-cursor splitter, its tab list and its execution history;
- the result grid's tab closing, filter, sort, pagination, pending cell edits and UPDATE
  generation;
- the trailing-semicolon stripping in the query and import routes;
- the AI route's key guard, rate-limit retry policy, code-fence cleaning and JSON fallback;
- the entity-relationship diagram's `_id` foreign-key inference;
- the connection dialog's host cleaning and saved-connection map;
- the chart view's field classification and axis defaults;
- the SQL editor's completion list, zoom clamp and `?` trigger;
- the server-status uptime formatting;
- the list and set state of the saved-queries dialog, chat panel, toasts, action log and sidebars.

Shared modules hold the JavaScript behaviour the code relies on:

- `Wrappers`: `Option` and `Result`.
- `JsStrings`:
  - `trim` with ECMAScript white space, `includes`, `startsWith`, `endsWith`;
  - first-occurrence `replace` and global removal;
  - `split` on one character and `join`;
  - ASCII `toLowerCase` and `toUpperCase`;
  - decimal rendering of integers.
- `JsValues`: the JSON cell values a result row holds, and `String(v)`.
- `SchemaModel`: the schema object, as tables in key order with their columns.

Component state is modelled in two ways:

- **Classes.** React state that the handlers update step by step is a class whose fields are
  that state, with methods for the handlers.
- **Functions.** Handlers that are single `map`/`filter` expressions are functions on values.

Loops in the source are methods with loop invariants, each proved equal to a recursive
specification function. The lemmas prove what the source promises about that function.

Some behaviour is modelled as written, and lemmas exhibit it:

- **Next on an empty grid.** The Next button takes an empty grid to page 0, which shows no rows.
- **`_id` removal.** `replace('_id', '')` removes the first `_id` of a column name, wherever it
  is.
- **Stale x in the axis defaults.** The chart's default-axes memo chooses y against the x axis
  as it was before the same evaluation set x. So one evaluation can leave y equal to the new x;
  `AxesSettle` proves that the next evaluation settles with y ≠ x.
- **Semicolons-only imports.** An import file made only of `;` passes the emptiness check and
  sends the empty statement.
- **Label splitting.** The action label splits on the space character only, so it can keep a
  newline.

## Model

| member | source | states |
|---|---|---|
| QueryBuilder.Toggled | src/components/VisualQueryBuilder.tsx:98-101 | a present column leaves the selection (every occurrence, others kept); an absent one is appended at the end |
| QueryBuilder.Without | src/components/VisualQueryBuilder.tsx:100 | the filter drops exactly the occurrences of the column: same multiset minus that column |
| QueryBuilder.ToggleTwiceRestores | src/components/VisualQueryBuilder.tsx:95-113 | ticking an unticked column and unticking it again restores the selection |
| QueryBuilder.WithoutAbsent | src/components/VisualQueryBuilder.tsx:100 | filtering out a column that is not selected changes nothing |
| QueryBuilder.WithoutAppended | src/components/VisualQueryBuilder.tsx:100-101 | filtering out the column just appended gives back the selection before it |
| QueryBuilder.ToggledIn | src/components/VisualQueryBuilder.tsx:95-113 | `handleToggleColumn` toggles only the selection of nodes with that id; every other node and every other field is unchanged |
| QueryBuilder.RemoveNode | src/components/VisualQueryBuilder.tsx:116 | the node list keeps exactly the nodes with another id, and is `filter` of that test, so they stay in order with their multiplicity |
| QueryBuilder.RemoveTouching | src/components/VisualQueryBuilder.tsx:117 | the edge list keeps exactly the edges touching neither end at the deleted node, and is `filter` of that test, so they stay in order |
| QueryBuilder.RemoveTouchingNone | src/components/VisualQueryBuilder.tsx:117 | edges not touching the node are all kept, in order |
| QueryBuilder.DeleteKeepsEdgesLive | src/components/VisualQueryBuilder.tsx:115-118 | after a delete every edge still ends at live nodes |
| QueryBuilder.NewNode | src/components/VisualQueryBuilder.tsx:130-144 | a node is made only for a non-empty picked table present in the schema: id `{table}-{stamp}`, the table's columns, nothing selected |
| QueryBuilder.FindNode | src/components/VisualQueryBuilder.tsx:204-205 | `nodes.find` by id: a found node is in the list with that id; nothing is found exactly when no node has the id; when several share it, the first is found |
| QueryBuilder.HandleRoundTrip | src/components/VisualQueryBuilder.tsx:208-209 | removing the first `-source`, then the first `-target`, from either handle of a column gives the column back (for names without those suffixes) |
| QueryBuilder.ColumnRefs | src/components/VisualQueryBuilder.tsx:165-167 | one `` `table`.`col` `` item per selected column, in selection order |
| QueryBuilder.SelectListStar | src/components/VisualQueryBuilder.tsx:157-172 | the select list is exactly `*` iff no node has a selected column |
| QueryBuilder.ProjectionEmpty | src/components/VisualQueryBuilder.tsx:157-168 | the projection is empty iff nothing is selected |
| QueryBuilder.ProjectionItems | src/components/VisualQueryBuilder.tsx:165-167 | every projection item is `` `table`.`col` `` for a selected column of some node |
| QueryBuilder.PassGrows | src/components/VisualQueryBuilder.tsx:196-230 | a pass over the edges only grows the visited and used sets and only appends joins; a pass that joins nothing changes nothing |
| QueryBuilder.PassProgress | src/components/VisualQueryBuilder.tsx:194-231 | a pass that emits a join uses up an edge, so the `while (changed)` loop terminates |
| QueryBuilder.LoopIsFixedPoint | src/components/VisualQueryBuilder.tsx:194-231 | the loop stops at a pass that attaches nothing |
| QueryBuilder.StablePass | src/components/VisualQueryBuilder.tsx:196-230 | in a pass that changes nothing, no single edge attaches anything |
| QueryBuilder.VisitInv | src/components/VisualQueryBuilder.tsx:197-229 | one edge step keeps every join well formed: visited end on the left, new node on the right, each edge used at most once |
| QueryBuilder.PassInv | src/components/VisualQueryBuilder.tsx:196-230 | a full pass keeps those join invariants |
| QueryBuilder.LoopInv | src/components/VisualQueryBuilder.tsx:194-231 | the whole loop keeps those join invariants |
| QueryBuilder.PlanSatisfiesInv | src/components/VisualQueryBuilder.tsx:180-231 | from the anchor, the emitted joins satisfy the invariants |
| QueryBuilder.PlanClosed | src/components/VisualQueryBuilder.tsx:194-231 | after the loop no edge between live nodes has exactly one visited end: the visited set is closed |
| QueryBuilder.PlanLeast | src/components/VisualQueryBuilder.tsx:180-231 | every visited node lies in any closed set holding the first node: visited is the first node's undirected component |
| QueryBuilder.AttachedWithin | src/components/VisualQueryBuilder.tsx:197-229 | every joined node lies in any closed set that holds the anchor |
| QueryBuilder.PlanJoinedIds | src/components/VisualQueryBuilder.tsx:202-228 | the joined nodes are distinct, live, and never the anchor |
| QueryBuilder.CrossJoinedUnvisited | src/components/VisualQueryBuilder.tsx:234-239 | each comma-joined node is a canvas node that was never visited |
| QueryBuilder.CrossJoinedDistinct | src/components/VisualQueryBuilder.tsx:234-239 | no id is comma-joined twice |
| QueryBuilder.CrossJoinedCovers | src/components/VisualQueryBuilder.tsx:234-239 | the visited and comma-joined ids together cover every node |
| QueryBuilder.CrossJoinedIsFilter | src/components/VisualQueryBuilder.tsx:234-239 | with distinct ids, the comma-joined nodes are exactly the unreached nodes |
| QueryBuilder.PlacementIsPermutation | src/components/VisualQueryBuilder.tsx:180-239 | every node id appears exactly once across the FROM anchor, the JOIN clauses and the comma list |
| QueryBuilder.JoinedIds | src/components/VisualQueryBuilder.tsx:212 | the ids joined, one per join clause, in clause order |
| QueryBuilder.CompileEnding | src/components/VisualQueryBuilder.tsx:241 | the statement ends with exactly one `;`, right after a backtick |
| QueryBuilder.CompileOpening | src/components/VisualQueryBuilder.tsx:184 | the statement starts with `SELECT`, the select list and `FROM` the first node's table |
| QueryBuilder.JoinsWellFormed | src/components/VisualQueryBuilder.tsx:202-228 | each join: its edge is on the canvas and not a self-loop; the already visited end is on the left with its handle's column; no edge gives two joins |
| QueryBuilder.GenerateSql | src/components/VisualQueryBuilder.tsx:150-243 | an empty canvas alerts and yields nothing; otherwise the loops build exactly `Compile(nodes, edges, joinType)` |
| QueryBuilder.BuildSelectList | src/components/VisualQueryBuilder.tsx:157-172 | the nested `forEach` builds the select list: items in node then selection order, or `*` |
| QueryBuilder.ScanEdges | src/components/VisualQueryBuilder.tsx:195-230 | one `edges.forEach` pass equals `Pass`; `changed` is set iff it emitted a join; the query grows by those clauses |
| QueryBuilder.AppendCrossJoins | src/components/VisualQueryBuilder.tsx:234-239 | the trailing loop appends `` ,\n  `table` `` for each unvisited node, in node order |
| QueryBuilder.Canvas.constructor | src/components/VisualQueryBuilder.tsx:150-248 | an empty canvas, no picked table, inner joins |
| QueryBuilder.Canvas.AddTable | src/components/VisualQueryBuilder.tsx:130-148 | appends the new node and clears the picker, or changes nothing for an unknown table |
| QueryBuilder.Canvas.ToggleColumn | src/components/VisualQueryBuilder.tsx:95-113 | nodes become `ToggledIn`; edges unchanged |
| QueryBuilder.Canvas.DeleteNode | src/components/VisualQueryBuilder.tsx:115-118 | the node and every edge touching it go; edges stay live |
| QueryBuilder.AddEdge | src/components/VisualQueryBuilder.tsx:120-128 | `addEdge` leaves the edges alone for a connection missing an end or already drawn (same ends, equal or both missing handles); otherwise it appends the edge `reactflow__edge-{source}{sourceHandle}-{target}{targetHandle}` |
| QueryBuilder.AddEdgeIdempotent | src/components/VisualQueryBuilder.tsx:120-128 | drawing the same connection twice adds one edge |
| QueryBuilder.AddEdgeKeepsEdgesLive | src/components/VisualQueryBuilder.tsx:120-128 | a connection between live nodes keeps every edge attached to live nodes |
| QueryBuilder.Canvas.Connect | src/components/VisualQueryBuilder.tsx:120-128 | `onConnect` sets the edges to `AddEdge` of the connection; nodes and picker unchanged; edges stay live |
| QueryBuilder.Canvas.Clear | src/components/VisualQueryBuilder.tsx:245-248 | nodes and edges become empty |
| QueryBuilder.Canvas.Generate | src/components/VisualQueryBuilder.tsx:150-243 | the button yields the compiled statement, or nothing on an empty canvas |
| JsStrings.Trim | src/app/page.tsx:367 | `trim()` is trimmed, is a contiguous piece of the text with only white space around it, and is empty exactly for blank text |
| JsStrings.JoinSplit | src/app/page.tsx:361 | joining `split(';')` on `;` gives the text back |
| JsStrings.SplitPartsLackSep | src/app/page.tsx:361 | no part of `split(';')` holds a `;` |
| JsStrings.NatToStringValue | src/components/ServerStatus.tsx:63 | the decimal rendering of a number reads back as that number |
| EditorPage.GetStatementAtCursor | src/app/page.tsx:353-373 | the `for` loop over the `;` parts returns `StatementAtCursor(text, offset)` |
| EditorPage.ChunkCovers | src/app/page.tsx:361-370 | for 0 ≤ offset ≤ length the chosen chunk is a `;`-free span bounded by `;` or the text ends, whose span plus its `;` covers the offset |
| EditorPage.ChunkInParts | src/app/page.tsx:361-370 | over any `;`-free parts, the running-length search picks the part whose span, with its `;`, covers the offset in their `;`-join |
| EditorPage.StatementCovers | src/app/page.tsx:353-373 | the statement is that span trimmed, so the fallback at line 372 is never reached |
| EditorPage.TrimKeepsOut | src/app/page.tsx:367 | trimming a `;`-free chunk keeps it `;`-free |
| EditorPage.StatementShape | src/app/page.tsx:361-367 | the statement at a cursor inside the text is trimmed and holds no `;` |
| EditorPage.CursorAfterSemicolon | src/app/page.tsx:366 | a cursor just after a `;` selects the statement that `;` ends (the `>=`) |
| EditorPage.ChooseQuery | src/app/page.tsx:375-396 | a non-blank selection wins; else the statement at the cursor; without an editor the active tab's content; blank text alerts and runs nothing |
| EditorPage.TabIds | src/app/page.tsx:31 | the tab ids, position by position |
| EditorPage.WithoutTab | src/app/page.tsx:432 | the remaining tabs are `filter` of `t.id !== id`: the other tabs, in order |
| EditorPage.WithoutTabMembers | src/app/page.tsx:432 | the filter keeps exactly the tabs with another id |
| EditorPage.WithoutKeepsUnique | src/app/page.tsx:432 | with distinct ids the filter keeps them distinct |
| EditorPage.WithoutRemovesOne | src/app/page.tsx:432 | with distinct ids at most one tab goes |
| EditorPage.WithoutAbsentTab | src/app/page.tsx:432 | an id no tab has removes nothing |
| EditorPage.ActiveSurvives | src/app/page.tsx:430-437 | an active id other than the closed one is still a tab |
| EditorPage.WithContent | src/app/page.tsx:138-140 | `setQuery` changes only the active tab's content; ids, names and order are kept |
| EditorPage.RowsAffected | src/app/page.tsx:68-73 | the array length, else the `affectedRows` field, else 0 |
| EditorPage.Workspace.constructor | src/app/page.tsx:31-32 | one tab `Query 1` with id `1`, active; empty history |
| EditorPage.Workspace.AddTab | src/app/page.tsx:424-428 | appends `Query {n+1}` with empty content under the new id and activates it |
| EditorPage.Workspace.CloseTab | src/app/page.tsx:430-437 | the last tab is never closed; otherwise the tab goes, and the last remaining tab becomes active only if the active one was closed |
| EditorPage.Workspace.SetQuery | src/app/page.tsx:138-140 | tabs become `WithContent` of the active id; the active id is kept |
| EditorPage.Workspace.AddToHistory | src/app/page.tsx:67-84 | prepends exactly one entry, with the computed row count and its id and timestamp from two clock readings; the rest is unchanged |
| ResultGrid.RemoveAt | src/components/ResultTable.tsx:66 | the result sets without the one at `index` |
| ResultGrid.ActiveAfterClose | src/components/ResultTable.tsx:69-73 | closing the active tab gives `max(0, index-1)`, an earlier one decrements, a later one keeps |
| ResultGrid.CloseResultTab | src/components/ResultTable.tsx:64-74 | `handleCloseTab` gives the remaining sets and the repaired index |
| ResultGrid.Current | src/components/ResultTable.tsx:77 | the active set, or the first when the index is out of range, or none when there are no sets |
| ResultGrid.CloseTabRepairsActive | src/components/ResultTable.tsx:64-77 | the repaired index is inside a non-empty list, and closing another tab keeps the same set on display |
| ResultGrid.KeepExact | src/components/ResultTable.tsx:96-98 | the kept rows are `filter` of the match test: exactly the rows having a value whose lower-cased string contains the filter, in input order, each as often as in the input |
| ResultGrid.FilterRows | src/components/ResultTable.tsx:94-99 | an empty filter keeps every row; otherwise the lower-cased filter is applied |
| ResultGrid.KeepAllMatching | src/components/ResultTable.tsx:96-98 | when every row matches, all rows are kept in order |
| ResultGrid.NextSort | src/components/ResultTable.tsx:119-124 | the key is the clicked one; `desc` exactly when that key was sorted `asc` |
| ResultGrid.SortClicksCycle | src/components/ResultTable.tsx:119-124 | three clicks on one header give asc, desc, asc |
| ResultGrid.ValueLessTransitive | src/components/ResultTable.tsx:104-108 | the order the comparator uses on cell values is transitive |
| ResultGrid.ValueLessTotal | src/components/ResultTable.tsx:104-108 | two values neither below the other are equal, so the comparator is a total order |
| ResultGrid.TextLessTotal | src/components/ResultTable.tsx:104-108 | two strings are ordered one way or the other, or are equal |
| ResultGrid.ValueLessIrreflexive | src/components/ResultTable.tsx:104-108 | no row goes before itself |
| ResultGrid.BeforeTransitive | src/components/ResultTable.tsx:103-109 | "goes before" under a sort configuration is transitive, in both directions |
| ResultGrid.Insert | src/components/ResultTable.tsx:103-109 | one insertion step adds exactly that row |
| ResultGrid.InsertSorted | src/components/ResultTable.tsx:103-109 | inserting into a sorted list keeps it sorted |
| ResultGrid.SortRows | src/components/ResultTable.tsx:91-103 | the sort on the copy is a permutation of its input |
| ResultGrid.SortRowsSorted | src/components/ResultTable.tsx:103-109 | the sorted rows are ordered by the key, ascending or descending |
| ResultGrid.ProcessedRowsCorrect | src/components/ResultTable.tsx:88-113 | the processed rows are a permutation of the filtered rows, drawn from the input, sorted when a sort is set and untouched otherwise |
| ResultGrid.TotalPages | src/components/ResultTable.tsx:115 | `ceil(n / pageSize)`: the pages hold all rows and the last page is not empty |
| ResultGrid.JsSlice | src/components/ResultTable.tsx:116 | `slice` never yields more than the list; in-range bounds give the window `s[start..end]`, an end past the list is clamped, an end at or before the start gives nothing, and a negative start counts from the end |
| ResultGrid.PageRows | src/components/ResultTable.tsx:116 | at most `pageSize` rows, the window from `(page-1)*pageSize` for a page in range, none on page 0 |
| ResultGrid.PrevPage | src/components/ResultTable.tsx:451 | never below 1; one back from any later page |
| ResultGrid.NextPage | src/components/ResultTable.tsx:458 | never above the page count; one on from any earlier page |
| ResultGrid.PagesStayInRange | src/components/ResultTable.tsx:451-458 | inside a non-empty grid both buttons stay within 1..totalPages; on an empty grid Next goes to page 0, which shows nothing |
| GridEdits.WithoutCell | src/components/ResultTable.tsx:181 | keeps exactly the pending edits of other cells: `filter` of that test, in order |
| GridEdits.KeyDown | src/components/ResultTable.tsx:171-187 | Enter while editing replaces that cell's pending edit and appends the new one last, ending the edit; Escape ends the edit and keeps the pending edits; any other key changes nothing |
| GridEdits.WithoutCellKeepsOnePerCell | src/components/ResultTable.tsx:181 | the filter keeps at most one edit per cell |
| GridEdits.KeyDownKeepsOnePerCell | src/components/ResultTable.tsx:171-187 | every key press keeps at most one pending edit per cell |
| GridEdits.DoubleQuotes | src/components/ResultTable.tsx:226 | `replace(/'/g, "''")` never shortens the text |
| GridEdits.ReadQuotedDoubled | src/components/ResultTable.tsx:226 | a string reader that knows only the `''` escape (a lone `'` ends the literal) reads the doubled text followed by `'` back as the text. It stops exactly at that closing quote, whatever follows it |
| GridEdits.QuotedReadsBack | src/components/ResultTable.tsx:226-236 | a quoted literal opens with `'`. The `''`-only reader closes it at its last character and reads the inside as `String(val)`, whatever text follows the literal |
| GridEdits.QuotesRoundTrip | src/components/ResultTable.tsx:226-236 | reading `''` back as `'` undoes the doubling |
| GridEdits.SetLiteral | src/components/ResultTable.tsx:226 | `null` is `NULL`, a number is written as is, anything else is quoted |
| GridEdits.QuotedRoundTrip | src/components/ResultTable.tsx:226-236 | a quoted literal is `'…'`, and un-doubling its inside gives back `String(val)` |
| GridEdits.WhereClause | src/components/ResultTable.tsx:232-238 | null or undefined gives `` `k` IS NULL ``, a number `` `k` = n ``, anything else `` `k` = `` and the quoted literal of its string |
| GridEdits.TableOf | src/components/ResultTable.tsx:214-215 | `find` then `orgTable \|\| table`: empty when no field has that name, otherwise the table of the first field with that name |
| GridEdits.RowOrderExact | src/components/ResultTable.tsx:197-203 | the grouping's key order lists each edited row exactly once |
| GridEdits.EditsOfExact | src/components/ResultTable.tsx:197-203 | a row's group is `filter` of the edits by row: exactly that row's edits in edit order, empty only for rows never edited |
| GridEdits.FirstEditOf | src/components/ResultTable.tsx:197-203 | the position of a row's first edit: an edit of that row sits there and none before it |
| GridEdits.RowOrderByFirstEdit | src/components/ResultTable.tsx:197-203 | the grouping's keys are edited rows in the order of their first edits |
| GridEdits.RowUpdate | src/components/ResultTable.tsx:208-241 | a row gets no statement exactly when its first edit's column has no table |
| GridEdits.Updates | src/components/ResultTable.tsx:205-242 | statements plus errors equal the number of rows processed |
| GridEdits.GroupByRow | src/components/ResultTable.tsx:196-203 | the first `forEach` builds the map: keys `RowOrder`, each bound to `EditsOf` its row, so with `RowOrderByFirstEdit` and `EditsOfExact` the keys follow first edits and each group keeps edit order |
| GridEdits.BuildUpdates | src/components/ResultTable.tsx:205-242 | the second `forEach` yields `Updates` of the keys: one `UPDATE … LIMIT 1;` per resolvable row, an error count for the rest |
| GridEdits.SaveEdits | src/components/ResultTable.tsx:189-257 | no runner alerts; otherwise the missing-table alert, the statements joined by newlines, pending edits cleared only when a statement ran without rejection |
| GridEdits.SaveEditsAccounting | src/components/ResultTable.tsx:205-242 | every distinct edited row yields one statement or one error |
| SqlRoutes.DropTrailing | src/app/api/query/route.ts:28-30 | the loop never lengthens the text and leaves no trailing `;` |
| SqlRoutes.StripTrailingSemicolons | src/app/api/query/route.ts:27-30 | the `while` loop computes `Stripped(query)` |
| SqlRoutes.TrimUnled | src/app/api/query/route.ts:29 | trimming text that starts with a non-space only cuts a blank tail |
| SqlRoutes.DropTrailingPrefix | src/app/api/query/route.ts:27-30 | on trimmed text the loop keeps a trimmed prefix and removes only `;` and white space |
| SqlRoutes.StrippedShape | src/app/api/query/route.ts:27-30 | the result is trimmed, has no trailing `;`, is a prefix of `trim(query)`, and only `;` and white space were removed after it |
| SqlRoutes.StripIdempotent | src/app/api/query/route.ts:27-30 | stripping twice strips nothing more |
| SqlRoutes.SemicolonsOnlyStripToEmpty | src/app/api/import/route.ts:40-43 | text of only `;` and white space strips to nothing |
| SqlRoutes.HandleQuery | src/app/api/query/route.ts:9-32 | a missing or empty query answers 400 `Query is required`; otherwise the stripped text runs |
| SqlRoutes.HandleImport | src/app/api/import/route.ts:14-46 | no file answers 400 `No file uploaded`; a blank file 400 `File is empty`; otherwise the stripped text runs |
| SqlRoutes.SemicolonsOnlyImportRunsEmpty | src/app/api/import/route.ts:22-43 | a file of only semicolons passes the emptiness check and runs the empty statement |
| AiRoute.GenerateWithRetry | src/app/api/ai/route.ts:106-126 | the retry loop computes `Retry(respond)` |
| AiRoute.RetryBounds | src/app/api/ai/route.ts:110-124 | at most 3 calls; only 429 errors lead to another call; sleeps are 2000 then 4000 ms, one fewer than the calls; the result is the last call's |
| AiRoute.OtherErrorsNotRetried | src/app/api/ai/route.ts:120-122 | a non-429 error is thrown after one call |
| AiRoute.ThreeRateLimits | src/app/api/ai/route.ts:115-119 | three 429s: three calls, sleeps 2 s and 4 s, and the third error is thrown with no 8 s sleep |
| AiRoute.Clean | src/app/api/ai/route.ts:132 | the cleaned text is trimmed and contains no triple backtick |
| AiRoute.EffectiveMode | src/app/api/ai/route.ts:7 | an absent mode is `generate` |
| AiRoute.HandleAi | src/app/api/ai/route.ts:4-153 | no key answers 500 without a call; a failed retry answers 500 with the error's message; otherwise `AnswerReply` |
| AiRoute.AnswerReply | src/app/api/ai/route.ts:128-146 | explain modes get the raw text; every other mode gets a generation reply, parsed exactly when the cleaned text parses, otherwise the cleaned text as SQL with the fixed message |
| EerDiagram.ReferencedTable | src/components/EERDiagram.tsx:117-122 | `base+'s'` if that table exists, else `base` if it exists, else none |
| EerDiagram.ColumnEdge | src/components/EERDiagram.tsx:115-134 | only `_id` columns give an edge, never a self-edge, from the referenced table to this one, with id `{table}-{col}-{target}` |
| EerDiagram.TableNodes | src/components/EERDiagram.tsx:102-111 | one node per table, in key order, id and label the table name |
| EerDiagram.BuildDiagram | src/components/EERDiagram.tsx:95-136 | an empty schema returns early; otherwise the nested loops build exactly those nodes and edges |
| EerDiagram.AddColumnEdges | src/components/EERDiagram.tsx:115-134 | the inner column loop appends exactly that table's column edges, in column order |
| EerDiagram.ColumnEdgesSound | src/components/EERDiagram.tsx:115-134 | each edge of a table comes from one of its columns and is not a self-edge |
| EerDiagram.TableEdgesSound | src/components/EERDiagram.tsx:102-136 | each edge comes from some table's column, and its source is a table other than its target |
| EerDiagram.ColumnEdgesAtMostOnePerColumn | src/components/EERDiagram.tsx:115-134 | a table has no more edges than `_id` columns |
| EerDiagram.BaseOfSuffix | src/components/EERDiagram.tsx:117 | removing `_id` from `b_id` gives `b` back when `b` holds no `_id` |
| EerDiagram.PluralReference | src/components/EERDiagram.tsx:116-129 | `author_id` with a table `authors` gives the edge `authors → table` |
| ConnectionModal.SchemeStripped | src/components/ConnectionModal.tsx:68 | one leading `http://` or `https://` is removed; any other host is kept |
| ConnectionModal.CleanHost | src/components/ConnectionModal.tsx:68 | the scheme-stripped host loses exactly one trailing `/` when it has one and is kept otherwise; nothing else changes |
| ConnectionModal.CleanHostStripsDecoration | src/components/ConnectionModal.tsx:68 | a bare host written with a scheme and a trailing slash cleans back to itself |
| ConnectionModal.CleanConfig | src/components/ConnectionModal.tsx:65-70 | only the host changes |
| ConnectionModal.Selected | src/components/ConnectionModal.tsx:52-60 | the name, `\|\|` defaults `localhost`/`root`/''/''/`3306`, encryption off |
| ConnectionModal.SelectAfterSave | src/components/ConnectionModal.tsx:48-84 | selecting a saved connection with host, user and port gives the saved form back, encryption off |
| ConnectionModal.ConnectionDialog.constructor | src/components/ConnectionModal.tsx:13-27 | no saved connections, the default form, no status |
| ConnectionModal.ConnectionDialog.Select | src/components/ConnectionModal.tsx:48-63 | an unknown name changes nothing; otherwise the form is `Selected` and the status cleared |
| ConnectionModal.ConnectionDialog.Save | src/components/ConnectionModal.tsx:72-91 | an empty name sets the error and keeps the map; otherwise the cleaned form is stored under its name and shown |
| ConnectionModal.ConnectionDialog.Delete | src/components/ConnectionModal.tsx:93-112 | no selection or no confirmation changes nothing; otherwise only that key goes and the name and selection are cleared |
| ConnectionModal.SaveKeepsOthers | src/components/ConnectionModal.tsx:80 | a save keeps every other saved connection |
| DataVisualizer.PieToggle | src/components/DataVisualizer.tsx:25-27 | the same index clears the highlight, any other index sets it |
| DataVisualizer.PieToggleTwice | src/components/DataVisualizer.tsx:25-27 | entering a slice twice toggles back |
| DataVisualizer.Classified | src/components/DataVisualizer.tsx:56-66 | each named field lands in exactly one list, numeric iff the first row's value is a number; unnamed fields are skipped |
| DataVisualizer.NumericInOrder | src/components/DataVisualizer.tsx:56-66 | the numeric list is `filter` of the numeric test over the fields, in field order |
| DataVisualizer.CategoryInOrder | src/components/DataVisualizer.tsx:56-66 | the categorical list is `filter` of the other test over the fields, in field order |
| DataVisualizer.ClassifiedInOrder | src/components/DataVisualizer.tsx:56-66 | each list is `filter` of its test over the fields, so both keep field order |
| DataVisualizer.Classify | src/components/DataVisualizer.tsx:52-68 | the `forEach` builds `Classified` of the first row, or two empty lists when fields or data are empty |
| DataVisualizer.Except | src/components/DataVisualizer.tsx:99-103 | keeps exactly the names other than x |
| DataVisualizer.ExceptInOrder | src/components/DataVisualizer.tsx:99-103 | the kept names are `filter` of `f !== x`, in field order |
| DataVisualizer.Axes | src/components/DataVisualizer.tsx:94-110 | an unset x takes the first category field; a reset y takes the first numeric field ≠ x, else the first field ≠ x; y then differs from the x read |
| DataVisualizer.AxesSettle | src/components/DataVisualizer.tsx:94-110 | a second evaluation keeps x, a third changes nothing, and then y ≠ x whenever another field exists |
| DataVisualizer.Visualizer.constructor | src/components/DataVisualizer.tsx:20-32 | no axes, no highlight, the current results selected |
| DataVisualizer.Visualizer.Source | src/components/DataVisualizer.tsx:36-37 | the props for the current results, otherwise the fetched table |
| DataVisualizer.Visualizer.PieEnter | src/components/DataVisualizer.tsx:25-27 | only the highlight changes |
| DataVisualizer.Visualizer.ChangeTable | src/components/DataVisualizer.tsx:40-49 | selects the table and stores the fetched rows unless it is the current results |
| DataVisualizer.Visualizer.DefaultAxes | src/components/DataVisualizer.tsx:52-110 | one render sets the axes to `Axes` of the classified source |
| SqlEditor.KeywordSuggestions | src/components/SQLEditor.tsx:42-51 | the 40 keywords, in list order |
| SqlEditor.ColumnSuggestions | src/components/SQLEditor.tsx:65-73 | one field item per column, in column order, detail `{table} ({type})` |
| SqlEditor.SchemaSuggestionsLength | src/components/SQLEditor.tsx:54-74 | one item per table plus one per column |
| SqlEditor.SchemaSuggestionsAppend | src/components/SQLEditor.tsx:54-74 | the schema part is the tables' parts laid end to end |
| SqlEditor.TableItemsInPlace | src/components/SQLEditor.tsx:54-74 | each table's item and then its columns sit together, in table order |
| SqlEditor.BuildSuggestions | src/components/SQLEditor.tsx:39-76 | the keywords first, then each table followed by its columns; 40 + Σ(1 + columns) items |
| SqlEditor.AddKeywords | src/components/SQLEditor.tsx:42-51 | the keyword loop pushes exactly the keyword items, in list order |
| SqlEditor.AddTable | src/components/SQLEditor.tsx:54-74 | one table's pushes append its item and then its column items |
| SqlEditor.ZoomOut | src/components/SQLEditor.tsx:194 | never below 10; one less above 10 |
| SqlEditor.ZoomIn | src/components/SQLEditor.tsx:201 | never above 24; one more below 24 |
| SqlEditor.ZoomInThenOut | src/components/SQLEditor.tsx:194-201 | inside the range, in then out returns to the same size |
| SqlEditor.FontSizeInRange | src/components/SQLEditor.tsx:23-201 | from 12, any run of clicks stays within 10..24 |
| SqlEditor.BeforeCursor | src/components/SQLEditor.tsx:127 | the line up to the 1-based column, clamped to the line |
| SqlEditor.TriggersAiExactly | src/components/SQLEditor.tsx:124-134 | `?` asks the assistant exactly when only white space precedes the cursor on its line |
| SqlEditor.TriggerAtLineStart | src/components/SQLEditor.tsx:124-134 | at the line start it always asks; after a non-space character it never does |
| ServerStatus.UptimeParts | src/components/ServerStatus.tsx:59-62 | hours < 24, minutes < 60, and 86400d + 3600h + 60m ≤ s < that + 60 |
| ServerStatus.PartsOfMinutes | src/components/ServerStatus.tsx:59-62 | the parts spell out the whole minutes: `1440d + 60h + m == s / 60` |
| ServerStatus.MinutesDetermineParts | src/components/ServerStatus.tsx:59-62 | uptimes with equal whole minutes have equal parts |
| ServerStatus.ShowReadsBack | src/components/ServerStatus.tsx:63 | `{d}d {h}h {m}m` determines d, h and m |
| ServerStatus.FormatUptimeSameMinutes | src/components/ServerStatus.tsx:59-64 | two uptimes display the same exactly when they have the same whole minutes |
| ServerStatus.UptimeValue | src/components/ServerStatus.tsx:39-41 | the first row's `Value` of the second result set, 0 when it has no row, nothing when it is missing |
| SavedQueries.WithoutQuery | src/components/SavedQueriesModal.tsx:66 | keeps exactly the queries with another id: `filter` of that test, in order |
| SavedQueries.WithoutAbsentQuery | src/components/SavedQueriesModal.tsx:66 | deleting an absent id keeps the list in order |
| SavedQueries.SavedQueriesModal.constructor | src/components/SavedQueriesModal.tsx:21 | no saved queries, empty name |
| SavedQueries.SavedQueriesModal.Save | src/components/SavedQueriesModal.tsx:42-62 | a blank name, then a blank query, alerts and changes nothing; otherwise one entry, with id and time from two clock readings, is prepended and the name cleared |
| SavedQueries.SavedQueriesModal.Delete | src/components/SavedQueriesModal.tsx:64-68 | on confirmation the list becomes `WithoutQuery`: the entries with that id go, the rest stay in order |
| SavedQueries.SavedQueriesModal.Load | src/components/SavedQueriesModal.tsx:70-73 | the query is loaded, then the dialog closes |
| ChatSidebar.ReplyText | src/components/ChatSidebar.tsx:70-86 | the response message when non-empty, else the success or error fallback text |
| ChatSidebar.Chat.constructor | src/components/ChatSidebar.tsx:21-22 | no messages, empty input |
| ChatSidebar.Chat.Send | src/components/ChatSidebar.tsx:47-87 | blank input or generating changes nothing; otherwise the user message and one assistant reply, each stamped by its own clock readings, are appended and the input cleared |
| ChatSidebar.Chat.ClearChat | src/components/ChatSidebar.tsx:89-93 | on confirmation the message list empties |
| JsArrays.FilterSingle | src/components/ui/Toast.tsx:27 | `filter` keeps or drops a one-element list as a whole |
| JsArrays.FilterAppend | src/components/ui/Toast.tsx:27 | `filter` distributes over concatenation, which fixes the order of what it keeps |
| JsArrays.FilterSnoc | src/components/ui/Toast.tsx:27 | `filter` of a list grown at its end keeps or drops the new element at the end |
| JsArrays.FilterMembers | src/components/ui/Toast.tsx:27 | `filter` keeps exactly the accepted elements |
| JsArrays.FilterCount | src/components/ui/Toast.tsx:27 | an accepted element is kept as often as it occurs, a refused one never |
| JsArrays.FilterAll | src/components/ui/Toast.tsx:27 | when every element is accepted the list is kept as it is |
| Toast.WithoutToast | src/components/ui/Toast.tsx:27 | keeps exactly the toasts with another id: `filter` of that test, in order |
| Toast.WithoutAbsentToast | src/components/ui/Toast.tsx:27 | removing an absent id leaves the list unchanged |
| Toast.RemoveAddedToast | src/components/ui/Toast.tsx:30-34 | a toast added under a fresh id is the one its timer removes |
| Toast.ToastProvider.constructor | src/components/ui/Toast.tsx:24 | no toasts |
| Toast.ToastProvider.RemoveToast | src/components/ui/Toast.tsx:26-28 | the list becomes `WithoutToast` of the id |
| Toast.ToastProvider.AddToast | src/components/ui/Toast.tsx:30-34 | appends one toast with the message and type at the end |
| Toast.ToastProvider.Success | src/components/ui/Toast.tsx:36 | adds a success toast |
| Toast.ToastProvider.Error | src/components/ui/Toast.tsx:37 | adds an error toast |
| Toast.ToastProvider.Info | src/components/ui/Toast.tsx:38 | adds an info toast |
| Toast.UseToast | src/components/ui/Toast.tsx:65-71 | outside a provider it fails with the fixed message; inside it returns the provider |
| ActionOutput.ActionLabel | src/components/ActionOutput.tsx:40 | the upper-cased text before the first space; no space in it; empty for a missing query |
| ActionOutput.LabelKeepsOtherWhitespace | src/components/ActionOutput.tsx:40 | a leading newline stays in the label |
| ActionOutput.ActionMessage | src/components/ActionOutput.tsx:43 | `{rowsAffected \|\| 0} row(s) returned` on success, else `Error executing query` |
| ExpandSets.Flip | src/components/NavigatorSidebar.tsx:21-24 | the name's membership flips; every other name is unchanged |
| ExpandSets.FlipTwice | src/components/SchemaSidebar.tsx:14-22 | toggling the same name twice restores the set |
| ExpandSets.FlipCommutes | src/components/NavigatorSidebar.tsx:27-32 | toggles of different names commute |
| NavigatorSidebar.Navigator.constructor | src/components/NavigatorSidebar.tsx:17-18 | sections `management` and `schemas` open, no table open |
| NavigatorSidebar.Navigator.ToggleSection | src/components/NavigatorSidebar.tsx:20-25 | flips the section; the table set is untouched |
| NavigatorSidebar.Navigator.ToggleTable | src/components/NavigatorSidebar.tsx:27-32 | flips the table; the section set is untouched |
| SchemaSidebar.TableTree.constructor | src/components/SchemaSidebar.tsx:12 | the expanded set starts empty |
| SchemaSidebar.TableTree.ToggleTable | src/components/SchemaSidebar.tsx:14-22 | flips the table name in the expanded set |

## Left out

- Rendering, styling, layout, drag-resizing and React hook scheduling: there is nothing to state about them.
- Network and database I/O are not modelled:
  - every `fetch` and the MySQL driver calls;
  - the Gemini call, whose outcome is a parameter (`respond(k)`), and its prompt templates;
  - `src/app/api/connect/route.ts` and `src/app/api/schema/route.ts`, which are not part of this model.
- `src/hooks/useAI.ts`, `src/hooks/useSqlExecutor.ts` and the fetch orchestration in `src/app/page.tsx` (`executeQuery`, `generateSql`, `handleFileUpload`, `handleExplainQuery`) are not part of this model. They wrap network calls.
- localStorage persistence in the page, the connection dialog, the saved-queries dialog and the chat panel: this is browser storage I/O.
- Timers:
  - the toast's 3-second auto-dismiss is not scheduled; `RemoveAddedToast` states what it does when it fires;
  - the retry loop's sleeps are kept only as their delay values;
  - the client-connections polling is not modelled.
- `Date.now()` readings are parameters and become ids by their decimal rendering.
- `Workspace.AddTab` requires the new id to differ from every tab id. Two tabs created within one millisecond would share an id in the source.
- `confirm()` answers and the values of awaited callbacks (`onGenerateSql`, `onFetchTableData`, `onRunQuery` rejecting) are parameters.
- Floating point is not modelled:
  - numbers in cells are integers;
  - the chart's `parseFloat` pre-processing, dashboard sizes and durations with `toFixed` are left out.
- Opaque libraries are not modelled: Monaco, sql-formatter, XLSX, jsPDF, html-to-image and the dagre layout. The editor is reduced to its text, a character offset and the selected text, and `JSON.parse` is a predicate parameter.
- `ResultGrid.ValueLess`: JavaScript's `<` between values of different kinds (a number and a string, `null` and a number) coerces them. The model orders kinds by a fixed rank instead.
- `ResultGrid.TextLess`: strings are compared character by character as Unicode scalar values, while JavaScript compares UTF-16 code units. The two orders differ once a character outside the Basic Multilingual Plane meets one above the surrogate range: U+FF01 is above U+1F600 in JavaScript and below it here.
- `ResultGrid.SortRows`: ties keep their input order, as the engine's stable sort does, but stability is not stated as a property.
- `JsStrings.Lower`: case mapping covers ASCII letters only.
- `JsStrings.Upper`: case mapping covers ASCII letters only. JavaScript's `toUpperCase` can lengthen text (`'ß'` becomes `SS`), so `ActionOutput.ActionLabel`'s bound on the label's length holds for the model, not for every non-ASCII query.
- `QueryBuilder.PlanClosed` requires distinct edge ids. `AddEdge` derives an edge's id from its ends and handles and never adds a connection twice, but two connections whose texts concatenate alike could share an id. `GenerateSql` and the other plan lemmas do not need distinct ids.
- `QueryBuilder.AddEdge` is reactflow's library helper, not code of this repository. The model follows its documented behaviour. The extra edge styling `onConnect` passes (`animated`, `style`, `markerEnd`) is rendering and is left out.
- `EerDiagram.ReferencedTable`: the schema is a map of its own tables, so a lookup finds only real tables. In JavaScript `schema[name]` also finds properties inherited from `Object.prototype`: a column `constructor_id` (or `toString_id`, `valueOf_id`) with no table `constructors` resolves to `constructor`, and the diagram draws an edge from a table that does not exist. The model does not produce that edge.
- `JsValues`: cell values are null, undefined, booleans, integers and strings. Object and array cells (JSON columns) are not modelled, so their `String(v)` forms and their behaviour in the filter and sort are left out.
- Self-join aliasing: the compiler emits plain table names, and so does the model.
- The chart's initial-configuration effect (`src/components/DataVisualizer.tsx:85-91`) and field objects that are `null` are not modelled. A field is its name, with `""` for a missing name.
- Resetting the grid to page 1 when the filter or page size changes (`src/components/ResultTable.tsx:60-62`, `440`) is not modelled.
- `ServerStatus.UptimeParts` takes a non-negative integer. The string-to-number coercion of the status value is not modelled.
- `GridEdits.QuotedRoundTrip` reads quoted text by the SQL `''` convention only. MySQL's backslash escapes inside string literals are not modelled.
- `GridEdits.ReadQuotedDoubled`: the reader knows only the `''` escape. So the result means the literal is closed safely only where the server takes `\` literally (MySQL's `NO_BACKSLASH_ESCAPES` mode). The query route keeps MySQL's default mode apart from `ONLY_FULL_GROUP_BY` (`src/app/api/query/route.ts:24`), so `\'` is an escaped quote there.
- `GridEdits.QuotedReadsBack`: the same limit. The value `x\' ; DELETE FROM t; -- ` is doubled to `'x\'' ; DELETE FROM t; -- '`. Under default MySQL escaping the literal ends after `x'`, and with `multipleStatements: true` (`src/app/api/query/route.ts:19`) the `DELETE` runs. The model does not claim the generated UPDATE is safe for the statement MySQL runs.
- The catch paths of `handleSave` and `handleDelete` in the connection dialog are not modelled. They are reached only when localStorage throws.
- Interleaving of a second chat send while the first is awaited is not modelled. `Send` runs one send to completion.
