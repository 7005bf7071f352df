/**
 * The visual query builder: a canvas of table nodes with per-node column selections and
 * user-drawn join edges between column handles, and the compiler that turns the canvas into
 * one SELECT statement (src/components/VisualQueryBuilder.tsx).
 *
 * The compiler anchors the FROM clause at the first node, then scans the edge list
 * repeatedly until a full pass attaches nothing; an edge attaches its far node with one JOIN
 * clause when exactly one of its ends is already visited. Nodes never reached are appended as
 * comma (cross) joins, and the statement ends with `;`.
 */
module QueryBuilder {
  import opened Wrappers
  import opened JsStrings
  import opened SchemaModel
  import opened JsArrays

  /** A table placed on the canvas. Several nodes may show the same table (self-joins). */
  datatype Node = Node(id: string, table: string, columns: seq<Column>, selected: seq<string>)

  /** A link between two column handles; handle ids are `{column}-source` and `{column}-target`. */
  datatype Edge = Edge(id: string, source: string, target: string,
                       sourceHandle: Option<string>, targetHandle: Option<string>)

  /** The join-type selector, whose option values are the keywords emitted. */
  datatype JoinKind = Inner | LeftOuter | RightOuter

  function Keyword(kind: JoinKind): string {
    match kind
    case Inner => "JOIN"
    case LeftOuter => "LEFT JOIN"
    case RightOuter => "RIGHT JOIN"
  }

  function NodeIds(nodes: seq<Node>): set<string> {
    set n | n in nodes :: n.id
  }

  predicate UniqueNodeIds(nodes: seq<Node>) {
    forall i, j | 0 <= i < j < |nodes| :: nodes[i].id != nodes[j].id
  }

  function EdgeIds(edges: seq<Edge>): set<string> {
    set e | e in edges :: e.id
  }

  /** Edges that share an id are the same edge (the edge helper refuses duplicate connections). */
  predicate UniqueEdgeIds(edges: seq<Edge>) {
    forall i, j | 0 <= i < |edges| && 0 <= j < |edges| && edges[i].id == edges[j].id :: edges[i] == edges[j]
  }

  /** Every edge ends at live nodes; deleting a node deletes its edges to keep this so. */
  predicate EdgesLive(nodes: seq<Node>, edges: seq<Edge>) {
    forall e | e in edges :: e.source in NodeIds(nodes) && e.target in NodeIds(nodes)
  }

  // ------------------------------------------------------------ canvas editing

  /** `currentSelected.filter(c => c !== col)` */
  function Without(cols: seq<string>, col: string): (r: seq<string>)
    ensures col !in r
    ensures forall c | c != col :: c in r <==> c in cols
    ensures multiset(r) == multiset(cols)[col := 0]
  {
    if cols == [] then []
    else
      assert cols == [cols[0]] + cols[1..];
      if cols[0] == col then Without(cols[1..], col)
      else [cols[0]] + Without(cols[1..], col)
  }

  /** The checkbox toggle on one selection list. */
  function Toggled(cols: seq<string>, col: string): (r: seq<string>)
    ensures col in cols ==> col !in r && forall c | c != col :: c in r <==> c in cols
    ensures col !in cols ==> r == cols + [col]
  {
    if col in cols then Without(cols, col) else cols + [col]
  }

  lemma {:induction false} WithoutAbsent(cols: seq<string>, col: string)
    requires col !in cols
    ensures Without(cols, col) == cols
  {
    if cols != [] {
      WithoutAbsent(cols[1..], col);
    }
  }

  /** Ticking an unticked column and unticking it again restores the selection. */
  lemma ToggleTwiceRestores(cols: seq<string>, col: string)
    requires col !in cols
    ensures Toggled(Toggled(cols, col), col) == cols
  {
    assert col in cols + [col];
    WithoutAppended(cols, col);
  }

  lemma {:induction false} WithoutAppended(cols: seq<string>, col: string)
    requires col !in cols
    ensures Without(cols + [col], col) == cols
  {
    if cols == [] {
    } else {
      assert (cols + [col])[1..] == cols[1..] + [col];
      WithoutAppended(cols[1..], col);
    }
  }

  /** `handleToggleColumn`: flips `col` in the selection of the node(s) with that id, touching no other node. */
  function ToggledIn(nodes: seq<Node>, nodeId: string, col: string): (r: seq<Node>)
    ensures |r| == |nodes|
    ensures forall i | 0 <= i < |nodes| ::
      r[i].id == nodes[i].id && r[i].table == nodes[i].table && r[i].columns == nodes[i].columns
    ensures forall i | 0 <= i < |nodes| && nodes[i].id != nodeId :: r[i] == nodes[i]
    ensures forall i | 0 <= i < |nodes| && nodes[i].id == nodeId ::
      r[i].selected == Toggled(nodes[i].selected, col)
  {
    seq(|nodes|, i requires 0 <= i < |nodes| =>
      if nodes[i].id == nodeId then nodes[i].(selected := Toggled(nodes[i].selected, col)) else nodes[i])
  }

  function RemoveNode(nodes: seq<Node>, nodeId: string): (r: seq<Node>)
    ensures r == Filter((n: Node) => n.id != nodeId, nodes)
    ensures forall n :: n in r <==> n in nodes && n.id != nodeId
    ensures |r| <= |nodes|
  {
    if nodes == [] then []
    else if nodes[0].id == nodeId then RemoveNode(nodes[1..], nodeId)
    else [nodes[0]] + RemoveNode(nodes[1..], nodeId)
  }

  function RemoveTouching(edges: seq<Edge>, nodeId: string): (r: seq<Edge>)
    ensures r == Filter((e: Edge) => e.source != nodeId && e.target != nodeId, edges)
    ensures forall e :: e in r <==> e in edges && e.source != nodeId && e.target != nodeId
    ensures |r| <= |edges|
  {
    if edges == [] then []
    else if edges[0].source == nodeId || edges[0].target == nodeId then RemoveTouching(edges[1..], nodeId)
    else [edges[0]] + RemoveTouching(edges[1..], nodeId)
  }

  // ------------------------------------------------------------ connecting handles

  /** A handle that `!h` treats as missing: absent or empty. */
  predicate HandleFalsy(h: Option<string>) {
    h.None? || h == Some("")
  }

  /** reactflow's `connectionExists` test: same ends, and the same handles or missing ones on both sides. */
  predicate SameConnection(e: Edge, source: string, target: string, sourceHandle: Option<string>, targetHandle: Option<string>) {
    && e.source == source && e.target == target
    && (e.sourceHandle == sourceHandle || (HandleFalsy(e.sourceHandle) && HandleFalsy(sourceHandle)))
    && (e.targetHandle == targetHandle || (HandleFalsy(e.targetHandle) && HandleFalsy(targetHandle)))
  }

  /** `h || ''` */
  function HandleText(h: Option<string>): string {
    match h
    case None => ""
    case Some(s) => s
  }

  /** reactflow's `getEdgeId`: `reactflow__edge-{source}{sourceHandle}-{target}{targetHandle}`. */
  function ConnectionId(source: string, sourceHandle: Option<string>, target: string, targetHandle: Option<string>): string {
    "reactflow__edge-" + source + HandleText(sourceHandle) + "-" + target + HandleText(targetHandle)
  }

  /**
   * reactflow's `addEdge(params, edges)`: a connection without both ends, or one already drawn,
   * leaves the edges as they are; otherwise the new edge is appended.
   */
  function AddEdge(edges: seq<Edge>, source: string, target: string,
                   sourceHandle: Option<string>, targetHandle: Option<string>): (r: seq<Edge>)
    ensures source == "" || target == "" ==> r == edges
    ensures (exists e | e in edges :: SameConnection(e, source, target, sourceHandle, targetHandle)) ==> r == edges
    ensures source != "" && target != "" && (forall e | e in edges :: !SameConnection(e, source, target, sourceHandle, targetHandle)) ==>
      r == edges + [Edge(ConnectionId(source, sourceHandle, target, targetHandle), source, target, sourceHandle, targetHandle)]
  {
    if source == "" || target == "" then edges
    else if exists e | e in edges :: SameConnection(e, source, target, sourceHandle, targetHandle) then edges
    else edges + [Edge(ConnectionId(source, sourceHandle, target, targetHandle), source, target, sourceHandle, targetHandle)]
  }

  /** Drawing the same connection twice adds one edge: the second `addEdge` finds the first. */
  lemma AddEdgeIdempotent(edges: seq<Edge>, source: string, target: string,
                          sourceHandle: Option<string>, targetHandle: Option<string>)
    ensures var once := AddEdge(edges, source, target, sourceHandle, targetHandle);
      AddEdge(once, source, target, sourceHandle, targetHandle) == once
  {
    var once := AddEdge(edges, source, target, sourceHandle, targetHandle);
    if once != edges {
      var e := once[|once| - 1];
      assert e in once && SameConnection(e, source, target, sourceHandle, targetHandle);
    }
  }

  /** A connection between two live nodes keeps every edge attached to live nodes. */
  lemma AddEdgeKeepsEdgesLive(nodes: seq<Node>, edges: seq<Edge>, source: string, target: string,
                              sourceHandle: Option<string>, targetHandle: Option<string>)
    requires EdgesLive(nodes, edges) && source in NodeIds(nodes) && target in NodeIds(nodes)
    ensures EdgesLive(nodes, AddEdge(edges, source, target, sourceHandle, targetHandle))
  {
  }

  /** Removing edges that all avoid the node changes nothing, so the kept edges stay in order. */
  lemma {:induction false} RemoveTouchingNone(edges: seq<Edge>, nodeId: string)
    requires forall e | e in edges :: e.source != nodeId && e.target != nodeId
    ensures RemoveTouching(edges, nodeId) == edges
  {
    if edges != [] {
      assert edges[0] in edges;
      assert forall e | e in edges[1..] :: e in edges;
      RemoveTouchingNone(edges[1..], nodeId);
    }
  }

  /** Deleting a node and its edges keeps every remaining edge attached to live nodes. */
  lemma DeleteKeepsEdgesLive(nodes: seq<Node>, edges: seq<Edge>, nodeId: string)
    requires EdgesLive(nodes, edges)
    ensures EdgesLive(RemoveNode(nodes, nodeId), RemoveTouching(edges, nodeId))
  {
    var ns := RemoveNode(nodes, nodeId);
    forall e | e in RemoveTouching(edges, nodeId)
      ensures e.source in NodeIds(ns) && e.target in NodeIds(ns)
    {
      var s :| s in nodes && s.id == e.source;
      var t :| t in nodes && t.id == e.target;
      assert s in ns && t in ns;
    }
  }

  /** The node `handleAddTable` creates: a fresh id, the table's columns and nothing selected. */
  function NewNode(schema: Schema, table: string, stamp: nat): (r: Option<Node>)
    ensures r.Some? <==> table != "" && HasTable(schema, table)
    ensures r.Some? ==> r.value == Node(table + "-" + NatToString(stamp), table, Lookup(schema, table).value, [])
  {
    if table == "" then None
    else match Lookup(schema, table)
      case None => None
      case Some(cols) => Some(Node(table + "-" + NatToString(stamp), table, cols, []))
  }

  // ------------------------------------------------------------ the compiler

  /** `k` is the first position of a node with that id. */
  ghost predicate FirstWithId(nodes: seq<Node>, id: string, k: nat) {
    k < |nodes| && nodes[k].id == id && forall j | 0 <= j < k :: nodes[j].id != id
  }

  /** `nodes.find(n => n.id === id)` */
  function FindNode(nodes: seq<Node>, id: string): (r: Option<Node>)
    ensures r.Some? ==> r.value in nodes && r.value.id == id
    ensures r.None? <==> id !in NodeIds(nodes)
    ensures forall k: nat | FirstWithId(nodes, id, k) :: r == Some(nodes[k])
  {
    if nodes == [] then None
    else if nodes[0].id == id then Some(nodes[0])
    else
      var r := FindNode(nodes[1..], id);
      assert id in NodeIds(nodes) && nodes[0].id != id ==> id in NodeIds(nodes[1..]);
      FirstWithIdShift(nodes, id);
      r
  }

  /** Past a first node with another id, the first position moves one back. */
  lemma FirstWithIdShift(nodes: seq<Node>, id: string)
    requires nodes != [] && nodes[0].id != id
    ensures forall k: nat | FirstWithId(nodes, id, k) :: k > 0 && FirstWithId(nodes[1..], id, k - 1)
  {
    forall k: nat | FirstWithId(nodes, id, k)
      ensures k > 0 && FirstWithId(nodes[1..], id, k - 1)
    {
      assert forall j | 0 <= j < k - 1 :: nodes[1..][j] == nodes[j + 1];
    }
  }

  /** The column a handle names: the first `-source`, then the first `-target`, removed. A missing handle renders as `undefined`. */
  function HandleColumn(handle: Option<string>): string {
    match handle
    case None => "undefined"
    case Some(h) => ReplaceFirst(ReplaceFirst(h, "-source", ""), "-target", "")
  }

  lemma SourceSuffixUnbordered()
    ensures Unbordered("-source")
  {
    var p := "-source";
    forall k | 0 < k < |p|
      ensures p[k..] != p[..|p| - k]
    {
      assert p[k..][0] != p[..|p| - k][0];
    }
  }

  lemma TargetSuffixUnbordered()
    ensures Unbordered("-target")
  {
    var p := "-target";
    forall k | 0 < k < |p|
      ensures p[k..] != p[..|p| - k]
    {
      assert p[k..][0] != p[..|p| - k][0];
    }
  }

  lemma TargetLacksSource()
    ensures !Contains("-target", "-source")
  {
    forall i: nat | i <= 7
      ensures !OccursAt("-target", "-source", i)
    {
      if i == 0 {
        assert "-target"[1] != "-source"[1];
      }
    }
  }

  /** The source handle of a column gives back the column name, unless the name itself contains a role suffix. */
  lemma SourceHandleRoundTrip(col: string)
    requires !Contains(col, "-source") && !Contains(col, "-target")
    ensures HandleColumn(Some(col + "-source")) == col
  {
    SourceSuffixUnbordered();
    ReplaceFirstAppended(col, "-source");
    ReplaceFirstAbsent(col, "-target", "");
  }

  /** The target handle of a column gives back the column name, unless the name itself contains a role suffix. */
  lemma TargetHandleRoundTrip(col: string)
    requires !Contains(col, "-source") && !Contains(col, "-target")
    ensures HandleColumn(Some(col + "-target")) == col
  {
    TargetLacksSource();
    AppendKeepsAbsent(col, "-target", "-source");
    ReplaceFirstAbsent(col + "-target", "-source", "");
    TargetSuffixUnbordered();
    ReplaceFirstAppended(col, "-target");
  }

  /** Both handles of a column give back the column name, unless the name itself contains a role suffix. */
  lemma HandleRoundTrip(col: string)
    requires !Contains(col, "-source") && !Contains(col, "-target")
    ensures HandleColumn(Some(col + "-source")) == col
    ensures HandleColumn(Some(col + "-target")) == col
  {
    SourceHandleRoundTrip(col);
    TargetHandleRoundTrip(col);
  }

  function Quoted(name: string): string {
    "`" + name + "`"
  }

  /** A projection item: `` `table`.`column` `` */
  function ColumnRef(table: string, col: string): string {
    Quoted(table) + "." + Quoted(col)
  }

  function ColumnRefs(table: string, cols: seq<string>): (r: seq<string>)
    ensures |r| == |cols| && forall k | 0 <= k < |cols| :: r[k] == ColumnRef(table, cols[k])
  {
    seq(|cols|, k requires 0 <= k < |cols| => ColumnRef(table, cols[k]))
  }

  /** Selected columns in node order, then selection order. */
  function Projection(nodes: seq<Node>): seq<string> {
    if nodes == [] then []
    else
      var last := nodes[|nodes| - 1];
      Projection(nodes[..|nodes| - 1]) + ColumnRefs(last.table, last.selected)
  }

  function SelectList(nodes: seq<Node>): seq<string> {
    var parts := Projection(nodes);
    if parts == [] then ["*"] else parts
  }

  predicate NothingSelected(nodes: seq<Node>) {
    forall n | n in nodes :: n.selected == []
  }

  /** The select list is the single wildcard exactly when no node has a selected column. */
  lemma {:induction false} SelectListStar(nodes: seq<Node>)
    ensures SelectList(nodes) == ["*"] <==> NothingSelected(nodes)
  {
    ProjectionEmpty(nodes);
    var parts := Projection(nodes);
    if parts != [] {
      assert parts[0][0] == '`' by { ProjectionItems(nodes, 0); }
    }
  }

  lemma {:induction false} ProjectionEmpty(nodes: seq<Node>)
    ensures Projection(nodes) == [] <==> NothingSelected(nodes)
  {
    if nodes != [] {
      var init := nodes[..|nodes| - 1];
      ProjectionEmpty(init);
      assert nodes == init + [nodes[|nodes| - 1]];
      assert NothingSelected(nodes) <==> NothingSelected(init) && nodes[|nodes| - 1].selected == [];
    }
  }

  /** Every projection item is a quoted `table`.`column` reference. */
  lemma {:induction false} ProjectionItems(nodes: seq<Node>, k: nat)
    requires k < |Projection(nodes)|
    ensures exists n, c :: n in nodes && c in n.selected && Projection(nodes)[k] == ColumnRef(n.table, c)
  {
    var init := nodes[..|nodes| - 1];
    var last := nodes[|nodes| - 1];
    if k < |Projection(init)| {
      ProjectionItems(init, k);
      var n, c :| n in init && c in n.selected && Projection(init)[k] == ColumnRef(n.table, c);
      assert n in nodes;
    } else {
      var j := k - |Projection(init)|;
      assert Projection(nodes)[k] == ColumnRef(last.table, last.selected[j]);
    }
  }

  /** One attachment: `edge` joins the not yet visited node `to` to the visited node `from`. */
  datatype Attach = Attach(edge: Edge, from: Node, to: Node, fromCol: string, toCol: string)

  /** `\n{joinType} `to` ON `from`.`fromCol` = `to`.`toCol`` -- the visited side on the left. */
  function Clause(kind: JoinKind, a: Attach): string {
    "\n" + Keyword(kind) + " " + Quoted(a.to.table) + " ON " + ColumnRef(a.from.table, a.fromCol)
      + " = " + ColumnRef(a.to.table, a.toCol)
  }

  function Clauses(kind: JoinKind, attached: seq<Attach>): string {
    if attached == [] then ""
    else Clauses(kind, attached[..|attached| - 1]) + Clause(kind, attached[|attached| - 1])
  }

  /** The loop's mutable state: `visitedNodes`, `usedEdges`, and the joins emitted so far. */
  datatype JoinState = JoinState(visited: set<string>, used: set<string>, attached: seq<Attach>)

  /** One `edges.forEach` step. */
  function Visit(nodes: seq<Node>, st: JoinState, e: Edge): JoinState {
    if e.id in st.used then st
    else
      var sourceVisited := e.source in st.visited;
      var targetVisited := e.target in st.visited;
      match (FindNode(nodes, e.target), FindNode(nodes, e.source))
      case (Some(t), Some(s)) =>
        if sourceVisited && !targetVisited then
          JoinState(st.visited + {e.target}, st.used + {e.id},
                    st.attached + [Attach(e, s, t, HandleColumn(e.sourceHandle), HandleColumn(e.targetHandle))])
        else if !sourceVisited && targetVisited then
          JoinState(st.visited + {e.source}, st.used + {e.id},
                    st.attached + [Attach(e, t, s, HandleColumn(e.targetHandle), HandleColumn(e.sourceHandle))])
        else st
      case _ => st
  }

  /** One full pass over the edge list. */
  function Pass(nodes: seq<Node>, edges: seq<Edge>, st: JoinState): JoinState {
    if edges == [] then st
    else Visit(nodes, Pass(nodes, edges[..|edges| - 1], st), edges[|edges| - 1])
  }

  /**
   * `r` grew from `st`: `usedEdges` and `visitedNodes` only grow, `usedEdges` by ids from `ids`
   * alone, the joins emitted before stay in front, an unchanged join list means an unchanged
   * state, and a longer one comes with a newly used edge id.
   */
  ghost predicate Grown(st: JoinState, r: JoinState, ids: set<string>) {
    && st.used <= r.used && r.used <= st.used + ids
    && st.visited <= r.visited
    && |r.attached| >= |st.attached| && r.attached[..|st.attached|] == st.attached
    && (|r.attached| == |st.attached| ==> r == st)
    && (|r.attached| > |st.attached| ==> exists id :: id in r.used && id !in st.used)
  }

  /** A pass only grows the state, and grows `usedEdges` with an edge id whenever it emits a join. */
  lemma {:induction false} PassGrows(nodes: seq<Node>, edges: seq<Edge>, st: JoinState)
    ensures Grown(st, Pass(nodes, edges, st), EdgeIds(edges))
  {
    if edges != [] {
      var init := edges[..|edges| - 1];
      var e := edges[|edges| - 1];
      PassGrows(nodes, init, st);
      assert EdgeIds(init) <= EdgeIds(edges);
      assert e.id in EdgeIds(edges);
      VisitGrows(nodes, st, Pass(nodes, init, st), e, EdgeIds(init), EdgeIds(edges));
    }
  }

  /** One more edge step keeps a grown state grown. */
  lemma VisitGrows(nodes: seq<Node>, st: JoinState, mid: JoinState, e: Edge, before: set<string>, ids: set<string>)
    requires Grown(st, mid, before) && before <= ids && e.id in ids
    ensures Grown(st, Visit(nodes, mid, e), ids)
  {
    VisitCases(nodes, mid, e);
    var r := Visit(nodes, mid, e);
    if |r.attached| > |mid.attached| {
      assert e.id in r.used && e.id !in mid.used;
      if |mid.attached| == |st.attached| {
        assert e.id !in st.used;
      }
    }
    assert r.attached[..|mid.attached|] == mid.attached;
    assert r.attached[..|st.attached|] == mid.attached[..|st.attached|];
  }

  /** Edges not yet used: the measure that bounds the number of passes. */
  function Remaining(edges: seq<Edge>, st: JoinState): nat {
    |EdgeIds(edges) - st.used|
  }

  lemma {:induction false} SubsetNoLarger(a: set<string>, b: set<string>)
    requires a <= b
    ensures |a| <= |b|
    decreases a
  {
    if a != {} {
      var y :| y in a;
      SubsetNoLarger(a - {y}, b - {y});
    }
  }

  /** A pass that emits a join uses up an edge; one that emits none changes nothing. */
  lemma PassProgress(nodes: seq<Node>, edges: seq<Edge>, st: JoinState)
    requires st.used <= EdgeIds(edges)
    ensures Pass(nodes, edges, st).used <= EdgeIds(edges)
    ensures |Pass(nodes, edges, st).attached| == |st.attached| ==> Pass(nodes, edges, st) == st
    ensures |Pass(nodes, edges, st).attached| != |st.attached| ==>
      Remaining(edges, Pass(nodes, edges, st)) < Remaining(edges, st)
  {
    PassGrows(nodes, edges, st);
    var next := Pass(nodes, edges, st);
    if |next.attached| != |st.attached| {
      var id :| id in next.used && id !in st.used;
      var a, b := EdgeIds(edges) - next.used, EdgeIds(edges) - st.used;
      assert id in b && id !in a;
      SubsetNoLarger(a, b - {id});
    }
  }

  /** `while (changed) { ... }`: passes until one attaches nothing. */
  function Loop(nodes: seq<Node>, edges: seq<Edge>, st: JoinState): JoinState
    requires st.used <= EdgeIds(edges)
    decreases Remaining(edges, st)
  {
    var next := Pass(nodes, edges, st);
    PassProgress(nodes, edges, st);
    if |next.attached| == |st.attached| then next
    else Loop(nodes, edges, next)
  }

  function Start(nodes: seq<Node>): JoinState
    requires nodes != []
  {
    JoinState({nodes[0].id}, {}, [])
  }

  /** The joins the compiler emits and the nodes it visits. */
  function Plan(nodes: seq<Node>, edges: seq<Edge>): JoinState
    requires nodes != []
  {
    Loop(nodes, edges, Start(nodes))
  }

  /** The trailing `nodes.forEach`: unvisited nodes in node order, each id once. */
  function CrossJoined(nodes: seq<Node>, visited: set<string>): seq<Node> {
    if nodes == [] then []
    else if nodes[0].id in visited then CrossJoined(nodes[1..], visited)
    else [nodes[0]] + CrossJoined(nodes[1..], visited + {nodes[0].id})
  }

  function CrossItem(n: Node): string {
    ",\n  " + Quoted(n.table)
  }

  function CrossList(ns: seq<Node>): string {
    if ns == [] then "" else CrossItem(ns[0]) + CrossList(ns[1..])
  }

  function Header(nodes: seq<Node>): string
    requires nodes != []
  {
    "SELECT\n  " + Join(SelectList(nodes), ",\n  ") + "\nFROM\n  " + Quoted(nodes[0].table)
  }

  /** The statement `generateSql` hands to the editor for a non-empty canvas. */
  function Compile(nodes: seq<Node>, edges: seq<Edge>, kind: JoinKind): string
    requires nodes != []
  {
    Render(nodes, kind, Plan(nodes, edges))
  }

  /** The statement text for a finished join plan. */
  function Render(nodes: seq<Node>, kind: JoinKind, plan: JoinState): string
    requires nodes != []
  {
    Assemble(Header(nodes), Clauses(kind, plan.attached), CrossList(CrossJoined(nodes, plan.visited)))
  }

  /** The statement's pieces laid end to end, closed by `;`. */
  function Assemble(header: string, clauses: string, crossList: string): string {
    header + clauses + crossList + ";"
  }

  // ------------------------------------------------------------ what the plan satisfies

  function ToIds(attached: seq<Attach>): set<string> {
    set a | a in attached :: a.to.id
  }

  function EdgeIdsOf(attached: seq<Attach>): set<string> {
    set a | a in attached :: a.edge.id
  }

  /** Attachment `i` is well formed: its edge joins a node visited earlier to a new node, with its columns taken from the matching handles. */
  ghost predicate AttachOk(nodes: seq<Node>, edges: seq<Edge>, attached: seq<Attach>, i: nat)
    requires 0 < |nodes| && i < |attached|
  {
    var a := attached[i];
    && a.edge in edges
    && FindNode(nodes, a.from.id) == Some(a.from)
    && FindNode(nodes, a.to.id) == Some(a.to)
    && a.from.id in {nodes[0].id} + ToIds(attached[..i])
    && a.to.id != nodes[0].id
    && a.to.id !in ToIds(attached[..i])
    && ((a.edge.source == a.from.id && a.edge.target == a.to.id
         && a.fromCol == HandleColumn(a.edge.sourceHandle) && a.toCol == HandleColumn(a.edge.targetHandle))
     || (a.edge.target == a.from.id && a.edge.source == a.to.id
         && a.fromCol == HandleColumn(a.edge.targetHandle) && a.toCol == HandleColumn(a.edge.sourceHandle)))
  }

  ghost predicate PlanInv(nodes: seq<Node>, edges: seq<Edge>, st: JoinState)
    requires nodes != []
  {
    && st.visited == {nodes[0].id} + ToIds(st.attached)
    && st.used == EdgeIdsOf(st.attached)
    && (forall i | 0 <= i < |st.attached| :: AttachOk(nodes, edges, st.attached, i))
    && (forall i, j | 0 <= i < j < |st.attached| :: st.attached[i].edge.id != st.attached[j].edge.id)
  }

  lemma ToIdsSnocAttach(attached: seq<Attach>, a: Attach)
    ensures ToIds(attached + [a]) == ToIds(attached) + {a.to.id}
    ensures EdgeIdsOf(attached + [a]) == EdgeIdsOf(attached) + {a.edge.id}
  {
    assert forall x | x in attached + [a] :: x in attached || x == a;
  }

  /** Earlier attachments stay well formed when one is appended. */
  lemma ExtendKeepsOk(nodes: seq<Node>, edges: seq<Edge>, attached: seq<Attach>, a: Attach, i: nat)
    requires 0 < |nodes| && i < |attached| && AttachOk(nodes, edges, attached, i)
    ensures AttachOk(nodes, edges, attached + [a], i)
  {
    assert (attached + [a])[..i] == attached[..i];
  }

  /** Appending one well-formed attachment whose edge is unused keeps the invariant. */
  lemma ExtendInv(nodes: seq<Node>, edges: seq<Edge>, st: JoinState, a: Attach)
    requires nodes != [] && PlanInv(nodes, edges, st)
    requires AttachOk(nodes, edges, st.attached + [a], |st.attached|)
    requires a.edge.id !in st.used
    ensures PlanInv(nodes, edges, JoinState(st.visited + {a.to.id}, st.used + {a.edge.id}, st.attached + [a]))
  {
    var r := st.attached + [a];
    var n := |st.attached|;
    ToIdsSnocAttach(st.attached, a);
    forall i | 0 <= i < |r|
      ensures AttachOk(nodes, edges, r, i)
    {
      if i < n {
        ExtendKeepsOk(nodes, edges, st.attached, a, i);
      }
    }
    forall i, j | 0 <= i < j < |r|
      ensures r[i].edge.id != r[j].edge.id
    {
      if j == n {
        assert r[i] in st.attached;
      }
    }
  }

  lemma VisitInv(nodes: seq<Node>, edges: seq<Edge>, st: JoinState, e: Edge)
    requires nodes != [] && PlanInv(nodes, edges, st) && e in edges
    ensures PlanInv(nodes, edges, Visit(nodes, st, e))
  {
    if e.id !in st.used {
      var n := |st.attached|;
      match (FindNode(nodes, e.target), FindNode(nodes, e.source))
      case (Some(t), Some(s)) =>
        var sourceVisited := e.source in st.visited;
        var targetVisited := e.target in st.visited;
        if sourceVisited && !targetVisited {
          var a := Attach(e, s, t, HandleColumn(e.sourceHandle), HandleColumn(e.targetHandle));
          assert (st.attached + [a])[..n] == st.attached;
          ExtendInv(nodes, edges, st, a);
        } else if !sourceVisited && targetVisited {
          var a := Attach(e, t, s, HandleColumn(e.targetHandle), HandleColumn(e.sourceHandle));
          assert (st.attached + [a])[..n] == st.attached;
          ExtendInv(nodes, edges, st, a);
        }
      case _ =>
    }
  }

  lemma {:induction false} PassInv(nodes: seq<Node>, edges: seq<Edge>, all: seq<Edge>, st: JoinState)
    requires nodes != [] && PlanInv(nodes, all, st) && forall e | e in edges :: e in all
    ensures PlanInv(nodes, all, Pass(nodes, edges, st))
  {
    if edges != [] {
      var init := edges[..|edges| - 1];
      PassInv(nodes, init, all, st);
      VisitInv(nodes, all, Pass(nodes, init, st), edges[|edges| - 1]);
    }
  }

  lemma {:induction false} LoopInv(nodes: seq<Node>, edges: seq<Edge>, st: JoinState)
    requires nodes != [] && st.used <= EdgeIds(edges) && PlanInv(nodes, edges, st)
    ensures PlanInv(nodes, edges, Loop(nodes, edges, st))
    decreases Remaining(edges, st)
  {
    PassInv(nodes, edges, edges, st);
    PassProgress(nodes, edges, st);
    var next := Pass(nodes, edges, st);
    if |next.attached| != |st.attached| {
      LoopInv(nodes, edges, next);
    }
  }

  lemma PlanSatisfiesInv(nodes: seq<Node>, edges: seq<Edge>)
    requires nodes != []
    ensures PlanInv(nodes, edges, Plan(nodes, edges))
  {
    var st := Start(nodes);
    assert ToIds([]) == {} && EdgeIdsOf([]) == {};
    LoopInv(nodes, edges, st);
  }

  /** Loop's result is a pass that attached nothing. */
  lemma {:induction false} LoopIsFixedPoint(nodes: seq<Node>, edges: seq<Edge>, st: JoinState)
    requires st.used <= EdgeIds(edges)
    ensures Pass(nodes, edges, Loop(nodes, edges, st)) == Loop(nodes, edges, st)
    decreases Remaining(edges, st)
  {
    PassProgress(nodes, edges, st);
    var next := Pass(nodes, edges, st);
    if |next.attached| != |st.attached| {
      LoopIsFixedPoint(nodes, edges, next);
    }
  }

  /** If a whole pass changes nothing, neither did the pass before its last edge. */
  lemma StableInit(nodes: seq<Node>, edges: seq<Edge>, st: JoinState)
    requires edges != [] && Pass(nodes, edges, st) == st
    ensures Pass(nodes, edges[..|edges| - 1], st) == st
  {
    var init := edges[..|edges| - 1];
    PassGrows(nodes, init, st);
    var mid := Pass(nodes, init, st);
    assert |Visit(nodes, mid, edges[|edges| - 1]).attached| >= |mid.attached|;
  }

  /** A pass that changes nothing changed nothing at any of its edges. */
  lemma {:induction false} StablePass(nodes: seq<Node>, edges: seq<Edge>, st: JoinState)
    requires Pass(nodes, edges, st) == st
    ensures forall e | e in edges :: Visit(nodes, st, e) == st
  {
    if edges != [] {
      var init := edges[..|edges| - 1];
      var last := edges[|edges| - 1];
      StableInit(nodes, edges, st);
      StablePass(nodes, init, st);
      forall e | e in edges
        ensures Visit(nodes, st, e) == st
      {
        if e != last {
          var k :| 0 <= k < |edges| && edges[k] == e;
          assert init[k] == e;
        }
      }
    }
  }

  /** C is closed under the edges between live nodes, taken undirected. */
  ghost predicate Closed(nodes: seq<Node>, edges: seq<Edge>, c: set<string>) {
    forall e | e in edges && e.source in NodeIds(nodes) && e.target in NodeIds(nodes) ::
      e.source in c <==> e.target in c
  }

  /** After the loop no edge between live nodes leaves the visited set: it is closed. */
  lemma PlanClosed(nodes: seq<Node>, edges: seq<Edge>)
    requires nodes != [] && UniqueEdgeIds(edges)
    ensures Closed(nodes, edges, Plan(nodes, edges).visited)
  {
    var st := Plan(nodes, edges);
    PlanSatisfiesInv(nodes, edges);
    LoopIsFixedPoint(nodes, edges, Start(nodes));
    StablePass(nodes, edges, st);
    forall e | e in edges && e.source in NodeIds(nodes) && e.target in NodeIds(nodes)
      ensures e.source in st.visited <==> e.target in st.visited
    {
      assert Visit(nodes, st, e) == st;
      if e.id in st.used {
        var a :| a in st.attached && a.edge.id == e.id;
        var i :| 0 <= i < |st.attached| && st.attached[i] == a;
        assert AttachOk(nodes, edges, st.attached, i);
        assert a.edge == e by {
          var p :| 0 <= p < |edges| && edges[p] == a.edge;
          var q :| 0 <= q < |edges| && edges[q] == e;
        }
        assert a.to.id in ToIds(st.attached);
        assert a.from.id in st.visited by {
          assert ToIds(st.attached[..i]) <= ToIds(st.attached);
        }
      } else {
        assert FindNode(nodes, e.source).Some? && FindNode(nodes, e.target).Some?;
      }
    }
  }

  /** Every visited node lies in any closed set that holds the anchor: visited is the anchor's component. */
  lemma PlanLeast(nodes: seq<Node>, edges: seq<Edge>, c: set<string>)
    requires nodes != [] && Closed(nodes, edges, c) && nodes[0].id in c
    ensures Plan(nodes, edges).visited <= c
  {
    var st := Plan(nodes, edges);
    PlanSatisfiesInv(nodes, edges);
    AttachedWithin(nodes, edges, st.attached, c, |st.attached|);
  }

  lemma {:induction false} AttachedWithin(nodes: seq<Node>, edges: seq<Edge>, attached: seq<Attach>, c: set<string>, k: nat)
    requires nodes != [] && Closed(nodes, edges, c) && nodes[0].id in c && k <= |attached|
    requires forall i | 0 <= i < |attached| :: AttachOk(nodes, edges, attached, i)
    ensures ToIds(attached[..k]) <= c
  {
    if k > 0 {
      AttachedWithin(nodes, edges, attached, c, k - 1);
      WithinStep(nodes, edges, attached, c, k - 1);
    }
  }

  /** The join at index `i` keeps the targets within a closed set that already holds the earlier ones. */
  lemma WithinStep(nodes: seq<Node>, edges: seq<Edge>, attached: seq<Attach>, c: set<string>, i: nat)
    requires nodes != [] && Closed(nodes, edges, c) && nodes[0].id in c && i < |attached|
    requires AttachOk(nodes, edges, attached, i) && ToIds(attached[..i]) <= c
    ensures ToIds(attached[..i + 1]) <= c
  {
    AttachEnds(nodes, edges, attached, i);
    ClosedStep(nodes, edges, c, attached[i], ToIds(attached[..i]));
    ToIdsSnoc(attached, i);
  }

  /** An edge from inside a closed set, between two nodes of the canvas, ends inside it. */
  lemma ClosedStep(nodes: seq<Node>, edges: seq<Edge>, c: set<string>, a: Attach, earlier: set<string>)
    requires nodes != [] && Closed(nodes, edges, c) && earlier <= c && nodes[0].id in c
    requires a.edge in edges && a.from.id in NodeIds(nodes) && a.to.id in NodeIds(nodes)
    requires a.from.id in {nodes[0].id} + earlier
    requires (a.edge.source == a.from.id && a.edge.target == a.to.id)
      || (a.edge.target == a.from.id && a.edge.source == a.to.id)
    ensures a.to.id in c
  {
  }

  /** The endpoint facts of one well-formed attachment. */
  lemma AttachEnds(nodes: seq<Node>, edges: seq<Edge>, attached: seq<Attach>, i: nat)
    requires 0 < |nodes| && i < |attached| && AttachOk(nodes, edges, attached, i)
    ensures var a := attached[i];
      && a.edge in edges && a.from.id in NodeIds(nodes) && a.to.id in NodeIds(nodes)
      && a.from.id in {nodes[0].id} + ToIds(attached[..i])
      && ((a.edge.source == a.from.id && a.edge.target == a.to.id)
       || (a.edge.target == a.from.id && a.edge.source == a.to.id))
  {
  }

  lemma ToIdsSnoc(attached: seq<Attach>, i: nat)
    requires i < |attached|
    ensures ToIds(attached[..i + 1]) == ToIds(attached[..i]) + {attached[i].to.id}
  {
    assert attached[..i + 1] == attached[..i] + [attached[i]];
  }

  function JoinedIds(attached: seq<Attach>): (r: seq<string>)
    ensures |r| == |attached| && forall i | 0 <= i < |attached| :: r[i] == attached[i].to.id
  {
    seq(|attached|, i requires 0 <= i < |attached| => attached[i].to.id)
  }

  function CrossIds(ns: seq<Node>): (r: seq<string>)
    ensures |r| == |ns| && forall i | 0 <= i < |ns| :: r[i] == ns[i].id
  {
    seq(|ns|, i requires 0 <= i < |ns| => ns[i].id)
  }

  /** The placement order: the anchor, then each joined node, then each cross-joined node. */
  function Placement(nodes: seq<Node>, edges: seq<Edge>): seq<string>
    requires nodes != []
  {
    var plan := Plan(nodes, edges);
    [nodes[0].id] + JoinedIds(plan.attached) + CrossIds(CrossJoined(nodes, plan.visited))
  }

  predicate Distinct(s: seq<string>) {
    forall i, j | 0 <= i < j < |s| :: s[i] != s[j]
  }

  lemma NodeIdsCons(n: Node, rest: seq<Node>)
    ensures NodeIds([n] + rest) == {n.id} + NodeIds(rest)
  {
    assert forall m :: m in [n] + rest <==> m == n || m in rest;
  }

  /** Cross-joined nodes come from the canvas and were never visited. */
  lemma {:induction false} CrossJoinedUnvisited(nodes: seq<Node>, visited: set<string>, i: nat)
    requires i < |CrossJoined(nodes, visited)|
    ensures CrossJoined(nodes, visited)[i] in nodes && CrossJoined(nodes, visited)[i].id !in visited
  {
    var n, tail := nodes[0], nodes[1..];
    if n.id in visited {
      CrossJoinedUnvisited(tail, visited, i);
    } else if i > 0 {
      CrossJoinedUnvisited(tail, visited + {n.id}, i - 1);
    }
  }

  /** No id is cross-joined twice. */
  lemma {:induction false} CrossJoinedDistinct(nodes: seq<Node>, visited: set<string>, i: nat, j: nat)
    requires i < j < |CrossJoined(nodes, visited)|
    ensures CrossJoined(nodes, visited)[i].id != CrossJoined(nodes, visited)[j].id
  {
    var n, tail := nodes[0], nodes[1..];
    if n.id in visited {
      CrossJoinedDistinct(tail, visited, i, j);
    } else {
      var v := visited + {n.id};
      CrossJoinedUnvisited(tail, v, j - 1);
      if i > 0 {
        CrossJoinedDistinct(tail, v, i - 1, j - 1);
      }
    }
  }

  /** Visited and cross-joined ids together cover every node. */
  lemma {:induction false} CrossJoinedCovers(nodes: seq<Node>, visited: set<string>)
    ensures visited + NodeIds(CrossJoined(nodes, visited)) == visited + NodeIds(nodes)
  {
    if nodes != [] {
      var n, tail := nodes[0], nodes[1..];
      assert nodes == [n] + tail;
      NodeIdsCons(n, tail);
      if n.id in visited {
        CrossJoinedCovers(tail, visited);
      } else {
        CrossJoinedCovers(tail, visited + {n.id});
        NodeIdsCons(n, CrossJoined(tail, visited + {n.id}));
      }
    }
  }

  lemma JoinedIdsSet(attached: seq<Attach>)
    ensures (set id | id in JoinedIds(attached)) == ToIds(attached)
  {
    var r := JoinedIds(attached);
    forall a | a in attached
      ensures a.to.id in r
    {
      var i :| 0 <= i < |attached| && attached[i] == a;
      assert r[i] == a.to.id;
    }
  }

  lemma CrossIdsSet(ns: seq<Node>)
    ensures (set id | id in CrossIds(ns)) == NodeIds(ns)
  {
    var r := CrossIds(ns);
    forall n | n in ns
      ensures n.id in r
    {
      var i :| 0 <= i < |ns| && ns[i] == n;
      assert r[i] == n.id;
    }
  }

  /** The joined nodes are distinct, live, and never the anchor. */
  lemma PlanJoinedIds(nodes: seq<Node>, edges: seq<Edge>)
    requires nodes != []
    ensures var plan := Plan(nodes, edges); var ids := JoinedIds(plan.attached);
      && Distinct(ids)
      && nodes[0].id !in ids
      && plan.visited == {nodes[0].id} + (set id | id in ids)
      && plan.visited <= NodeIds(nodes)
  {
    var plan := Plan(nodes, edges);
    var ids := JoinedIds(plan.attached);
    PlanSatisfiesInv(nodes, edges);
    JoinedIdsSet(plan.attached);
    forall i, j | 0 <= i < j < |ids|
      ensures ids[i] != ids[j]
    {
      assert AttachOk(nodes, edges, plan.attached, j);
      assert plan.attached[..j][i] == plan.attached[i];
    }
    forall i | 0 <= i < |ids|
      ensures ids[i] != nodes[0].id && ids[i] in NodeIds(nodes)
    {
      AttachEnds(nodes, edges, plan.attached, i);
      assert AttachOk(nodes, edges, plan.attached, i);
    }
  }

  /** Every node id appears exactly once across the anchor, the JOIN clauses and the cross-join list. */
  /** The cross-joined ids are distinct and none of them was visited. */
  lemma CrossIdsFacts(nodes: seq<Node>, visited: set<string>)
    ensures Distinct(CrossIds(CrossJoined(nodes, visited)))
    ensures forall id | id in CrossIds(CrossJoined(nodes, visited)) :: id !in visited
  {
    var cross := CrossJoined(nodes, visited);
    var ids := CrossIds(cross);
    forall i, j | 0 <= i < j < |ids|
      ensures ids[i] != ids[j]
    {
      CrossJoinedDistinct(nodes, visited, i, j);
    }
    forall id | id in ids
      ensures id !in visited
    {
      var k :| 0 <= k < |ids| && ids[k] == id;
      CrossJoinedUnvisited(nodes, visited, k);
    }
  }

  /** An anchor, distinct joined ids and distinct unvisited ids never repeat when laid end to end. */
  lemma DistinctPlacement(anchor: string, joined: seq<string>, crossed: seq<string>, visited: set<string>)
    requires Distinct(joined) && Distinct(crossed) && anchor !in joined
    requires visited == {anchor} + (set id | id in joined)
    requires forall id | id in crossed :: id !in visited
    ensures Distinct([anchor] + joined + crossed)
  {
    var p := [anchor] + joined + crossed;
    forall i, j | 0 <= i < j < |p|
      ensures p[i] != p[j]
    {
      if j > |joined| {
        assert p[j] == crossed[j - 1 - |joined|];
        assert p[j] in crossed;
        if i <= |joined| {
          assert p[i] in visited by {
            if i > 0 {
              assert p[i] == joined[i - 1];
            }
          }
        }
      } else if i > 0 {
        assert p[i] == joined[i - 1] && p[j] == joined[j - 1];
      } else {
        assert p[j] == joined[j - 1];
      }
    }
  }

  lemma PlacementIsPermutation(nodes: seq<Node>, edges: seq<Edge>)
    requires nodes != []
    ensures Distinct(Placement(nodes, edges))
    ensures (set id | id in Placement(nodes, edges)) == NodeIds(nodes)
  {
    var plan := Plan(nodes, edges);
    var cross := CrossJoined(nodes, plan.visited);
    var joined, crossed := JoinedIds(plan.attached), CrossIds(cross);
    PlanJoinedIds(nodes, edges);
    CrossIdsFacts(nodes, plan.visited);
    DistinctPlacement(nodes[0].id, joined, crossed, plan.visited);
    CrossJoinedCovers(nodes, plan.visited);
    CrossIdsSet(cross);
    var p := [nodes[0].id] + joined + crossed;
    assert p == Placement(nodes, edges);
    assert (set id | id in p) == {nodes[0].id} + (set id | id in joined) + (set id | id in crossed);
  }

  /** With distinct node ids, the cross-joined nodes are exactly the unreached nodes, in node order. */
  lemma {:induction false} CrossJoinedIsFilter(nodes: seq<Node>, visited: set<string>, n: Node)
    requires UniqueNodeIds(nodes)
    ensures n in CrossJoined(nodes, visited) <==> n in nodes && n.id !in visited
  {
    if nodes != [] {
      var m := nodes[0];
      assert UniqueNodeIds(nodes[1..]);
      if m.id in visited {
        CrossJoinedIsFilter(nodes[1..], visited, n);
      } else {
        CrossJoinedIsFilter(nodes[1..], visited + {m.id}, n);
        if n in nodes[1..] {
          var k :| 0 <= k < |nodes[1..]| && nodes[1..][k] == n;
          assert nodes[k + 1] == n;
          if n != m {
            assert n.id != m.id;
          }
        }
      }
    }
  }

  /** Empty, or closed by a backtick. */
  predicate BacktickEnded(s: string) {
    s == [] || s[|s| - 1] == '`'
  }

  /** A backtick and then a single `;` close the text. */
  predicate ClosedBySemicolon(q: string) {
    |q| >= 2 && q[|q| - 1] == ';' && q[|q| - 2] == '`'
  }

  lemma {:induction false} ClausesEndInBacktick(kind: JoinKind, attached: seq<Attach>)
    ensures BacktickEnded(Clauses(kind, attached))
  {
    if attached != [] {
      var a := attached[|attached| - 1];
      var c := Clause(kind, a);
      assert c[|c| - 1] == '`';
    }
  }

  lemma {:induction false} CrossListEndsInBacktick(ns: seq<Node>)
    ensures BacktickEnded(CrossList(ns))
  {
    if ns != [] {
      CrossListEndsInBacktick(ns[1..]);
    }
  }

  lemma HeaderEndsInBacktick(nodes: seq<Node>)
    requires nodes != []
    ensures Header(nodes) != [] && BacktickEnded(Header(nodes))
  {
    var q := Quoted(nodes[0].table);
    assert q[|q| - 1] == '`';
  }

  lemma BacktickThenSemicolon(h: string, c: string, x: string)
    requires h != [] && BacktickEnded(h) && BacktickEnded(c) && BacktickEnded(x)
    ensures ClosedBySemicolon(Assemble(h, c, x))
  {
    var body := h + c + x;
    assert body[|body| - 1] == '`';
    assert (body + ";")[|body| - 1] == body[|body| - 1];
  }

  lemma RenderEnding(nodes: seq<Node>, kind: JoinKind, plan: JoinState)
    requires nodes != []
    ensures ClosedBySemicolon(Render(nodes, kind, plan))
  {
    HeaderEndsInBacktick(nodes);
    ClausesEndInBacktick(kind, plan.attached);
    CrossListEndsInBacktick(CrossJoined(nodes, plan.visited));
    BacktickThenSemicolon(Header(nodes), Clauses(kind, plan.attached), CrossList(CrossJoined(nodes, plan.visited)));
  }

  /** The statement ends with exactly one `;`, right after the last quoted name. */
  lemma CompileEnding(nodes: seq<Node>, edges: seq<Edge>, kind: JoinKind)
    requires nodes != []
    ensures ClosedBySemicolon(Compile(nodes, edges, kind))
  {
    RenderEnding(nodes, kind, Plan(nodes, edges));
  }

  lemma RenderOpening(nodes: seq<Node>, kind: JoinKind, plan: JoinState)
    requires nodes != []
    ensures StartsWith(Render(nodes, kind, plan),
      "SELECT\n  " + Join(SelectList(nodes), ",\n  ") + "\nFROM\n  `" + nodes[0].table + "`")
  {
    HeaderSpelled(nodes);
    AssembleOpening(Header(nodes), Clauses(kind, plan.attached), CrossList(CrossJoined(nodes, plan.visited)));
  }

  lemma HeaderSpelled(nodes: seq<Node>)
    requires nodes != []
    ensures Header(nodes) == "SELECT\n  " + Join(SelectList(nodes), ",\n  ") + "\nFROM\n  `" + nodes[0].table + "`"
  {
  }

  lemma AssembleOpening(h: string, c: string, x: string)
    ensures StartsWith(Assemble(h, c, x), h)
  {
    assert Assemble(h, c, x)[..|h|] == h;
  }

  /** The statement opens with the projection and anchors FROM at the first node. */
  lemma CompileOpening(nodes: seq<Node>, edges: seq<Edge>, kind: JoinKind)
    requires nodes != []
    ensures StartsWith(Compile(nodes, edges, kind),
      "SELECT\n  " + Join(SelectList(nodes), ",\n  ") + "\nFROM\n  `" + nodes[0].table + "`")
  {
    RenderOpening(nodes, kind, Plan(nodes, edges));
  }

  /** Every emitted join is well formed: the visited side is on the left of `=`, each edge gives at most one join, and no edge joins a node to itself. */
  lemma JoinsWellFormed(nodes: seq<Node>, edges: seq<Edge>, i: nat)
    requires nodes != [] && i < |Plan(nodes, edges).attached|
    ensures var plan := Plan(nodes, edges).attached; var a := plan[i];
      && a.edge in edges
      && a.from.id != a.to.id && a.edge.source != a.edge.target
      && a.from.id in {nodes[0].id} + ToIds(plan[..i])
      && a.to.id !in {nodes[0].id} + ToIds(plan[..i])
      && (forall j | 0 <= j < |plan| && j != i :: plan[j].edge.id != a.edge.id)
      && ((a.edge.source == a.from.id && a.fromCol == HandleColumn(a.edge.sourceHandle)
           && a.toCol == HandleColumn(a.edge.targetHandle))
       || (a.edge.target == a.from.id && a.fromCol == HandleColumn(a.edge.targetHandle)
           && a.toCol == HandleColumn(a.edge.sourceHandle)))
  {
    PlanSatisfiesInv(nodes, edges);
    assert AttachOk(nodes, edges, Plan(nodes, edges).attached, i);
  }

  // ------------------------------------------------------------ generateSql

  /** `generateSql`: `None` is the "add some tables" alert on an empty canvas. */
  method GenerateSql(nodes: seq<Node>, edges: seq<Edge>, kind: JoinKind) returns (query: Option<string>)
    ensures nodes == [] <==> query.None?
    ensures nodes != [] ==> query == Some(Compile(nodes, edges, kind))
  {
    if |nodes| == 0 {
      query := None;
    } else {
      var selectParts := BuildSelectList(nodes);
      var q := "SELECT\n  " + Join(selectParts, ",\n  ") + "\nFROM\n  " + Quoted(nodes[0].table);
      var visited: set<string> := {nodes[0].id};
      var used: set<string> := {};
      var changed := true;
      ghost var attached: seq<Attach> := [];
      ghost var plan := Plan(nodes, edges);
      while changed
        invariant used <= EdgeIds(edges)
        invariant changed ==> Loop(nodes, edges, JoinState(visited, used, attached)) == plan
        invariant !changed ==> JoinState(visited, used, attached) == plan
        invariant q == Header(nodes) + Clauses(kind, attached)
        decreases Remaining(edges, JoinState(visited, used, attached)) + (if changed then 1 else 0)
      {
        ghost var start := JoinState(visited, used, attached);
        PassProgress(nodes, edges, start);
        visited, used, q, changed, attached := ScanEdges(nodes, edges, kind, visited, used, q, Header(nodes), attached);
      }
      q := AppendCrossJoins(nodes, visited, q);
      query := Some(q + ";");
    }
  }

  /** The select list, node by node and column by column. */
  method BuildSelectList(nodes: seq<Node>) returns (parts: seq<string>)
    ensures parts == SelectList(nodes)
  {
    parts := [];
    for i := 0 to |nodes|
      invariant parts == Projection(nodes[..i])
    {
      var node := nodes[i];
      for j := 0 to |node.selected|
        invariant parts == Projection(nodes[..i]) + ColumnRefs(node.table, node.selected[..j])
      {
        parts := parts + [ColumnRef(node.table, node.selected[j])];
        assert ColumnRefs(node.table, node.selected[..j + 1])
          == ColumnRefs(node.table, node.selected[..j]) + [ColumnRef(node.table, node.selected[j])];
      }
      assert node.selected[..|node.selected|] == node.selected;
      assert nodes[..i + 1][..i] == nodes[..i];
    }
    assert nodes[..|nodes|] == nodes;
    if |parts| == 0 {
      parts := ["*"];
    }
  }

  /** One `edges.forEach` pass of the join loop; `changed` reports whether it emitted a join. */
  method ScanEdges(nodes: seq<Node>, edges: seq<Edge>, kind: JoinKind,
                   visited0: set<string>, used0: set<string>, q0: string,
                   ghost head: string, ghost attached0: seq<Attach>)
    returns (visited: set<string>, used: set<string>, q: string, changed: bool, ghost attached: seq<Attach>)
    requires q0 == head + Clauses(kind, attached0)
    ensures JoinState(visited, used, attached) == Pass(nodes, edges, JoinState(visited0, used0, attached0))
    ensures changed <==> |attached| != |attached0|
    ensures q == head + Clauses(kind, attached)
  {
    visited, used, q, changed, attached := visited0, used0, q0, false, attached0;
    ghost var start := JoinState(visited0, used0, attached0);
    for k := 0 to |edges|
      invariant JoinState(visited, used, attached) == Pass(nodes, edges[..k], start)
      invariant |attached| >= |attached0| && (changed <==> |attached| != |attached0|)
      invariant q == head + Clauses(kind, attached)
    {
      var edge := edges[k];
      PassSnoc(nodes, edges, k, start);
      VisitCases(nodes, JoinState(visited, used, attached), edge);
      if edge.id !in used {
        var sourceVisited := edge.source in visited;
        var targetVisited := edge.target in visited;
        var targetNode := FindNode(nodes, edge.target);
        var sourceNode := FindNode(nodes, edge.source);
        if sourceVisited && !targetVisited && targetNode.Some? && sourceNode.Some? {
          var a := Attach(edge, sourceNode.value, targetNode.value,
                          HandleColumn(edge.sourceHandle), HandleColumn(edge.targetHandle));
          ClausesSnoc(head, kind, attached, a);
          q := q + Clause(kind, a);
          attached := attached + [a];
          visited := visited + {edge.target};
          used := used + {edge.id};
          changed := true;
        } else if !sourceVisited && targetVisited && targetNode.Some? && sourceNode.Some? {
          var a := Attach(edge, targetNode.value, sourceNode.value,
                          HandleColumn(edge.targetHandle), HandleColumn(edge.sourceHandle));
          ClausesSnoc(head, kind, attached, a);
          q := q + Clause(kind, a);
          attached := attached + [a];
          visited := visited + {edge.source};
          used := used + {edge.id};
          changed := true;
        }
      }
    }
    assert edges[..|edges|] == edges;
  }

  /** The three outcomes of one edge step: attach the target, attach the source, or nothing. */
  lemma VisitCases(nodes: seq<Node>, st: JoinState, e: Edge)
    ensures var t, s := FindNode(nodes, e.target), FindNode(nodes, e.source);
      var sv, tv := e.source in st.visited, e.target in st.visited;
      && (e.id !in st.used && sv && !tv && t.Some? && s.Some? ==>
           Visit(nodes, st, e) == JoinState(st.visited + {e.target}, st.used + {e.id},
             st.attached + [Attach(e, s.value, t.value, HandleColumn(e.sourceHandle), HandleColumn(e.targetHandle))]))
      && (e.id !in st.used && !sv && tv && t.Some? && s.Some? ==>
           Visit(nodes, st, e) == JoinState(st.visited + {e.source}, st.used + {e.id},
             st.attached + [Attach(e, t.value, s.value, HandleColumn(e.targetHandle), HandleColumn(e.sourceHandle))]))
      && (!(e.id !in st.used && sv != tv && t.Some? && s.Some?) ==> Visit(nodes, st, e) == st)
  {
  }

  lemma PassSnoc(nodes: seq<Node>, edges: seq<Edge>, k: nat, st: JoinState)
    requires k < |edges|
    ensures Pass(nodes, edges[..k + 1], st) == Visit(nodes, Pass(nodes, edges[..k], st), edges[k])
  {
    assert edges[..k + 1][..k] == edges[..k];
  }

  lemma ClausesSnoc(head: string, kind: JoinKind, attached: seq<Attach>, a: Attach)
    ensures head + Clauses(kind, attached + [a]) == head + Clauses(kind, attached) + Clause(kind, a)
  {
    ClausesAppendOne(kind, attached, a);
    AppendAssoc(head, Clauses(kind, attached), Clause(kind, a));
  }

  lemma ClausesAppendOne(kind: JoinKind, attached: seq<Attach>, a: Attach)
    ensures Clauses(kind, attached + [a]) == Clauses(kind, attached) + Clause(kind, a)
  {
    assert (attached + [a])[..|attached|] == attached;
  }

  lemma AppendAssoc(x: string, y: string, z: string)
    ensures x + (y + z) == x + y + z
  {
  }

  /** The trailing `nodes.forEach`: each node still unvisited is appended as a comma join. */
  method AppendCrossJoins(nodes: seq<Node>, visited0: set<string>, q0: string) returns (q: string)
    ensures q == q0 + CrossList(CrossJoined(nodes, visited0))
  {
    q := q0;
    var visited := visited0;
    ghost var crossed: seq<Node> := [];
    for i := 0 to |nodes|
      invariant crossed + CrossJoined(nodes[i..], visited) == CrossJoined(nodes, visited0)
      invariant q == q0 + CrossList(crossed)
    {
      var node := nodes[i];
      CrossJoinedStep(nodes, i, visited, crossed);
      if node.id !in visited {
        CrossListAppend(crossed, node);
        q := q + CrossItem(node);
        crossed := crossed + [node];
        visited := visited + {node.id};
      }
    }
    assert nodes[|nodes|..] == [];
    assert crossed + [] == crossed;
  }

  /** One step of the trailing loop, seen from the nodes still to be scanned. */
  lemma CrossJoinedStep(nodes: seq<Node>, i: nat, visited: set<string>, crossed: seq<Node>)
    requires i < |nodes|
    ensures nodes[i].id in visited ==>
      crossed + CrossJoined(nodes[i..], visited) == crossed + CrossJoined(nodes[i + 1..], visited)
    ensures nodes[i].id !in visited ==>
      crossed + CrossJoined(nodes[i..], visited) == (crossed + [nodes[i]]) + CrossJoined(nodes[i + 1..], visited + {nodes[i].id})
  {
    assert nodes[i..][1..] == nodes[i + 1..];
  }

  lemma {:induction false} CrossListAppend(ns: seq<Node>, n: Node)
    ensures CrossList(ns + [n]) == CrossList(ns) + CrossItem(n)
  {
    if ns != [] {
      assert (ns + [n])[1..] == ns[1..] + [n];
      CrossListAppend(ns[1..], n);
    }
  }

  // ------------------------------------------------------------ the canvas

  /** The builder's React state: the node and edge lists and the table picker. */
  class Canvas {
    var nodes: seq<Node>
    var edges: seq<Edge>
    var tableToAdd: string
    var joinKind: JoinKind

    ghost predicate Valid()
      reads this
    {
      EdgesLive(nodes, edges)
    }

    constructor ()
      ensures Valid() && nodes == [] && edges == [] && tableToAdd == "" && joinKind == Inner
    {
      nodes, edges, tableToAdd, joinKind := [], [], "", Inner;
    }

    /** `handleAddTable`: appends a fresh node for the picked table and clears the picker. */
    method AddTable(schema: Schema, stamp: nat)
      requires Valid()
      modifies this
      ensures Valid() && edges == old(edges) && joinKind == old(joinKind)
      ensures NewNode(schema, old(tableToAdd), stamp).None? ==> nodes == old(nodes) && tableToAdd == old(tableToAdd)
      ensures NewNode(schema, old(tableToAdd), stamp).Some? ==>
        nodes == old(nodes) + [NewNode(schema, old(tableToAdd), stamp).value] && tableToAdd == ""
    {
      var node := NewNode(schema, tableToAdd, stamp);
      if node.Some? {
        nodes := nodes + [node.value];
        tableToAdd := "";
      }
    }

    method ToggleColumn(nodeId: string, col: string)
      requires Valid()
      modifies this
      ensures Valid() && edges == old(edges) && tableToAdd == old(tableToAdd) && joinKind == old(joinKind)
      ensures nodes == ToggledIn(old(nodes), nodeId, col)
    {
      nodes := ToggledIn(nodes, nodeId, col);
      assert NodeIds(nodes) == NodeIds(old(nodes)) by {
        forall n | n in old(nodes) ensures n.id in NodeIds(nodes) {
          var i :| 0 <= i < |old(nodes)| && old(nodes)[i] == n;
          assert nodes[i].id == n.id;
        }
      }
    }

    /** `handleDeleteNode`: the node goes, and so does every edge touching it. */
    method DeleteNode(nodeId: string)
      requires Valid()
      modifies this
      ensures Valid() && tableToAdd == old(tableToAdd) && joinKind == old(joinKind)
      ensures nodes == RemoveNode(old(nodes), nodeId) && edges == RemoveTouching(old(edges), nodeId)
      ensures nodeId !in NodeIds(nodes) && forall e | e in edges :: e.source != nodeId && e.target != nodeId
    {
      DeleteKeepsEdgesLive(nodes, edges, nodeId);
      nodes, edges := RemoveNode(nodes, nodeId), RemoveTouching(edges, nodeId);
    }

    /**
     * `onConnect`: reactflow's `addEdge` on a connection drawn from a handle of one node on the
     * canvas to a handle of another (reactflow offers only the handles of rendered nodes).
     */
    method Connect(source: string, target: string, sourceHandle: Option<string>, targetHandle: Option<string>)
      requires Valid() && source in NodeIds(nodes) && target in NodeIds(nodes)
      modifies this
      ensures Valid() && nodes == old(nodes) && tableToAdd == old(tableToAdd) && joinKind == old(joinKind)
      ensures edges == AddEdge(old(edges), source, target, sourceHandle, targetHandle)
    {
      AddEdgeKeepsEdgesLive(nodes, edges, source, target, sourceHandle, targetHandle);
      edges := AddEdge(edges, source, target, sourceHandle, targetHandle);
    }

    /** `clearCanvas` */
    method Clear()
      modifies this
      ensures Valid() && nodes == [] && edges == []
      ensures tableToAdd == old(tableToAdd) && joinKind == old(joinKind)
    {
      nodes, edges := [], [];
    }

    /** The "Generate SQL" button. */
    method Generate() returns (query: Option<string>)
      ensures nodes == [] <==> query.None?
      ensures nodes != [] ==> query == Some(Compile(nodes, edges, joinKind))
    {
      query := GenerateSql(nodes, edges, joinKind);
    }
  }
}
