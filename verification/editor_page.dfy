/**
 * The editor page (src/app/page.tsx): which text the Run button executes, the editor tabs, and
 * the execution history. The Monaco editor is reduced to its text, the cursor's character
 * offset and the selected text.
 */
module EditorPage {
  import opened Wrappers
  import opened JsStrings
  import opened JsArrays

  // ------------------------------------------------------- statement at cursor

  /**
   * The chunk chosen among the `;`-separated parts when the cursor is `offset` characters past
   * the start of the first part: the first part whose span, its `;` included, reaches the cursor.
   */
  function ChunkAt(parts: seq<string>, offset: int): Option<string>
  {
    if parts == [] then None
    else if |parts[0]| + 1 >= offset then Some(parts[0])
    else ChunkAt(parts[1..], offset - (|parts[0]| + 1))
  }

  /** `getStatementAtCursor`'s result: the chosen chunk trimmed, or the whole text trimmed if none is. */
  function StatementAtCursor(text: string, offset: nat): string {
    match ChunkAt(Split(text, ';'), offset)
    case Some(chunk) => Trim(chunk)
    case None => Trim(text)
  }

  method GetStatementAtCursor(text: string, offset: nat) returns (statement: string)
    ensures statement == StatementAtCursor(text, offset)
  {
    var statements := Split(text, ';');
    var currentOffset := 0;
    for i := 0 to |statements|
      invariant ChunkAt(statements, offset) == ChunkAt(statements[i..], offset - currentOffset)
    {
      var stmt := statements[i];
      var stmtLen := |stmt| + 1;
      assert statements[i..][1..] == statements[i + 1..];
      if currentOffset + stmtLen >= offset {
        return Trim(stmt);
      }
      currentOffset := currentOffset + stmtLen;
    }
    statement := Trim(text);
  }

  lemma ChunkAtCons(first: string, parts: seq<string>, offset: int)
    ensures ChunkAt([first] + parts, offset) ==
      if |first| + 1 >= offset then Some(first) else ChunkAt(parts, offset - (|first| + 1))
  {
    assert ([first] + parts)[1..] == parts;
  }

  /**
   * `text[lo..hi]` lies between two consecutive semicolons (or an end of the text), and the
   * cursor lies after the opening `;` and at most one past the closing one.
   */
  ghost predicate SemicolonSpan(text: string, offset: nat, lo: nat, hi: nat) {
    && lo <= hi <= |text| && ';' !in text[lo..hi]
    && (lo == 0 || text[lo - 1] == ';')
    && (hi == |text| || text[hi] == ';')
    && (lo == 0 || lo < offset) && offset <= hi + 1
  }

  /**
   * For a cursor inside the text a chunk is always chosen: the text of a semicolon span around
   * the cursor.
   */
  lemma ChunkCovers(text: string, offset: nat) returns (lo: nat, hi: nat)
    requires offset <= |text|
    ensures SemicolonSpan(text, offset, lo, hi)
    ensures lo <= hi <= |text| && ChunkAt(Split(text, ';'), offset) == Some(text[lo..hi])
  {
    JoinSplit(text, ';');
    SplitPartsLackSep(text, ';');
    lo, hi := ChunkInParts(Split(text, ';'), offset);
  }

  /** `ChunkCovers` for any `;`-free parts, about the text they join to. */
  lemma {:induction false} ChunkInParts(parts: seq<string>, offset: nat) returns (lo: nat, hi: nat)
    requires parts != [] && forall k | 0 <= k < |parts| :: ';' !in parts[k]
    requires offset <= |Join(parts, ";")|
    ensures SemicolonSpan(Join(parts, ";"), offset, lo, hi)
    ensures lo <= hi <= |Join(parts, ";")| && ChunkAt(parts, offset) == Some(Join(parts, ";")[lo..hi])
  {
    if |parts| == 1 {
      lo, hi := 0, |parts[0]|;
      ChunkSingle(parts, offset);
    } else if |parts[0]| + 1 >= offset {
      lo, hi := 0, |parts[0]|;
      ChunkFirstPart(parts, offset);
    } else {
      var lo', hi' := ChunkInParts(parts[1..], offset - (|parts[0]| + 1));
      lo, hi := |parts[0]| + 1 + lo', |parts[0]| + 1 + hi';
      ChunkLaterPart(parts, offset, lo', hi');
    }
  }

  /** A single part is the whole text, chosen for any cursor inside it. */
  lemma ChunkSingle(parts: seq<string>, offset: nat)
    requires |parts| == 1 && ';' !in parts[0] && offset <= |Join(parts, ";")|
    ensures SemicolonSpan(Join(parts, ";"), offset, 0, |parts[0]|)
    ensures |parts[0]| <= |Join(parts, ";")| && ChunkAt(parts, offset) == Some(Join(parts, ";")[0..|parts[0]|])
  {
    assert Join(parts, ";") == parts[0] == parts[0][0..|parts[0]|];
  }

  /** A cursor within the first part, or just after its `;`, chooses that part. */
  lemma ChunkFirstPart(parts: seq<string>, offset: nat)
    requires |parts| > 1 && ';' !in parts[0] && |parts[0]| + 1 >= offset
    ensures SemicolonSpan(Join(parts, ";"), offset, 0, |parts[0]|)
    ensures |parts[0]| <= |Join(parts, ";")| && ChunkAt(parts, offset) == Some(Join(parts, ";")[0..|parts[0]|])
  {
    var i := JoinFirst(parts);
    ChunkFirst(Join(parts, ";"), i, offset, parts[1..]);
  }

  /** A chunk of the later parts is a chunk of the whole text, shifted past the first part and its `;`. */
  lemma ChunkLaterPart(parts: seq<string>, offset: nat, lo': nat, hi': nat)
    requires |parts| > 1 && |parts[0]| + 1 < offset
    requires SemicolonSpan(Join(parts[1..], ";"), offset - (|parts[0]| + 1), lo', hi')
    requires hi' <= |Join(parts[1..], ";")|
    requires ChunkAt(parts[1..], offset - (|parts[0]| + 1)) == Some(Join(parts[1..], ";")[lo'..hi'])
    ensures var lo, hi := |parts[0]| + 1 + lo', |parts[0]| + 1 + hi';
      && SemicolonSpan(Join(parts, ";"), offset, lo, hi)
      && hi <= |Join(parts, ";")| && ChunkAt(parts, offset) == Some(Join(parts, ";")[lo..hi])
  {
    var i := JoinFirst(parts);
    LiftChunk(Join(parts, ";"), i, offset, lo', hi', parts[1..]);
  }

  /** Joined parts begin with the first part and its `;`, followed by the later parts joined. */
  lemma JoinFirst(parts: seq<string>) returns (i: nat)
    requires |parts| > 1
    ensures var text := Join(parts, ";");
      && i == |parts[0]| < |text| && text[..i] == parts[0] && text[i] == ';'
      && text[i + 1..] == Join(parts[1..], ";") && parts == [text[..i]] + parts[1..]
  {
    i := |parts[0]|;
    var text := Join(parts, ";");
    assert text == parts[0] + ";" + Join(parts[1..], ";");
    assert text[..i] == parts[0];
  }

  /** A cursor within the first part, or just after its `;`, chooses that part. */
  lemma ChunkFirst(text: string, i: nat, offset: nat, later: seq<string>)
    requires i < |text| && text[i] == ';' && ';' !in text[..i] && i + 1 >= offset
    ensures SemicolonSpan(text, offset, 0, i)
    ensures ChunkAt([text[..i]] + later, offset) == Some(text[0..i])
  {
    assert text[0..i] == text[..i];
    ChunkAtCons(text[..i], later, offset);
  }

  /**
   * A chunk of the text after the first `;`, chosen from the later parts, is a chunk of the
   * whole text shifted past that `;`.
   */
  lemma LiftChunk(text: string, i: nat, offset: nat, lo': nat, hi': nat, later: seq<string>)
    requires i < |text| && text[i] == ';' && i + 1 < offset
    requires SemicolonSpan(text[i + 1..], offset - (i + 1), lo', hi')
    requires ChunkAt(later, offset - (i + 1)) == Some(text[i + 1..][lo'..hi'])
    ensures SemicolonSpan(text, offset, i + 1 + lo', i + 1 + hi')
    ensures ChunkAt([text[..i]] + later, offset) == Some(text[i + 1 + lo'..i + 1 + hi'])
  {
    var rest := text[i + 1..];
    var lo, hi := i + 1 + lo', i + 1 + hi';
    SliceOfSuffix(text, i + 1, lo', hi');
    if lo' > 0 {
      assert text[lo - 1] == rest[lo' - 1];
    }
    if hi' < |rest| {
      assert text[hi] == rest[hi'];
    }
    ChunkAtCons(text[..i], later, offset);
  }

  lemma SliceOfSuffix<X>(s: seq<X>, d: nat, a: nat, b: nat)
    requires d <= |s| && a <= b <= |s| - d
    ensures s[d..][a..b] == s[d + a..d + b]
  {
  }

  /** For a cursor inside the text, the statement run is that chunk, so the fallback is never used. */
  lemma StatementCovers(text: string, offset: nat) returns (lo: nat, hi: nat)
    requires offset <= |text|
    ensures ChunkAt(Split(text, ';'), offset).Some?
    ensures lo <= hi <= |text| && ';' !in text[lo..hi]
    ensures lo == 0 || text[lo - 1] == ';'
    ensures hi == |text| || text[hi] == ';'
    ensures (lo == 0 || lo < offset) && offset <= hi + 1
    ensures StatementAtCursor(text, offset) == Trim(text[lo..hi])
  {
    lo, hi := ChunkCovers(text, offset);
  }

  /** A part of the text without `;` keeps none after trimming. */
  lemma TrimKeepsOut(s: string, c: char)
    requires c !in s
    ensures c !in Trim(s)
  {
    var r := Trim(s);
    var l := LeadingSpaces(s);
    forall k | 0 <= k < |r|
      ensures r[k] != c
    {
      assert r[k] == s[l + k];
    }
  }

  /** For a cursor inside the text the statement is trimmed and holds no `;`, so the fallback is never used. */
  lemma StatementShape(text: string, offset: nat)
    requires offset <= |text|
    ensures IsTrimmed(StatementAtCursor(text, offset)) && ';' !in StatementAtCursor(text, offset)
  {
    var lo, hi := ChunkCovers(text, offset);
    TrimKeepsOut(text[lo..hi], ';');
  }

  /** A cursor just after a `;` runs the statement that `;` ends. */
  lemma CursorAfterSemicolon(first: string, rest: string)
    requires ';' !in first
    ensures StatementAtCursor(first + ";" + rest, |first| + 1) == Trim(first)
  {
    var text := first + ";" + rest;
    assert text[|first|] == ';';
    assert text[..|first|] == first;
    var i := FirstIndexOf(text, ';');
    assert text[..i] == first;
  }

  /** The editor as the Run button sees it. */
  datatype EditorState = EditorState(text: string, offset: nat, selection: string)

  /**
   * `handleExecute` up to the call of `executeQuery`: the text it runs, or `None` when it
   * alerts 'No query to execute'. Without a mounted editor the active tab's content is run.
   */
  method ChooseQuery(editor: Option<EditorState>, activeContent: Option<string>) returns (toRun: Option<string>)
    ensures toRun.Some? ==> !IsBlank(toRun.value)
    ensures editor.Some? && !IsBlank(editor.value.selection) ==> toRun == Some(editor.value.selection)
    ensures editor.Some? && IsBlank(editor.value.selection) ==>
      var st := StatementAtCursor(editor.value.text, editor.value.offset);
      toRun == (if IsBlank(st) then None else Some(st))
    ensures editor.None? ==>
      var content := activeContent.GetOr("");
      toRun == (if IsBlank(content) then None else Some(content))
  {
    var queryToRun := "";
    if editor.Some? {
      var selectedText := editor.value.selection;
      if selectedText != "" && |Trim(selectedText)| > 0 {
        queryToRun := selectedText;
      } else {
        queryToRun := GetStatementAtCursor(editor.value.text, editor.value.offset);
      }
    } else {
      queryToRun := activeContent.GetOr("");
    }
    if Trim(queryToRun) == "" {
      return None;
    }
    toRun := Some(queryToRun);
  }

  // ------------------------------------------------------------- tabs, history

  datatype Tab = Tab(id: string, name: string, content: string)

  function TabIds(tabs: seq<Tab>): (ids: seq<string>)
    ensures |ids| == |tabs| && forall i | 0 <= i < |tabs| :: ids[i] == tabs[i].id
  {
    seq(|tabs|, i requires 0 <= i < |tabs| => tabs[i].id)
  }

  predicate UniqueIds(tabs: seq<Tab>) {
    forall i, j | 0 <= i < j < |tabs| :: tabs[i].id != tabs[j].id
  }

  /** `tabs.filter(t => t.id !== id)` */
  function WithoutTab(tabs: seq<Tab>, id: string): (r: seq<Tab>)
    ensures r == Filter((t: Tab) => t.id != id, tabs)
    ensures |r| <= |tabs|
  {
    if tabs == [] then []
    else if tabs[0].id == id then WithoutTab(tabs[1..], id)
    else [tabs[0]] + WithoutTab(tabs[1..], id)
  }

  /** The filter keeps exactly the tabs with another id. */
  lemma {:induction false} WithoutTabMembers(tabs: seq<Tab>, id: string)
    ensures forall t :: t in WithoutTab(tabs, id) <==> t in tabs && t.id != id
  {
    if tabs != [] {
      WithoutTabMembers(tabs[1..], id);
      assert tabs == [tabs[0]] + tabs[1..];
    }
  }

  /** With distinct ids the filter keeps them distinct. */
  lemma {:induction false} WithoutKeepsUnique(tabs: seq<Tab>, id: string)
    requires UniqueIds(tabs)
    ensures UniqueIds(WithoutTab(tabs, id))
  {
    if tabs != [] {
      var rest := WithoutTab(tabs[1..], id);
      WithoutKeepsUnique(tabs[1..], id);
      WithoutTabMembers(tabs[1..], id);
      if tabs[0].id != id {
        forall j | 0 <= j < |rest|
          ensures rest[j].id != tabs[0].id
        {
          assert rest[j] in tabs[1..];
        }
        assert WithoutTab(tabs, id) == [tabs[0]] + rest;
      }
    }
  }

  /** With distinct ids the filter removes at most one tab. */
  lemma {:induction false} WithoutRemovesOne(tabs: seq<Tab>, id: string)
    requires UniqueIds(tabs)
    ensures |WithoutTab(tabs, id)| >= |tabs| - 1
  {
    if tabs != [] {
      if tabs[0].id == id {
        WithoutAbsentTab(tabs[1..], id);
      } else {
        WithoutRemovesOne(tabs[1..], id);
      }
    }
  }

  /** Removing an id no tab has keeps every tab, in order. */
  lemma {:induction false} WithoutAbsentTab(tabs: seq<Tab>, id: string)
    requires forall k | 0 <= k < |tabs| :: tabs[k].id != id
    ensures WithoutTab(tabs, id) == tabs
  {
    if tabs != [] {
      WithoutAbsentTab(tabs[1..], id);
    }
  }

  /** An id other than the removed one that a tab had is still some tab's id. */
  lemma ActiveSurvives(tabs: seq<Tab>, id: string, active: string)
    requires active in TabIds(tabs) && active != id
    ensures active in TabIds(WithoutTab(tabs, id))
  {
    var k :| 0 <= k < |tabs| && TabIds(tabs)[k] == active;
    var r := WithoutTab(tabs, id);
    WithoutTabMembers(tabs, id);
    assert tabs[k] in r;
    var j :| 0 <= j < |r| && r[j] == tabs[k];
    assert TabIds(r)[j] == active;
  }

  /** `prev.map(t => t.id === activeTabId ? { ...t, content } : t)` */
  function WithContent(tabs: seq<Tab>, activeId: string, content: string): (r: seq<Tab>)
    ensures |r| == |tabs|
    ensures forall i | 0 <= i < |tabs| :: r[i].id == tabs[i].id && r[i].name == tabs[i].name
    ensures forall i | 0 <= i < |tabs| :: r[i].content == (if tabs[i].id == activeId then content else tabs[i].content)
  {
    seq(|tabs|, i requires 0 <= i < |tabs| =>
      if tabs[i].id == activeId then tabs[i].(content := content) else tabs[i])
  }

  /** `rows` as `addToHistory` receives it: an array, an object that may carry `affectedRows`, or neither. */
  datatype QueryRows = RowArray(count: nat) | Packet(affectedRows: Option<int>) | Other

  /** `rowsAffected`: the array length, else the `affectedRows` field, else 0. */
  function RowsAffected(rows: QueryRows): (n: int)
    ensures rows.RowArray? ==> n == rows.count
    ensures rows.Packet? && rows.affectedRows.Some? ==> n == rows.affectedRows.value
    ensures rows.Other? || rows == Packet(None) ==> n == 0
  {
    match rows
    case RowArray(count) => count
    case Packet(affected) => affected.GetOr(0)
    case Other => 0
  }

  datatype RunStatus = Succeeded | Failed

  datatype HistoryEntry = HistoryEntry(id: string, query: string, timestamp: nat, status: RunStatus,
                                       duration: int, rowsAffected: int, message: Option<string>)

  /** Closing one of several tabs leaves distinct ids and a tab to activate: the old active one, or the last. */
  lemma CloseKeepsValid(tabs: seq<Tab>, active: string, id: string)
    requires |tabs| > 1 && UniqueIds(tabs) && active in TabIds(tabs)
    ensures var r := WithoutTab(tabs, id);
      && |r| >= 1 && UniqueIds(r)
      && r[|r| - 1].id in TabIds(r)
      && (active != id ==> active in TabIds(r))
  {
    WithoutKeepsUnique(tabs, id);
    WithoutRemovesOne(tabs, id);
    var r := WithoutTab(tabs, id);
    assert TabIds(r)[|r| - 1] == r[|r| - 1].id;
    if active != id {
      ActiveSurvives(tabs, id, active);
    }
  }

  class Workspace {
    var tabs: seq<Tab>
    var activeTabId: string
    var history: seq<HistoryEntry>

    /** At least one tab, distinct ids, and the active id is one of them. */
    ghost predicate Valid()
      reads this
    {
      |tabs| >= 1 && UniqueIds(tabs) && activeTabId in TabIds(tabs)
    }

    constructor ()
      ensures Valid()
      ensures tabs == [Tab("1", "Query 1", "SELECT * FROM users LIMIT 10;")] && activeTabId == "1"
      ensures history == []
    {
      tabs := [Tab("1", "Query 1", "SELECT * FROM users LIMIT 10;")];
      activeTabId := "1";
      history := [];
      new;
      assert TabIds(tabs)[0] == "1";
    }

    /** `addTab`; the clock reading `now` is taken to give an id no tab has. */
    method AddTab(now: nat)
      requires Valid() && NatToString(now) !in TabIds(tabs)
      modifies this
      ensures Valid()
      ensures tabs == old(tabs) + [Tab(NatToString(now), "Query " + NatToString(|old(tabs)| + 1), "")]
      ensures activeTabId == NatToString(now) && history == old(history)
    {
      var newId := NatToString(now);
      tabs := tabs + [Tab(newId, "Query " + NatToString(|tabs| + 1), "")];
      activeTabId := newId;
      assert TabIds(tabs)[|tabs| - 1] == newId;
      assert newId in TabIds(tabs);
      forall i | 0 <= i < |tabs| - 1
        ensures tabs[i].id != newId
      {
        assert TabIds(old(tabs))[i] == tabs[i].id;
      }
    }

    /** `closeTab`: the last tab is never closed; closing the active tab activates the last remaining one. */
    method CloseTab(id: string)
      requires Valid()
      modifies this
      ensures Valid()
      ensures |old(tabs)| == 1 ==> tabs == old(tabs) && activeTabId == old(activeTabId)
      ensures |old(tabs)| > 1 ==> tabs == WithoutTab(old(tabs), id)
      ensures |old(tabs)| > 1 && old(activeTabId) == id ==> activeTabId == tabs[|tabs| - 1].id
      ensures old(activeTabId) != id ==> activeTabId == old(activeTabId)
      ensures history == old(history)
    {
      if |tabs| > 1 {
        CloseKeepsValid(tabs, activeTabId, id);
        var newTabs := WithoutTab(tabs, id);
        if activeTabId == id {
          tabs, activeTabId := newTabs, newTabs[|newTabs| - 1].id;
        } else {
          tabs := newTabs;
        }
      }
    }

    /** `setQuery`: only the active tab's content changes. */
    method SetQuery(newContent: string)
      requires Valid()
      modifies this
      ensures Valid()
      ensures tabs == WithContent(old(tabs), activeTabId, newContent)
      ensures activeTabId == old(activeTabId) && history == old(history)
    {
      ghost var before := tabs;
      tabs := WithContent(tabs, activeTabId, newContent);
      assert TabIds(tabs) == TabIds(before);
    }

    /**
     * `addToHistory`; the id (`Date.now().toString()`) and the timestamp (`new Date()`) are two
     * clock readings, `idStamp` and `now`.
     */
    method AddToHistory(queryText: string, status: RunStatus, duration: int, rows: QueryRows,
                        errorMsg: Option<string>, idStamp: nat, now: nat)
      modifies this
      ensures history == [HistoryEntry(NatToString(idStamp), queryText, now, status, duration, RowsAffected(rows), errorMsg)] + old(history)
      ensures tabs == old(tabs) && activeTabId == old(activeTabId)
    {
      var rowsAffected := 0;
      if rows.RowArray? {
        rowsAffected := rows.count;
      } else if rows.Packet? && rows.affectedRows.Some? {
        rowsAffected := rows.affectedRows.value;
      }
      history := [HistoryEntry(NatToString(idStamp), queryText, now, status, duration, rowsAffected, errorMsg)] + history;
    }
  }
}
