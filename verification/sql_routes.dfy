/**
 * The two server routes that run SQL text: the query route (src/app/api/query/route.ts) and the
 * file-import route (src/app/api/import/route.ts). Both reject missing input with status 400 and
 * otherwise trim the text and strip trailing semicolons before handing it to the driver, since
 * a trailing `;` with multiple statements enabled makes the driver report an empty query.
 */
module SqlRoutes {
  import opened Wrappers
  import opened JsStrings

  /** What a route does with a request: answer 400 with a message, or run `sql` on the server. */
  datatype Outcome = BadRequest(status: nat, message: string) | Run(sql: string)

  /** The strip loop's effect on already trimmed text: drop a `;`, trim, and repeat. */
  function DropTrailing(s: string): (r: string)
    ensures |r| <= |s| && !EndsWith(r, ";")
    decreases |s|
  {
    if EndsWith(s, ";") then DropTrailing(Trim(s[..|s| - 1])) else s
  }

  /** The text a route sends to the driver. */
  function Stripped(query: string): string {
    DropTrailing(Trim(query))
  }

  /** `let sql = query.trim(); while (sql.endsWith(';')) sql = sql.slice(0, -1).trim();` */
  method StripTrailingSemicolons(query: string) returns (sql: string)
    ensures sql == Stripped(query)
  {
    sql := Trim(query);
    while EndsWith(sql, ";")
      invariant DropTrailing(sql) == Stripped(query)
      decreases |sql|
    {
      sql := Trim(sql[..|sql| - 1]);
    }
  }

  predicate IsSemicolonOrSpace(c: char) {
    c == ';' || IsSpace(c)
  }

  /** Trimming text that starts with a non-space only cuts its tail, and that tail is blank. */
  lemma TrimUnled(s: string)
    requires s == [] || !IsSpace(s[0])
    ensures |Trim(s)| <= |s| && Trim(s) == s[..|Trim(s)|] && IsBlank(s[|Trim(s)|..])
  {
    assert LeadingSpaces(s) == 0;
  }

  /** On trimmed text the loop keeps a prefix, the result is trimmed, and only `;` and white space go. */
  lemma {:induction false} DropTrailingPrefix(s: string)
    requires IsTrimmed(s)
    ensures var r := DropTrailing(s);
      && r == s[..|r|] && IsTrimmed(r)
      && forall k | |r| <= k < |s| :: IsSemicolonOrSpace(s[k])
    decreases |s|
  {
    if EndsWith(s, ";") {
      var u := s[..|s| - 1];
      var t := Trim(u);
      TrimUnled(u);
      DropTrailingPrefix(t);
      DropStep(s, u, t, DropTrailing(t));
    }
  }

  /** What one pass cuts from trimmed `t` adds to the `;` and blank tail already cut from `s`. */
  lemma DropStep(s: string, u: string, t: string, r: string)
    requires |s| > 0 && s[|s| - 1] == ';' && u == s[..|s| - 1]
    requires |t| <= |u| && t == u[..|t|] && IsBlank(u[|t|..])
    requires |r| <= |t| && r == t[..|r|] && forall k | |r| <= k < |t| :: IsSemicolonOrSpace(t[k])
    ensures r == s[..|r|] && forall k | |r| <= k < |s| :: IsSemicolonOrSpace(s[k])
  {
    forall k | |r| <= k < |s|
      ensures IsSemicolonOrSpace(s[k])
    {
      if k < |t| {
        assert s[k] == t[k];
      } else if k < |s| - 1 {
        assert s[k] == u[|t|..][k - |t|];
      }
    }
  }


  /** The stripped text is trimmed, never ends with `;`, is a prefix of the trimmed input, and only `;` and white space were removed after it, so interior semicolons survive. */
  lemma StrippedShape(query: string)
    ensures var t, r := Trim(query), Stripped(query);
      && IsTrimmed(r) && !EndsWith(r, ";")
      && |r| <= |t| && r == t[..|r|]
      && forall k | |r| <= k < |t| :: IsSemicolonOrSpace(t[k])
  {
    DropTrailingPrefix(Trim(query));
  }

  /** Stripping twice strips nothing more. */
  lemma StripIdempotent(query: string)
    ensures Stripped(Stripped(query)) == Stripped(query)
  {
    var r := Stripped(query);
    StrippedShape(query);
    TrimOfTrimmed(r);
  }

  /** On trimmed text made only of `;` and white space, the loop removes everything. */
  lemma {:induction false} DropTrailingAll(t: string)
    requires IsTrimmed(t)
    requires forall k | 0 <= k < |t| :: IsSemicolonOrSpace(t[k])
    ensures DropTrailing(t) == ""
    decreases |t|
  {
    if t != [] {
      assert t[|t| - 1..] == [t[|t| - 1]];
      assert EndsWith(t, ";");
      var u := t[..|t| - 1];
      var v := Trim(u);
      assert forall k | 0 <= k < |v| :: v[k] == u[LeadingSpaces(u) + k];
      DropTrailingAll(v);
    }
  }

  /** Text made only of `;` and white space strips to nothing. */
  lemma SemicolonsOnlyStripToEmpty(s: string)
    requires forall k | 0 <= k < |s| :: IsSemicolonOrSpace(s[k])
    ensures Stripped(s) == ""
  {
    var t := Trim(s);
    assert forall k | 0 <= k < |t| :: t[k] == s[LeadingSpaces(s) + k];
    DropTrailingAll(t);
  }

  /** The query route: `if (!query)` answers 400, otherwise the stripped text is run. */
  method HandleQuery(query: Option<string>) returns (out: Outcome)
    ensures (query.None? || query.value == "") <==> out == BadRequest(400, "Query is required")
    ensures query.Some? && query.value != "" ==> out == Run(Stripped(query.value))
  {
    if query.None? || query.value == "" {
      return BadRequest(400, "Query is required");
    }
    var sql := StripTrailingSemicolons(query.value);
    out := Run(sql);
  }

  /** The import route: no file, or only white space in it, answers 400; otherwise its stripped text is run. */
  method HandleImport(file: Option<string>) returns (out: Outcome)
    ensures file.None? <==> out == BadRequest(400, "No file uploaded")
    ensures file.Some? ==> (IsBlank(file.value) <==> out == BadRequest(400, "File is empty"))
    ensures file.Some? && !IsBlank(file.value) ==> out == Run(Stripped(file.value))
  {
    if file.None? {
      return BadRequest(400, "No file uploaded");
    }
    var content := file.value;
    if Trim(content) == "" {
      return BadRequest(400, "File is empty");
    }
    var sql := StripTrailingSemicolons(content);
    out := Run(sql);
  }

  /** A file of only semicolons passes the emptiness check and runs the empty statement. */
  lemma SemicolonsOnlyImportRunsEmpty(content: string)
    requires ';' in content && forall k | 0 <= k < |content| :: IsSemicolonOrSpace(content[k])
    ensures !IsBlank(content) && Stripped(content) == ""
  {
    var k :| 0 <= k < |content| && content[k] == ';';
    assert !IsSpace(content[k]);
    SemicolonsOnlyStripToEmpty(content);
  }
}
