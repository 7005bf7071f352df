/**
 * The AI route (src/app/api/ai/route.ts): the API-key guard, the mode default, the bounded
 * retry policy around the model call, the cleaning of code fences from the answer and the
 * fallback when the answer is not JSON. The model call itself is a parameter: `respond(k)` is
 * the outcome of the k-th call of `generateContent`, counting from 0.
 */
module AiRoute {
  import opened Wrappers
  import opened JsStrings

  /** What one `generateContent` call does: answer with text, or throw an error. */
  datatype CallOutcome = Answered(text: string) | Threw(message: Option<string>, status: Option<int>)

  const MaxRetries: nat := 3

  /** A rate-limit error: the message mentions 429 or the status is 429. */
  predicate Is429(e: CallOutcome) {
    e.Threw? && ((e.message.Some? && Contains(e.message.value, "429")) || e.status == Some(429))
  }

  /** `2 ** n` */
  function Pow2(n: nat): nat {
    if n == 0 then 1 else 2 * Pow2(n - 1)
  }

  /** The sleep after the `retries`-th rate-limit error. */
  function Delay(retries: nat): nat {
    1000 * Pow2(retries)
  }

  /** The end of the retry loop: the text or the error thrown, how many calls were made, and the sleeps in between. */
  datatype Attempts = Attempts(result: Result<string, CallOutcome>, calls: nat, sleeps: seq<nat>)

  /** The retry loop from the point where `retries` rate-limit errors have been seen. */
  function RetryFrom(respond: nat -> CallOutcome, retries: nat): Attempts
    requires retries < MaxRetries
    decreases MaxRetries - retries
  {
    var r := respond(retries);
    if r.Answered? then Attempts(Success(r.text), retries + 1, [])
    else if !Is429(r) || retries + 1 == MaxRetries then Attempts(Failure(r), retries + 1, [])
    else
      var rest := RetryFrom(respond, retries + 1);
      Attempts(rest.result, rest.calls, [Delay(retries + 1)] + rest.sleeps)
  }

  function Retry(respond: nat -> CallOutcome): Attempts {
    RetryFrom(respond, 0)
  }

  function After(sleeps: seq<nat>, a: Attempts): Attempts {
    Attempts(a.result, a.calls, sleeps + a.sleeps)
  }

  /** `while (retries < maxRetries) { try { ...; break } catch ... }` followed by `if (!result) throw`. */
  method GenerateWithRetry(respond: nat -> CallOutcome)
    returns (result: Result<string, CallOutcome>, calls: nat, sleeps: seq<nat>)
    ensures Attempts(result, calls, sleeps) == Retry(respond)
  {
    var answer: Option<string> := None;
    var retries := 0;
    calls, sleeps := 0, [];
    while retries < MaxRetries
      invariant calls == retries && answer.None?
      invariant retries < MaxRetries && After(sleeps, RetryFrom(respond, retries)) == Retry(respond)
      decreases MaxRetries - retries
    {
      var r := respond(calls);
      calls := calls + 1;
      if r.Answered? {
        answer := Some(r.text);
        break;
      } else if Is429(r) {
        retries := retries + 1;
        if retries == MaxRetries {
          return Failure(r), calls, sleeps;
        }
        RetryAfter429(respond, retries - 1, sleeps);
        sleeps := sleeps + [Delay(retries)];
      } else {
        return Failure(r), calls, sleeps;
      }
    }
    if answer.None? {
      return Failure(Threw(Some("Failed to generate content after retries"), None)), calls, sleeps;
    }
    result := Success(answer.value);
  }

  /** After a rate-limit error that is not the last allowed one, the loop sleeps and starts over with the next call. */
  lemma RetryAfter429(respond: nat -> CallOutcome, retries: nat, sleeps: seq<nat>)
    requires retries + 1 < MaxRetries && respond(retries).Threw? && Is429(respond(retries))
    requires After(sleeps, RetryFrom(respond, retries)) == Retry(respond)
    ensures After(sleeps + [Delay(retries + 1)], RetryFrom(respond, retries + 1)) == Retry(respond)
  {
    var rest := RetryFrom(respond, retries + 1);
    assert sleeps + ([Delay(retries + 1)] + rest.sleeps) == sleeps + [Delay(retries + 1)] + rest.sleeps;
  }

  /** At most three calls; only rate-limit errors lead to another call; the sleeps are 2 s then 4 s, one fewer than the calls. */
  lemma {:induction false} RetryBounds(respond: nat -> CallOutcome, retries: nat)
    requires retries < MaxRetries
    ensures var a := RetryFrom(respond, retries);
      && retries < a.calls <= MaxRetries
      && (forall k | retries <= k < a.calls - 1 :: Is429(respond(k)))
      && a.sleeps == [2000, 4000][retries..a.calls - 1]
      && (a.result.Success? ==> respond(a.calls - 1) == Answered(a.result.value))
      && (a.result.Failure? ==> respond(a.calls - 1) == a.result.error && a.result.error.Threw?)
      && (a.result.Failure? && a.calls < MaxRetries ==> !Is429(a.result.error))
    decreases MaxRetries - retries
  {
    var r := respond(retries);
    if !r.Answered? && Is429(r) && retries + 1 < MaxRetries {
      RetryBounds(respond, retries + 1);
      var rest := RetryFrom(respond, retries + 1);
      assert Delay(retries + 1) == [2000, 4000][retries];
      assert [2000, 4000][retries..rest.calls - 1] == [[2000, 4000][retries]] + [2000, 4000][retries + 1..rest.calls - 1];
    }
  }

  /** A non-rate-limit error is thrown at once, without another call. */
  lemma OtherErrorsNotRetried(respond: nat -> CallOutcome)
    requires respond(0).Threw? && !Is429(respond(0))
    ensures Retry(respond) == Attempts(Failure(respond(0)), 1, [])
  {
  }

  /** Three rate-limit errors in a row: three calls, sleeps of 2 s and 4 s, and the third error is thrown without an 8 s sleep. */
  lemma ThreeRateLimits(respond: nat -> CallOutcome)
    requires Is429(respond(0)) && Is429(respond(1)) && Is429(respond(2))
    ensures Retry(respond) == Attempts(Failure(respond(2)), 3, [2000, 4000])
  {
    assert Delay(1) == 2000 && Delay(2) == 4000;
  }

  /** `text.replace(/```json/g, '').replace(/```/g, '').trim()` */
  function Clean(text: string): (r: string)
    ensures IsTrimmed(r) && !Contains(r, "```")
  {
    RemoveFencesComplete(RemoveAll(text, "```json"));
    TrimKeepsAbsent(RemoveAll(RemoveAll(text, "```json"), "```"), "```");
    Trim(RemoveAll(RemoveAll(text, "```json"), "```"))
  }

  /** Trimming cannot bring a pattern in. */
  lemma TrimKeepsAbsent(u: string, p: string)
    requires !Contains(u, p)
    ensures !Contains(Trim(u), p)
  {
    AbsentFromSlice(u, LeadingSpaces(u), LeadingSpaces(u) + |Trim(u)|, p);
  }

  /** The destructuring default: an absent mode is `generate`. */
  function EffectiveMode(mode: Option<string>): (m: string)
    ensures mode.None? ==> m == "generate"
    ensures mode.Some? ==> m == mode.value
  {
    mode.GetOr("generate")
  }

  /** The JSON body in generate mode: the parsed object, or the fallback that treats the text as SQL. */
  datatype Payload = Parsed(json: string) | SqlFallback(sql: string, message: string)

  /** The route's reply; `ServerError` is status 500 with `success: false`. */
  datatype Reply = ServerError(message: Option<string>) | Explanation(text: string) | Generation(payload: Payload)

  /**
   * The route after the request body is read. `parses` says whether `JSON.parse` accepts a
   * text; the prompt text itself is not modelled, so `respond` stands for the call on it.
   */
  method HandleAi(apiKey: Option<string>, mode: Option<string>, respond: nat -> CallOutcome, parses: string -> bool)
    returns (reply: Reply, calls: nat)
    ensures (apiKey.None? || apiKey.value == "") ==>
      reply == ServerError(Some("GEMINI_API_KEY not found in environment variables")) && calls == 0
    ensures apiKey.Some? && apiKey.value != "" ==> calls == Retry(respond).calls && 1 <= calls <= MaxRetries
    ensures apiKey.Some? && apiKey.value != "" && Retry(respond).result.Failure? ==>
      reply == ServerError(Retry(respond).result.error.message)
    ensures apiKey.Some? && apiKey.value != "" && Retry(respond).result.Success? ==>
      var text := Retry(respond).result.value;
      reply == AnswerReply(EffectiveMode(mode), text, parses)
  {
    if apiKey.None? || apiKey.value == "" {
      return ServerError(Some("GEMINI_API_KEY not found in environment variables")), 0;
    }
    var m := EffectiveMode(mode);
    var result, sleeps;
    result, calls, sleeps := GenerateWithRetry(respond);
    RetryBounds(respond, 0);
    if result.Failure? {
      var message := if result.error.Threw? then result.error.message else None;
      return ServerError(message), calls;
    }
    var text := result.value;
    var cleanText := Clean(text);
    if m == "explain" || m == "explain_schema" {
      return Explanation(text), calls;
    }
    if parses(cleanText) {
      reply := Generation(Parsed(cleanText));
    } else {
      reply := Generation(SqlFallback(cleanText, "Here is the query you requested."));
    }
  }

  /** What the route answers with the model's text: the explain modes get the raw text, generate mode the cleaned text, parsed or as SQL. */
  function AnswerReply(mode: string, text: string, parses: string -> bool): (r: Reply)
    ensures (mode == "explain" || mode == "explain_schema") <==> r == Explanation(text)
    ensures !(mode == "explain" || mode == "explain_schema") ==>
      r.Generation? && (r.payload.Parsed? <==> parses(Clean(text)))
    ensures r.Generation? && r.payload.Parsed? ==>
      parses(Clean(text)) && r.payload.json == Clean(text) && !Contains(r.payload.json, "```")
    ensures r.Generation? && r.payload.SqlFallback? ==>
      !parses(Clean(text)) && r.payload.sql == Clean(text) && !Contains(r.payload.sql, "```")
      && r.payload.message == "Here is the query you requested."
  {
    if mode == "explain" || mode == "explain_schema" then Explanation(text)
    else if parses(Clean(text)) then Generation(Parsed(Clean(text)))
    else Generation(SqlFallback(Clean(text), "Here is the query you requested."))
  }
}
