/**
 * The action-output log (src/components/ActionOutput.tsx): each history entry is shown with
 * an action label, the upper-cased first word of its query, and a one-line message.
 */
module ActionOutput {
  import opened Wrappers
  import opened JsStrings

  /** `(item.query || '').split(' ')[0].toUpperCase()` */
  function ActionLabel(query: Option<string>): (action: string)
    ensures ' ' !in action
    ensures query.None? ==> action == ""
    ensures query.Some? ==> |action| <= |query.value| && action == Upper(query.value[..|action|])
    ensures query.Some? && |action| < |query.value| ==> query.value[|action|] == ' '
  {
    var text := query.GetOr("");
    var first := Split(text, ' ')[0];
    FirstPartIsPrefix(text);
    UpperKeepsSpaces(first);
    Upper(first)
  }

  /** The first part of a split is the text up to the first separator. */
  lemma FirstPartIsPrefix(s: string)
    ensures var first := Split(s, ' ')[0];
      |first| <= |s| && first == s[..|first|] && (|first| < |s| ==> s[|first|] == ' ')
  {
  }

  lemma UpperKeepsSpaces(s: string)
    requires ' ' !in s
    ensures ' ' !in Upper(s)
  {
    forall k | 0 <= k < |s|
      ensures Upper(s)[k] != ' '
    {
      assert s[k] != ' ';
    }
  }

  /** A query that starts with a tab or newline keeps it in the label: only the space separates. */
  lemma LabelKeepsOtherWhitespace(rest: string)
    requires ' ' !in rest
    ensures ActionLabel(Some("\n" + rest)) == "\n" + Upper(rest)
  {
    assert ' ' !in "\n" + rest;
  }

  datatype Status = Ok | Error

  /** `` `${item.rowsAffected || 0} row(s) returned` `` on success, else the fixed error text; a missing or zero count shows 0. */
  function ActionMessage(status: Status, rowsAffected: Option<int>): (msg: string)
    ensures status == Error ==> msg == "Error executing query"
    ensures status == Ok ==> msg == IntToString(rowsAffected.GetOr(0)) + " row(s) returned"
  {
    match status
    case Error => "Error executing query"
    case Ok => IntToString(rowsAffected.GetOr(0)) + " row(s) returned"
  }
}
