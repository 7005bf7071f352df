/**
 * The AI chat panel (src/components/ChatSidebar.tsx): a message list and the input box. A
 * send appends the user's message, asks for SQL, and appends one assistant reply.
 */
module ChatSidebar {
  import opened Wrappers
  import opened JsStrings

  datatype Role = User | Assistant

  datatype Message = Message(id: string, role: Role, content: string, timestamp: nat)

  /** What `onGenerateSql` resolves to. */
  datatype GenerateResponse = GenerateResponse(success: bool, message: Option<string>)

  const SuccessFallback := "I have generated the SQL for you. Check the editor!"
  const ErrorFallback := "Sorry, I encountered an error generating the SQL."

  /** `response.message || fallback`: an absent or empty message is replaced by the fixed text for the outcome. */
  function ReplyText(response: GenerateResponse): (text: string)
    ensures response.message.Some? && response.message.value != "" ==> text == response.message.value
    ensures (response.message.None? || response.message.value == "") && response.success ==> text == SuccessFallback
    ensures (response.message.None? || response.message.value == "") && !response.success ==> text == ErrorFallback
    ensures text != ""
  {
    var fallback := if response.success then SuccessFallback else ErrorFallback;
    if response.message.Some? && response.message.value != "" then response.message.value else fallback
  }

  class Chat {
    var messages: seq<Message>
    var input: string

    constructor ()
      ensures messages == [] && input == ""
    {
      messages, input := [], "";
    }

    /**
     * `handleSend` run to completion. `prompt` is what is handed to `onGenerateSql`;
     * `response` is what it resolves to. Each `Date.now()` call is its own clock reading:
     * `sentStamp` and `replyStamp` for the ids, `sentAt` and `repliedAt` for the timestamps.
     */
    method Send(isGenerating: bool, sentStamp: nat, sentAt: nat, response: GenerateResponse, replyStamp: nat, repliedAt: nat)
      returns (prompt: Option<string>)
      modifies this
      ensures IsBlank(old(input)) || isGenerating ==>
        prompt.None? && messages == old(messages) && input == old(input)
      ensures !IsBlank(old(input)) && !isGenerating ==>
        && prompt == Some(old(input))
        && input == ""
        && messages == old(messages) + [Message(NatToString(sentStamp), User, old(input), sentAt),
                                        Message(NatToString(replyStamp + 1), Assistant, ReplyText(response), repliedAt)]
    {
      if Trim(input) == "" || isGenerating {
        return None;
      }
      var userMsg := Message(NatToString(sentStamp), User, input, sentAt);
      messages := messages + [userMsg];
      input := "";
      prompt := Some(userMsg.content);
      var reply := Message(NatToString(replyStamp + 1), Assistant, ReplyText(response), repliedAt);
      messages := messages + [reply];
    }

    /** `clearChat`; `confirmed` is the answer to the confirmation dialog. */
    method ClearChat(confirmed: bool)
      modifies this
      ensures messages == (if confirmed then [] else old(messages))
      ensures input == old(input)
    {
      if confirmed {
        messages := [];
      }
    }
  }
}
