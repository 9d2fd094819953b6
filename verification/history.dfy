/**
  The chat-history cap of `OCRApp.model_translates`: once the message list
  grows past ten entries only the ten most recent are kept, with the first
  system prompt put back in front.
*/
module History {
  import opened Wrappers

  /** One chat message, `{"role": ..., "content": ...}`. */
  datatype Message = Message(role: string, content: string)

  /** `max_msg_length`. */
  const MaxMessages := 10

  const SystemRole := "system"
  const UserRole := "user"
  const AssistantRole := "assistant"

  /** No message before index `k` has the system role. */
  predicate NoSystemBefore(msgs: seq<Message>, k: int)
    requires 0 <= k <= |msgs|
  {
    forall p :: 0 <= p < k ==> msgs[p].role != SystemRole
  }

  /** The search for the first message with the system role, or nothing when there is none. */
  function FirstSystem(msgs: seq<Message>): (r: Option<Message>)
    ensures r.None? <==> forall k :: 0 <= k < |msgs| ==> msgs[k].role != SystemRole
    ensures forall k :: 0 <= k < |msgs| && msgs[k].role == SystemRole && NoSystemBefore(msgs, k) ==> r == Some(msgs[k])
  {
    if msgs == [] then None
    else if msgs[0].role == SystemRole then Some(msgs[0])
    else
      var r := FirstSystem(msgs[1..]);
      assert forall k :: 1 <= k < |msgs| ==> msgs[1..][k - 1] == msgs[k];
      r
  }

  /**
    The trim at the top of each translation round: a list of at most ten
    messages is left alone; a longer one is cut to its last ten, preceded by
    its first system message when there is one.
  */
  function TrimHistory(msgs: seq<Message>): (r: seq<Message>)
    ensures |msgs| <= MaxMessages ==> r == msgs
    ensures |r| <= MaxMessages + 1
    ensures |msgs| > MaxMessages ==> |r| >= MaxMessages && r[|r| - MaxMessages..] == msgs[|msgs| - MaxMessages..]
    ensures |msgs| > MaxMessages ==>
      (|r| == MaxMessages + 1 <==> exists k :: 0 <= k < |msgs| && msgs[k].role == SystemRole)
    ensures |msgs| > MaxMessages && |r| == MaxMessages + 1 ==> Some(r[0]) == FirstSystem(msgs)
  {
    if |msgs| > MaxMessages then
      var recent := msgs[|msgs| - MaxMessages..];
      match FirstSystem(msgs)
      case Some(sys) => [sys] + recent
      case None => recent
    else
      msgs
  }

  /** The shape the application keeps: its system prompt first and no other system message. */
  predicate PromptFirst(msgs: seq<Message>)
  {
    |msgs| > 0 && msgs[0].role == SystemRole && forall k :: 1 <= k < |msgs| ==> msgs[k].role != SystemRole
  }

  /**
    One round of the translation loop: append the user's text, trim, append
    the model's reply.  The reply is a parameter because it comes from the
    language model.
  */
  function Round(msgs: seq<Message>, text: string, reply: string): (r: seq<Message>)
    ensures 2 <= |r| <= MaxMessages + 2
    ensures r[|r| - 1] == Message(AssistantRole, reply) && r[|r| - 2] == Message(UserRole, text)
    ensures |msgs| < MaxMessages ==> r == msgs + [Message(UserRole, text), Message(AssistantRole, reply)]
  {
    var grown := msgs + [Message(UserRole, text)];
    TrimKeepsLast(grown);
    TrimHistory(grown) + [Message(AssistantRole, reply)]
  }

  /** Trimming keeps the newest message last. */
  lemma {:induction false} TrimKeepsLast(msgs: seq<Message>)
    requires msgs != []
    ensures TrimHistory(msgs) != [] && TrimHistory(msgs)[|TrimHistory(msgs)| - 1] == msgs[|msgs| - 1]
  {
    var t := TrimHistory(msgs);
    if |msgs| > MaxMessages {
      var n := |msgs| - MaxMessages;
      assert t[|t| - MaxMessages..][MaxMessages - 1] == msgs[n..][MaxMessages - 1];
    }
  }

  /**
    Every round keeps the system prompt in front, keeps it the only system
    message, and holds the list to at most twelve entries.
  */
  lemma {:induction false} RoundKeepsPrompt(msgs: seq<Message>, text: string, reply: string)
    requires PromptFirst(msgs)
    ensures PromptFirst(Round(msgs, text, reply))
    ensures Round(msgs, text, reply)[0] == msgs[0]
    ensures |Round(msgs, text, reply)| <= MaxMessages + 2
  {
    var grown := msgs + [Message(UserRole, text)];
    assert grown[0] == msgs[0];
    assert FirstSystem(grown) == Some(msgs[0]);
    var trimmed := TrimHistory(grown);
    if |grown| > MaxMessages {
      assert trimmed == [msgs[0]] + grown[|grown| - MaxMessages..];
      assert forall k :: 1 <= k < |trimmed| ==> trimmed[k] == grown[|grown| - MaxMessages + k - 1];
    }
  }
}
