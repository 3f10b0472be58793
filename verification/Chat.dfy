/** Conversation rows, the message list rebuilt from them, and the pairing of tool calls with their answers. */
module Chat {
  import opened Wrappers
  import opened Operations

  datatype Role = SystemRole | UserRole | AssistantRole | ToolRole

  datatype ToolCall = ToolCall(id: string, name: string, args: OpArgs)

  /** One turn of the list sent to the provider. */
  datatype ChatMessage = ChatMessage(role: Role, content: string, toolCalls: seq<ToolCall>, toolUseId: Option<string>)

  /** The `tool_payload` column. */
  datatype Payload = NoPayload | Calls(calls: seq<ToolCall>) | Answer(toolUseId: string)

  /** One persisted row; tool answers are kept as system rows. */
  datatype MessageRow = MessageRow(role: Role, content: string, suggestions: Option<seq<string>>, payload: Payload)

  // ---- rebuilding the list ------------------------------------------------

  function RowMessage(row: MessageRow): Option<ChatMessage> {
    if row.role == SystemRole then
      match row.payload
      case Answer(id) => Some(ChatMessage(ToolRole, row.content, [], Some(id)))
      case _ => None
    else Some(ChatMessage(row.role, row.content, if row.payload.Calls? then row.payload.calls else [], None))
  }

  function History(rows: seq<MessageRow>): seq<ChatMessage> {
    if rows == [] then [] else
      var front := History(rows[..|rows| - 1]);
      match RowMessage(rows[|rows| - 1])
      case None => front
      case Some(m) => front + [m]
  }

  function SystemMessage(text: string): ChatMessage { ChatMessage(SystemRole, text, [], None) }

  method BuildHistoryMessages(rows: seq<MessageRow>, systemText: string) returns (messages: seq<ChatMessage>)
    ensures messages == [SystemMessage(systemText)] + History(rows)
  {
    messages := [SystemMessage(systemText)];
    for i := 0 to |rows|
      invariant messages == [SystemMessage(systemText)] + History(rows[..i])
    {
      assert rows[..i + 1][..i] == rows[..i];
      if rows[i].role == SystemRole {
        if rows[i].payload.Answer? {
          messages := messages + [ChatMessage(ToolRole, rows[i].content, [], Some(rows[i].payload.toolUseId))];
        }
      } else {
        var calls := if rows[i].payload.Calls? then rows[i].payload.calls else [];
        messages := messages + [ChatMessage(rows[i].role, rows[i].content, calls, None)];
      }
    }
    assert rows[..|rows|] == rows;
  }

  lemma {:induction false} HistoryJoin(a: seq<MessageRow>, b: seq<MessageRow>)
    ensures History(a + b) == History(a) + History(b)
  {
    if b == [] {
      assert a + b == a;
    } else {
      var n := |b| - 1;
      assert (a + b)[..|a + b| - 1] == a + b[..n];
      HistoryJoin(a, b[..n]);
    }
  }

  // ---- pairing ------------------------------------------------------------

  /** What matters of a message for pairing. */
  datatype Shape = Other | Asks(ids: seq<string>) | Answers(id: string)

  function ChatShape(m: ChatMessage): Shape {
    if m.role == ToolRole && m.toolUseId.Some? then Answers(m.toolUseId.value)
    else if m.role == AssistantRole && m.toolCalls != [] then Asks(Ids(m.toolCalls))
    else Other
  }

  function Ids(calls: seq<ToolCall>): (r: seq<string>)
    ensures |r| == |calls|
  {
    seq(|calls|, k requires 0 <= k < |calls| => calls[k].id)
  }

  function Shapes(messages: seq<ChatMessage>): seq<Shape> {
    seq(|messages|, i requires 0 <= i < |messages| => ChatShape(messages[i]))
  }

  function AnswersTo(ids: seq<string>): (r: seq<Shape>)
    ensures |r| == |ids|
  {
    seq(|ids|, k requires 0 <= k < |ids| => Answers(ids[k]))
  }

  /** Each message that asks is followed at once by one answer per call, in order, and by no other answer. */
  predicate Paired(shapes: seq<Shape>)
    decreases |shapes|
  {
    if shapes == [] then true
    else match shapes[0]
      case Other => Paired(shapes[1..])
      case Answers(_) => false
      case Asks(ids) => AnswersTo(ids) <= shapes[1..] && Paired(shapes[1 + |ids|..])
  }

  predicate PairedMessages(messages: seq<ChatMessage>) { Paired(Shapes(messages)) }

  lemma {:induction false} PairedJoin(a: seq<Shape>, b: seq<Shape>)
    requires Paired(a) && Paired(b)
    ensures Paired(a + b)
    decreases |a|
  {
    if a == [] {
      assert a + b == b;
    } else {
      var n := if a[0].Asks? then 1 + |a[0].ids| else 1;
      assert (a + b)[n..] == a[n..] + b;
      PairedJoin(a[n..], b);
      if a[0].Asks? { assert (a + b)[1..] == a[1..] + b; }
    }
  }

  /** Position by position: the n messages after one that asks n times answer it in order, and the next is no answer;
      and every answer belongs to such a group. */
  lemma {:induction false} PairedAt(shapes: seq<Shape>, i: nat)
    requires Paired(shapes) && i < |shapes|
    ensures shapes[i].Asks? ==>
              var n := |shapes[i].ids|;
              && i + n < |shapes|
              && (forall k :: 0 <= k < n ==> shapes[i + 1 + k] == Answers(shapes[i].ids[k]))
              && (i + 1 + n < |shapes| ==> !shapes[i + 1 + n].Answers?)
    ensures shapes[i].Answers? ==>
              exists j :: 0 <= j < i && shapes[j].Asks? && i - j - 1 < |shapes[j].ids|
                && shapes[j].ids[i - j - 1] == shapes[i].id
    decreases |shapes|
  {
    var n := if shapes[0].Asks? then 1 + |shapes[0].ids| else 1;
    var rest := shapes[n..];
    if i >= n {
      PairedAt(rest, i - n);
      if shapes[i].Answers? {
        var j :| 0 <= j < i - n && rest[j].Asks? && i - n - j - 1 < |rest[j].ids|
          && rest[j].ids[i - n - j - 1] == rest[i - n].id;
        assert shapes[n + j] == rest[j];
      }
    } else if i > 0 {
      assert shapes[1..][i - 1] == AnswersTo(shapes[0].ids)[i - 1];
    } else if shapes[0].Asks? {
      forall k | 0 <= k < n - 1 ensures shapes[1 + k] == Answers(shapes[0].ids[k]) {
        assert shapes[1..][k] == AnswersTo(shapes[0].ids)[k];
      }
    }
  }

  lemma ShapesJoin(a: seq<ChatMessage>, b: seq<ChatMessage>)
    ensures Shapes(a + b) == Shapes(a) + Shapes(b)
  {
  }

  lemma PairedMessagesJoin(a: seq<ChatMessage>, b: seq<ChatMessage>)
    requires PairedMessages(a) && PairedMessages(b)
    ensures PairedMessages(a + b)
  {
    ShapesJoin(a, b);
    PairedJoin(Shapes(a), Shapes(b));
  }

  /** A message that neither asks nor answers. */
  lemma PlainIsPaired(m: ChatMessage)
    requires ChatShape(m) == Other
    ensures PairedMessages([m])
  {
    assert Shapes([m])[1..] == [];
  }
}
