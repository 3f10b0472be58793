/** Nothing said, called or answered is lost on the way to a provider. */
module ProvidersContents {
  import opened Wrappers
  import opened Operations
  import opened Chat
  import opened Providers
  import Distinct

  /** What a message says: a text, a text beside calls, or the answer to a call. */
  datatype Content = Said(role: Role, text: string) | Called(text: string, calls: seq<ToolCall>)
      | Answered(toolUseId: string, text: string)

  function ContentOf(m: ChatMessage): Content {
    if m.role == ToolRole && m.toolUseId.Some? then Answered(m.toolUseId.value, m.content)
    else if m.role == AssistantRole && m.toolCalls != [] then Called(m.content, m.toolCalls)
    else Said(m.role, m.content)
  }

  // ---- reading a request back ---------------------------------------------

  function CallsIn(blocks: seq<Block>): seq<ToolCall> {
    if blocks == [] then []
    else (if blocks[0].ToolUse? then [ToolCall(blocks[0].id, blocks[0].name, blocks[0].input)] else [])
         + CallsIn(blocks[1..])
  }

  function TextIn(blocks: seq<Block>): string {
    if blocks == [] then [] else (if blocks[0].TextBlock? then blocks[0].text else []) + TextIn(blocks[1..])
  }

  /** The user's side of a turn of blocks answers, the assistant's calls. */
  function ReadAnthropic(w: AnthropicMessage): Option<Content> {
    match w
    case PlainTurn(role, content) => Some(Said(role, content))
    case BlockTurn(role, blocks) =>
      if role == UserRole && |blocks| == 1 && blocks[0].ToolResult?
        then Some(Answered(blocks[0].toolUseId, blocks[0].content))
      else if role == AssistantRole then Some(Called(TextIn(blocks), CallsIn(blocks)))
      else None
  }

  function ReadOpenAi(w: OpenAiMessage): Option<Content> {
    match w
    case RoleTurn(role, content) => if content.Some? then Some(Said(role, content.value)) else None
    case ToolTurn(id, content) => if content.Some? then Some(Answered(id, content.value)) else None
    case CallTurn(content, functions) =>
      Some(Called(if content.Some? then content.value else "",
                  seq(|functions|, k requires 0 <= k < |functions| =>
                    ToolCall(functions[k].id, functions[k].name, functions[k].arguments))))
  }

  /** A Google request has no ids for calls, and two sides instead of roles. */
  datatype GoogleContent = GoogleSaid(fromModel: bool, text: string)
      | GoogleCalled(text: string, calls: seq<(string, OpArgs)>) | GoogleAnswered(name: string, text: string)

  function GoogleContentOf(m: ChatMessage): GoogleContent {
    match ContentOf(m)
    case Said(role, text) => GoogleSaid(role == AssistantRole, text)
    case Called(text, calls) =>
      GoogleCalled(text, seq(|calls|, k requires 0 <= k < |calls| => (calls[k].name, calls[k].args)))
    case Answered(id, text) => GoogleAnswered(id, text)
  }

  function GoogleCallsIn(parts: seq<Part>): seq<(string, OpArgs)> {
    if parts == [] then []
    else (if parts[0].FunctionCall? then [(parts[0].name, parts[0].args)] else []) + GoogleCallsIn(parts[1..])
  }

  function GoogleTextIn(parts: seq<Part>): string {
    if parts == [] then [] else (if parts[0].TextPart? then parts[0].text else []) + GoogleTextIn(parts[1..])
  }

  function ReadGoogle(w: GoogleMessage): Option<GoogleContent> {
    if !w.fromModel && |w.parts| == 1 && w.parts[0].FunctionResponse?
      then Some(GoogleAnswered(w.parts[0].name, w.parts[0].content))
    else if |w.parts| == 1 && w.parts[0].TextPart? then Some(GoogleSaid(w.fromModel, w.parts[0].text))
    else if w.fromModel then Some(GoogleCalled(GoogleTextIn(w.parts), GoogleCallsIn(w.parts)))
    else None
  }

  // ---- one message --------------------------------------------------------

  lemma {:induction false} UsesRead(calls: seq<ToolCall>)
    ensures CallsIn(ToolUses(calls)) == calls && TextIn(ToolUses(calls)) == ""
  {
    if calls != [] {
      UsesRead(calls[1..]);
      assert ToolUses(calls)[1..] == ToolUses(calls[1..]);
      assert calls == [calls[0]] + calls[1..];
    }
  }

  lemma TextThenUses(text: string, uses: seq<Block>)
    ensures CallsIn([TextBlock(text)] + uses) == CallsIn(uses)
    ensures TextIn([TextBlock(text)] + uses) == text + TextIn(uses)
  {
    assert ([TextBlock(text)] + uses)[1..] == uses;
    assert [] + CallsIn(uses) == CallsIn(uses);
  }

  /** An Anthropic message reads back as the message it was made from. */
  lemma AnthropicLosesNothing(m: ChatMessage)
    ensures ReadAnthropic(ToAnthropic(m)) == Some(ContentOf(m))
  {
    if m.role == AssistantRole && m.toolCalls != [] {
      UsesRead(m.toolCalls);
      TextThenUses(m.content, ToolUses(m.toolCalls));
      assert [] + ToolUses(m.toolCalls) == ToolUses(m.toolCalls) && m.content + "" == m.content;
    }
  }

  lemma FunctionsRead(calls: seq<ToolCall>)
    ensures var functions := Functions(calls);
            seq(|functions|, k requires 0 <= k < |functions| =>
              ToolCall(functions[k].id, functions[k].name, functions[k].arguments)) == calls
  {
  }

  /** So does an OpenAI or Ollama message. */
  lemma OpenAiLosesNothing(m: ChatMessage, ollama: bool)
    ensures ReadOpenAi(ToOpenAi(m, ollama)) == Some(ContentOf(m))
  {
    FunctionsRead(m.toolCalls);
  }

  lemma {:induction false} CallsRead(calls: seq<ToolCall>)
    ensures GoogleTextIn(FunctionCalls(calls)) == ""
    ensures GoogleCallsIn(FunctionCalls(calls))
         == seq(|calls|, k requires 0 <= k < |calls| => (calls[k].name, calls[k].args))
  {
    if calls != [] {
      CallsRead(calls[1..]);
      assert FunctionCalls(calls)[1..] == FunctionCalls(calls[1..]);
    }
  }

  lemma TextThenCalls(text: string, calls: seq<Part>)
    ensures GoogleCallsIn([TextPart(text)] + calls) == GoogleCallsIn(calls)
    ensures GoogleTextIn([TextPart(text)] + calls) == text + GoogleTextIn(calls)
  {
    assert ([TextPart(text)] + calls)[1..] == calls;
    assert [] + GoogleCallsIn(calls) == GoogleCallsIn(calls);
  }

  /** A Google message reads back as what it was made from, but for the ids of calls and the roles that are not the
      assistant's. */
  lemma GoogleLosesOnlyIds(m: ChatMessage)
    ensures ReadGoogle(ToGoogle(m)) == Some(GoogleContentOf(m))
  {
    if m.role == AssistantRole && m.toolCalls != [] {
      CallsRead(m.toolCalls);
      TextThenCalls(m.content, FunctionCalls(m.toolCalls));
      assert [] + FunctionCalls(m.toolCalls) == FunctionCalls(m.toolCalls) && m.content + "" == m.content;
    }
  }

  // ---- whole lists --------------------------------------------------------

  /** These places, in order, are those of the messages that are not the system's. */
  ghost predicate Spoken(messages: seq<ChatMessage>, idx: seq<nat>) {
    && Distinct.Increasing(idx) && (forall a :: 0 <= a < |idx| ==> idx[a] < |messages|)
    && forall i :: 0 <= i < |messages| ==> (i in idx <==> messages[i].role != SystemRole)
  }

  lemma {:induction false} SpokenAt(messages: seq<ChatMessage>) returns (idx: seq<nat>)
    ensures Spoken(messages, idx) && |idx| == |NonSystem(messages)|
    ensures forall a :: 0 <= a < |idx| ==> NonSystem(messages)[a] == messages[idx[a]]
  {
    idx := [];
    if messages != [] {
      var n := |messages| - 1;
      var front := SpokenAt(messages[..n]);
      idx := if messages[n].role == SystemRole then front else front + [n];
      SpokenOneMore(messages, front, idx);
    }
  }

  lemma SpokenOneMore(messages: seq<ChatMessage>, front: seq<nat>, idx: seq<nat>)
    requires messages != [] && Spoken(messages[..|messages| - 1], front)
    requires idx == if messages[|messages| - 1].role == SystemRole then front else front + [|messages| - 1]
    ensures Spoken(messages, idx)
  {
    var n := |messages| - 1;
    forall i | 0 <= i < |messages| ensures i in idx <==> messages[i].role != SystemRole {
      if i < n { assert messages[..n][i] == messages[i]; }
    }
  }

  /** A whole Anthropic request: each message that is not the system's, in order, by its content. */
  lemma AnthropicRequestCarries(messages: seq<ChatMessage>, out: seq<AnthropicMessage>) returns (idx: seq<nat>)
    requires |out| == |NonSystem(messages)|
    requires forall i :: 0 <= i < |out| ==> out[i] == ToAnthropic(NonSystem(messages)[i])
    ensures Spoken(messages, idx) && |out| == |idx|
    ensures forall a :: 0 <= a < |idx| ==> ReadAnthropic(out[a]) == Some(ContentOf(messages[idx[a]]))
  {
    idx := SpokenAt(messages);
    forall a | 0 <= a < |idx| ensures ReadAnthropic(out[a]) == Some(ContentOf(messages[idx[a]])) {
      AnthropicLosesNothing(messages[idx[a]]);
    }
  }

  /** A whole OpenAI or Ollama request: every message, in order, by its content. */
  lemma OpenAiRequestCarries(messages: seq<ChatMessage>, out: seq<OpenAiMessage>, ollama: bool)
    requires |out| == |messages| && forall i :: 0 <= i < |out| ==> out[i] == ToOpenAi(messages[i], ollama)
    ensures forall i :: 0 <= i < |out| ==> ReadOpenAi(out[i]) == Some(ContentOf(messages[i]))
  {
    forall i | 0 <= i < |out| ensures ReadOpenAi(out[i]) == Some(ContentOf(messages[i])) {
      OpenAiLosesNothing(messages[i], ollama);
    }
  }

  /** A whole Google request: each message that is not the system's, in order, by what Google keeps of it. */
  lemma GoogleRequestCarries(messages: seq<ChatMessage>, out: seq<GoogleMessage>) returns (idx: seq<nat>)
    requires |out| == |NonSystem(messages)|
    requires forall i :: 0 <= i < |out| ==> out[i] == ToGoogle(NonSystem(messages)[i])
    ensures Spoken(messages, idx) && |out| == |idx|
    ensures forall a :: 0 <= a < |idx| ==> ReadGoogle(out[a]) == Some(GoogleContentOf(messages[idx[a]]))
  {
    idx := SpokenAt(messages);
    forall a | 0 <= a < |idx| ensures ReadGoogle(out[a]) == Some(GoogleContentOf(messages[idx[a]])) {
      GoogleLosesOnlyIds(messages[idx[a]]);
    }
  }
}
