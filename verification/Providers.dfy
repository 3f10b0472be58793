/** The four builders that turn the internal message list into a provider's request. */
module Providers {
  import opened Wrappers
  import opened Operations
  import opened Chat

  // ---- Anthropic ----------------------------------------------------------

  datatype Block = TextBlock(text: string) | ToolUse(id: string, name: string, input: OpArgs)
      | ToolResult(toolUseId: string, content: string)

  datatype AnthropicMessage = PlainTurn(role: Role, content: string) | BlockTurn(role: Role, blocks: seq<Block>)

  function ToolUses(calls: seq<ToolCall>): (r: seq<Block>)
    ensures |r| == |calls|
  {
    seq(|calls|, k requires 0 <= k < |calls| => ToolUse(calls[k].id, calls[k].name, calls[k].args))
  }

  function ToAnthropic(m: ChatMessage): AnthropicMessage {
    if m.role == ToolRole && m.toolUseId.Some? then BlockTurn(UserRole, [ToolResult(m.toolUseId.value, m.content)])
    else if m.role == AssistantRole && m.toolCalls != [] then
      BlockTurn(AssistantRole, (if m.content != "" then [TextBlock(m.content)] else []) + ToolUses(m.toolCalls))
    else PlainTurn(m.role, m.content)
  }

  /** The messages a builder keeps; system text is hoisted out of the list. */
  function NonSystem(messages: seq<ChatMessage>): seq<ChatMessage> {
    if messages == [] then [] else
      var front := NonSystem(messages[..|messages| - 1]);
      if messages[|messages| - 1].role == SystemRole then front else front + [messages[|messages| - 1]]
  }

  lemma NonSystemOneMore(messages: seq<ChatMessage>, n: nat)
    requires n < |messages|
    ensures NonSystem(messages[..n + 1])
         == NonSystem(messages[..n]) + if messages[n].role == SystemRole then [] else [messages[n]]
  {
    assert messages[..n + 1][..n] == messages[..n];
  }

  method BuildAnthropicMessages(messages: seq<ChatMessage>) returns (out: seq<AnthropicMessage>)
    ensures |out| == |NonSystem(messages)|
    ensures forall i :: 0 <= i < |out| ==> out[i] == ToAnthropic(NonSystem(messages)[i])
  {
    out := [];
    for n := 0 to |messages|
      invariant |out| == |NonSystem(messages[..n])|
      invariant forall i :: 0 <= i < |out| ==> out[i] == ToAnthropic(NonSystem(messages[..n])[i])
    {
      var m := messages[n];
      NonSystemOneMore(messages, n);
      if m.role == SystemRole { continue; }
      if m.role == ToolRole && m.toolUseId.Some? {
        out := out + [BlockTurn(UserRole, [ToolResult(m.toolUseId.value, m.content)])];
        continue;
      }
      if m.role == AssistantRole && m.toolCalls != [] {
        var text := if m.content != "" then [TextBlock(m.content)] else [];
        var blocks: seq<Block> := text;
        for k := 0 to |m.toolCalls|
          invariant blocks == text + ToolUses(m.toolCalls)[..k]
        {
          blocks := blocks + [ToolUse(m.toolCalls[k].id, m.toolCalls[k].name, m.toolCalls[k].args)];
        }
        out := out + [BlockTurn(AssistantRole, blocks)];
        continue;
      }
      out := out + [PlainTurn(m.role, m.content)];
    }
    assert messages[..|messages|] == messages;
  }

  function UseIds(blocks: seq<Block>): seq<string> {
    if blocks == [] then []
    else (if blocks[0].ToolUse? then [blocks[0].id] else []) + UseIds(blocks[1..])
  }

  /** What a request message asks or answers, read off its blocks. */
  function AnthropicShape(w: AnthropicMessage): Shape {
    match w
    case PlainTurn(_, _) => Other
    case BlockTurn(_, blocks) =>
      if |blocks| == 1 && blocks[0].ToolResult? then Answers(blocks[0].toolUseId)
      else if UseIds(blocks) != [] then Asks(UseIds(blocks))
      else Other
  }

  // ---- OpenAI and Ollama --------------------------------------------------

  datatype Function = Function(id: string, name: string, arguments: OpArgs)

  /** `content` is `None` where the request carries JSON null. */
  datatype OpenAiMessage =
    | RoleTurn(role: Role, content: Option<string>)
    | ToolTurn(toolCallId: string, content: Option<string>)
    | CallTurn(content: Option<string>, functions: seq<Function>)

  function Functions(calls: seq<ToolCall>): (r: seq<Function>)
    ensures |r| == |calls|
  {
    seq(|calls|, k requires 0 <= k < |calls| => Function(calls[k].id, calls[k].name, calls[k].args))
  }

  /** The two formats differ in how an empty text beside tool calls is written. */
  function ToOpenAi(m: ChatMessage, ollama: bool): OpenAiMessage {
    if m.role == ToolRole && m.toolUseId.Some? then ToolTurn(m.toolUseId.value, Some(m.content))
    else if m.role == AssistantRole && m.toolCalls != [] then
      CallTurn(if m.content == "" && !ollama then None else Some(m.content), Functions(m.toolCalls))
    else RoleTurn(m.role, Some(m.content))
  }

  method BuildOpenAiMessages(messages: seq<ChatMessage>, ollama: bool) returns (out: seq<OpenAiMessage>)
    ensures |out| == |messages|
    ensures forall i :: 0 <= i < |out| ==> out[i] == ToOpenAi(messages[i], ollama)
  {
    out := [];
    for n := 0 to |messages|
      invariant |out| == n && forall i :: 0 <= i < n ==> out[i] == ToOpenAi(messages[i], ollama)
    {
      var m := messages[n];
      if m.role == ToolRole && m.toolUseId.Some? {
        out := out + [ToolTurn(m.toolUseId.value, Some(m.content))];
        continue;
      }
      if m.role == AssistantRole && m.toolCalls != [] {
        out := out + [CallTurn(if m.content == "" && !ollama then None else Some(m.content), Functions(m.toolCalls))];
        continue;
      }
      out := out + [RoleTurn(m.role, Some(m.content))];
    }
  }

  function OpenAiShape(w: OpenAiMessage): Shape {
    match w
    case RoleTurn(_, _) => Other
    case ToolTurn(id, _) => Answers(id)
    case CallTurn(_, functions) =>
      if functions == [] then Other else Asks(seq(|functions|, k requires 0 <= k < |functions| => functions[k].id))
  }

  // ---- Google -------------------------------------------------------------

  datatype Part = TextPart(text: string) | FunctionCall(name: string, args: OpArgs)
      | FunctionResponse(name: string, content: string)

  datatype GoogleMessage = GoogleMessage(fromModel: bool, parts: seq<Part>)

  function FunctionCalls(calls: seq<ToolCall>): (r: seq<Part>)
    ensures |r| == |calls|
  {
    seq(|calls|, k requires 0 <= k < |calls| => FunctionCall(calls[k].name, calls[k].args))
  }

  function ToGoogle(m: ChatMessage): GoogleMessage {
    if m.role == ToolRole && m.toolUseId.Some?
      then GoogleMessage(false, [FunctionResponse(m.toolUseId.value, m.content)])
    else if m.role == AssistantRole && m.toolCalls != [] then
      GoogleMessage(true, (if m.content != "" then [TextPart(m.content)] else []) + FunctionCalls(m.toolCalls))
    else GoogleMessage(m.role == AssistantRole, [TextPart(m.content)])
  }

  method BuildGoogleMessages(messages: seq<ChatMessage>) returns (out: seq<GoogleMessage>)
    ensures |out| == |NonSystem(messages)|
    ensures forall i :: 0 <= i < |out| ==> out[i] == ToGoogle(NonSystem(messages)[i])
  {
    out := [];
    for n := 0 to |messages|
      invariant |out| == |NonSystem(messages[..n])|
      invariant forall i :: 0 <= i < |out| ==> out[i] == ToGoogle(NonSystem(messages[..n])[i])
    {
      NonSystemOneMore(messages, n);
      var m := messages[n];
      if m.role == SystemRole { continue; }
      if m.role == ToolRole && m.toolUseId.Some? {
        out := out + [GoogleMessage(false, [FunctionResponse(m.toolUseId.value, m.content)])];
        continue;
      }
      if m.role == AssistantRole && m.toolCalls != [] {
        var text := if m.content != "" then [TextPart(m.content)] else [];
        var parts: seq<Part> := text;
        for k := 0 to |m.toolCalls|
          invariant parts == text + FunctionCalls(m.toolCalls)[..k]
        {
          parts := parts + [FunctionCall(m.toolCalls[k].name, m.toolCalls[k].args)];
        }
        out := out + [GoogleMessage(true, parts)];
        continue;
      }
      out := out + [GoogleMessage(m.role == AssistantRole, [TextPart(m.content)])];
    }
    assert messages[..|messages|] == messages;
  }

  function CallNames(parts: seq<Part>): seq<string> {
    if parts == [] then []
    else (if parts[0].FunctionCall? then [parts[0].name] else []) + CallNames(parts[1..])
  }

  /** Google matches by name: a call carries its tool name, a response the id it answers. */
  function GoogleShape(w: GoogleMessage): Shape {
    if |w.parts| == 1 && w.parts[0].FunctionResponse? then Answers(w.parts[0].name)
    else if CallNames(w.parts) != [] then Asks(CallNames(w.parts))
    else Other
  }

  // ---- the builders keep the pairing --------------------------------------

  lemma {:induction false} UseIdsOf(calls: seq<ToolCall>)
    ensures UseIds(ToolUses(calls)) == Ids(calls)
  {
    if calls != [] {
      UseIdsOf(calls[1..]);
      assert ToolUses(calls)[1..] == ToolUses(calls[1..]);
      assert Ids(calls) == [calls[0].id] + Ids(calls[1..]);
    }
  }

  /** A call keeps its id, an answer the id it answers. */
  lemma AnthropicKeepsShape(m: ChatMessage)
    ensures AnthropicShape(ToAnthropic(m)) == ChatShape(m)
  {
    if ChatShape(m).Asks? {
      UseIdsOf(m.toolCalls);
      if m.content != "" {
        assert ([TextBlock(m.content)] + ToolUses(m.toolCalls))[1..] == ToolUses(m.toolCalls);
      } else {
        assert [] + ToolUses(m.toolCalls) == ToolUses(m.toolCalls);
      }
    }
  }

  lemma OpenAiKeepsShape(m: ChatMessage, ollama: bool)
    ensures OpenAiShape(ToOpenAi(m, ollama)) == ChatShape(m)
  {
    if ChatShape(m).Asks? {
      var functions := Functions(m.toolCalls);
      assert seq(|functions|, k requires 0 <= k < |functions| => functions[k].id) == Ids(m.toolCalls);
    }
  }

  /** Messages dropped from a paired list ask and answer nothing, so the rest is still paired. */
  lemma {:induction false} NonSystemShapes(messages: seq<ChatMessage>)
    requires PairedMessages(messages)
    ensures PairedMessages(NonSystem(messages))
    decreases |messages|
  {
    if messages != [] {
      var n := if ChatShape(messages[0]).Asks? then 1 + |messages[0].toolCalls| else 1;
      assert Shapes(messages)[n..] == Shapes(messages[n..]);
      NonSystemShapes(messages[n..]);
      assert messages == messages[..n] + messages[n..];
      NonSystemJoin(messages[..n], messages[n..]);
      PairedHead(messages, n);
      if messages[0].role == SystemRole {
        NonSystemOne(messages[0]);
        assert messages[..1] == [messages[0]];
        assert [] + NonSystem(messages[n..]) == NonSystem(messages[n..]);
      } else {
        NonSystemKeeps(messages[..n]);
        PairedMessagesJoin(messages[..n], NonSystem(messages[n..]));
      }
    }
  }

  lemma NonSystemOne(m: ChatMessage)
    ensures NonSystem([m]) == if m.role == SystemRole then [] else [m]
  {
    assert [m][..0] == [];
  }

  lemma {:induction false} NonSystemJoin(a: seq<ChatMessage>, b: seq<ChatMessage>)
    ensures NonSystem(a + b) == NonSystem(a) + NonSystem(b)
  {
    if b == [] {
      assert a + b == a;
    } else {
      assert (a + b)[..|a + b| - 1] == a + b[..|b| - 1];
      NonSystemJoin(a, b[..|b| - 1]);
    }
  }

  lemma {:induction false} NonSystemKeeps(messages: seq<ChatMessage>)
    requires forall i :: 0 <= i < |messages| ==> messages[i].role != SystemRole
    ensures NonSystem(messages) == messages
  {
    if messages != [] {
      NonSystemKeeps(messages[..|messages| - 1]);
      assert messages == messages[..|messages| - 1] + [messages[|messages| - 1]];
    }
  }

  /** The first group of a paired list: one plain message, or a question with its answers. */
  lemma PairedHead(messages: seq<ChatMessage>, n: nat)
    requires PairedMessages(messages) && messages != []
    requires n == if ChatShape(messages[0]).Asks? then 1 + |messages[0].toolCalls| else 1
    ensures n <= |messages| && PairedMessages(messages[..n])
    ensures messages[0].role != SystemRole ==> forall i :: 0 <= i < n ==> messages[i].role != SystemRole
  {
    var shapes := Shapes(messages);
    assert Shapes(messages[..n]) == shapes[..n];
    if shapes[0].Asks? {
      var ids := shapes[0].ids;
      assert shapes[1..][..|ids|] == AnswersTo(ids);
      assert shapes[..n][1..] == AnswersTo(ids);
      assert shapes[..n][n..] == [];
      forall i | 1 <= i < n ensures messages[i].role != SystemRole {
        assert shapes[i] == shapes[1..][i - 1] == AnswersTo(ids)[i - 1];
      }
    } else {
      assert shapes[..1][1..] == [];
    }
  }

  /** From a paired list, Anthropic, OpenAI and Ollama requests are paired by the same ids, position by position. */
  lemma BuildersKeepPairing(messages: seq<ChatMessage>, anthropic: seq<AnthropicMessage>, openAi: seq<OpenAiMessage>,
                            ollama: bool)
    requires PairedMessages(messages)
    requires |anthropic| == |NonSystem(messages)| && |openAi| == |messages|
    requires forall i :: 0 <= i < |anthropic| ==> anthropic[i] == ToAnthropic(NonSystem(messages)[i])
    requires forall i :: 0 <= i < |openAi| ==> openAi[i] == ToOpenAi(messages[i], ollama)
    ensures var shapes := seq(|anthropic|, i requires 0 <= i < |anthropic| => AnthropicShape(anthropic[i]));
            shapes == Shapes(NonSystem(messages)) && Paired(shapes)
    ensures var shapes := seq(|openAi|, i requires 0 <= i < |openAi| => OpenAiShape(openAi[i]));
            shapes == Shapes(messages) && Paired(shapes)
  {
    NonSystemShapes(messages);
    forall m { AnthropicKeepsShape(m); }
    forall m { OpenAiKeepsShape(m, ollama); }
    assert seq(|anthropic|, i requires 0 <= i < |anthropic| => AnthropicShape(anthropic[i]))
        == Shapes(NonSystem(messages));
    assert seq(|openAi|, i requires 0 <= i < |openAi| => OpenAiShape(openAi[i])) == Shapes(messages);
  }

  function Names(calls: seq<ToolCall>): (r: seq<string>)
    ensures |r| == |calls|
  {
    seq(|calls|, k requires 0 <= k < |calls| => calls[k].name)
  }

  lemma {:induction false} CallNamesOf(calls: seq<ToolCall>)
    ensures CallNames(FunctionCalls(calls)) == Names(calls)
  {
    if calls != [] {
      CallNamesOf(calls[1..]);
      assert FunctionCalls(calls)[1..] == FunctionCalls(calls[1..]);
      assert Names(calls) == [calls[0].name] + Names(calls[1..]);
    }
  }

  /** A Google call carries the tool's name where the others carry its id. */
  lemma GoogleKeepsNames(m: ChatMessage)
    ensures GoogleShape(ToGoogle(m)) == if ChatShape(m).Asks? then Asks(Names(m.toolCalls)) else ChatShape(m)
  {
    if ChatShape(m).Asks? {
      CallNamesOf(m.toolCalls);
      if m.content != "" {
        assert ([TextPart(m.content)] + FunctionCalls(m.toolCalls))[1..] == FunctionCalls(m.toolCalls);
      } else {
        assert [] + FunctionCalls(m.toolCalls) == FunctionCalls(m.toolCalls);
      }
    } else {
      assert [TextPart(m.content)][1..] == [];
      assert CallNames([TextPart(m.content)]) == [];
    }
  }

  function GoogleShapes(messages: seq<ChatMessage>): seq<Shape> {
    seq(|messages|, i requires 0 <= i < |messages| => GoogleShape(ToGoogle(messages[i])))
  }

  /** Every call's id is its tool's name. */
  ghost predicate NamesAreIds(messages: seq<ChatMessage>) {
    forall i :: 0 <= i < |messages| && ChatShape(messages[i]).Asks? ==>
        Names(messages[i].toolCalls) == Ids(messages[i].toolCalls)
  }

  lemma AnswersToInjective(a: seq<string>, b: seq<string>, shapes: seq<Shape>)
    requires |a| == |b| && AnswersTo(a) <= shapes && AnswersTo(b) <= shapes
    ensures a == b
  {
    forall k | 0 <= k < |a| ensures a[k] == b[k] {
      assert AnswersTo(a)[k] == shapes[k] == AnswersTo(b)[k];
    }
  }

  /** From a paired list, the Google request is paired exactly when every call id is name-derived. */
  lemma {:induction false} GooglePairedIff(messages: seq<ChatMessage>)
    requires PairedMessages(messages)
    ensures Paired(GoogleShapes(messages)) <==> NamesAreIds(messages)
    decreases |messages|
  {
    if messages != [] {
      var shape := ChatShape(messages[0]);
      var n := if shape.Asks? then 1 + |messages[0].toolCalls| else 1;
      PairedHead(messages, n);
      assert Shapes(messages)[n..] == Shapes(messages[n..]);
      GooglePairedIff(messages[n..]);
      if shape.Asks? { GoogleAsks(messages, n); } else { GooglePlain(messages); }
    }
  }

  lemma GooglePlain(messages: seq<ChatMessage>)
    requires messages != [] && ChatShape(messages[0]).Other?
    ensures Paired(GoogleShapes(messages)) <==> Paired(GoogleShapes(messages[1..]))
    ensures NamesAreIds(messages) <==> NamesAreIds(messages[1..])
  {
    GoogleKeepsNames(messages[0]);
    assert GoogleShapes(messages)[1..] == GoogleShapes(messages[1..]);
    assert forall i :: 1 <= i < |messages| ==> messages[i] == messages[1..][i - 1];
  }

  lemma GoogleAsks(messages: seq<ChatMessage>, n: nat)
    requires PairedMessages(messages) && messages != [] && ChatShape(messages[0]).Asks?
    requires n == 1 + |messages[0].toolCalls| && n <= |messages|
    ensures Paired(GoogleShapes(messages))
            <==> Names(messages[0].toolCalls) == Ids(messages[0].toolCalls) && Paired(GoogleShapes(messages[n..]))
    ensures NamesAreIds(messages)
       <==> Names(messages[0].toolCalls) == Ids(messages[0].toolCalls) && NamesAreIds(messages[n..])
  {
    GoogleHead(messages);
    GoogleKeepsNames(messages[0]);
    assert GoogleShapes(messages)[n..] == GoogleShapes(messages[n..]);
    assert forall i :: n <= i < |messages| ==> messages[i] == messages[n..][i - n];
  }

  /** The head of a paired list that asks: its answers are the same in the Google request. */
  lemma GoogleHead(messages: seq<ChatMessage>)
    requires PairedMessages(messages) && messages != [] && ChatShape(messages[0]).Asks?
    ensures var calls := messages[0].toolCalls;
            && |messages| >= 1 + |calls|
            && (AnswersTo(Names(calls)) <= GoogleShapes(messages)[1..] <==> Names(calls) == Ids(calls))
            && (forall i :: 1 <= i <= |calls| ==> ChatShape(messages[i]).Answers?)
  {
    var calls, shapes, google := messages[0].toolCalls, Shapes(messages), GoogleShapes(messages);
    assert AnswersTo(Ids(calls)) <= shapes[1..];
    forall i | 1 <= i <= |calls|
      ensures google[i] == shapes[i] == Answers(calls[i - 1].id) && ChatShape(messages[i]).Answers?
    {
      assert shapes[1..][i - 1] == AnswersTo(Ids(calls))[i - 1];
      GoogleKeepsNames(messages[i]);
    }
    assert AnswersTo(Ids(calls)) <= google[1..] by {
      forall k | 0 <= k < |calls| ensures google[1..][k] == AnswersTo(Ids(calls))[k] {
        assert google[k + 1] == shapes[k + 1];
      }
    }
    if AnswersTo(Names(calls)) <= google[1..] { AnswersToInjective(Names(calls), Ids(calls), google[1..]); }
  }
}
