/** A turn of the agent as values: its replies, what it adds to the log, what it sends, and how it ends. */
module Turns {
  import opened Wrappers
  import opened Frames
  import opened Journal
  import opened Chat
  import opened AgentTurn
  import opened WorkingCopy

  // ---- a complete turn ----------------------------------------------------

  /** The replies of a turn that completed: every one but the last calls tools, and the last does only at the cap. */
  predicate CompleteTurn(replies: seq<Completion>) {
    && 1 <= |replies| <= MAX_TOOL_ITERATIONS
    && (forall k :: 0 <= k < |replies| - 1 ==> replies[k].toolCalls != [])
    && (replies[|replies| - 1].toolCalls != [] ==> |replies| == MAX_TOOL_ITERATIONS)
  }

  predicate EndsInAnswer(replies: seq<Completion>)
    requires replies != []
  {
    replies[|replies| - 1].toolCalls == []
  }

  /** The replies whose tools were run. */
  function ToolReplies(replies: seq<Completion>): seq<Completion>
    requires replies != []
  {
    if EndsInAnswer(replies) then replies[..|replies| - 1] else replies
  }

  /** The answer, or the give-up message after the cap. */
  function FinalRow(replies: seq<Completion>): MessageRow
    requires replies != []
  {
    if EndsInAnswer(replies) then AssistantRow(replies[|replies| - 1]) else GIVE_UP_ROW
  }

  function FinalMessage(replies: seq<Completion>): ChatMessage
    requires replies != []
  {
    ChatMessage(AssistantRole, FinalRow(replies).content, [], None)
  }

  function TurnLoop(ctx: Context, start: Opening, replies: seq<Completion>): Loop
    requires Readable(start.state) && replies != []
  {
    IterateAll(ctx, Start(start), ToolReplies(replies))
  }

  function TurnRows(ctx: Context, start: Opening, replies: seq<Completion>): seq<MessageRow>
    requires Readable(start.state) && replies != []
  {
    TurnLoop(ctx, start, replies).log + [FinalRow(replies)]
  }

  /** What a turn adds to the log, cut into its parts. */
  lemma TurnParts(ctx: Context, start: Opening, replies: seq<Completion>)
      returns (rows: seq<MessageRow>)
    requires Readable(start.state) && CompleteTurn(replies)
    ensures var l := TurnLoop(ctx, start, replies);
            && TurnRows(ctx, start, replies) == rows + [FinalRow(replies)]
            && Segment(rows, l.added, |ToolReplies(replies)|)
            && l.dispatched == AllCalls(replies)
    ensures RowOk(FinalRow(replies)) && RowMessage(FinalRow(replies)) == Some(FinalMessage(replies))
  {
    rows := IterationsFromStart(ctx, start, ToolReplies(replies));
    AnswerCallsNothing(replies);
    FinalRowReads(replies);
  }

  lemma FinalRowReads(replies: seq<Completion>)
    requires replies != []
    ensures RowOk(FinalRow(replies)) && RowMessage(FinalRow(replies)) == Some(FinalMessage(replies))
  {
  }

  lemma IterationsFromStart(ctx: Context, start: Opening, replies: seq<Completion>) returns (rows: seq<MessageRow>)
    requires Readable(start.state) && forall k :: 0 <= k < |replies| ==> replies[k].toolCalls != []
    ensures var l := IterateAll(ctx, Start(start), replies);
            l.log == rows && Segment(rows, l.added, |replies|) && l.dispatched == AllCalls(replies)
  {
    var turns;
    rows, turns := IterationsLog(ctx, Start(start), replies);
    assert [] + rows == rows && [] + turns == turns && [] + AllCalls(replies) == AllCalls(replies);
  }

  lemma AnswerCallsNothing(replies: seq<Completion>)
    requires replies != []
    ensures AllCalls(ToolReplies(replies)) == AllCalls(replies)
  {
    if EndsInAnswer(replies) { assert AllCalls(ToolReplies(replies)) + [] == AllCalls(ToolReplies(replies)); }
  }

  lemma FinalIsPaired(replies: seq<Completion>)
    requires replies != []
    ensures PairedMessages([FinalMessage(replies)])
  {
    PlainIsPaired(FinalMessage(replies));
  }

  /** The log a turn leaves rebuilds to the list it started from, the messages it appended (up to the placeholder)
      and its final answer; and it is again a committed log. */
  lemma RebuiltHistory(ctx: Context, start: Opening, replies: seq<Completion>, log: seq<MessageRow>)
    requires Readable(start.state) && CompleteTurn(replies) && LogOk(log)
    ensures var after := log + TurnRows(ctx, start, replies);
            && History(after) == History(log) + CanonAll(TurnLoop(ctx, start, replies).added) + [FinalMessage(replies)]
            && LogOk(after)
  {
    var rows := TurnParts(ctx, start, replies);
    FinalIsPaired(replies);
    LogGrows(log, rows, TurnLoop(ctx, start, replies).added, |ToolReplies(replies)|, FinalRow(replies),
        FinalMessage(replies));
  }

  lemma LogGrows(log: seq<MessageRow>, rows: seq<MessageRow>, added: seq<ChatMessage>, n: nat, last: MessageRow,
                 final: ChatMessage)
    requires LogOk(log) && Segment(rows, added, n)
    requires RowOk(last) && RowMessage(last) == Some(final) && PairedMessages([final])
    ensures var after := log + (rows + [last]);
            History(after) == History(log) + CanonAll(added) + [final] && LogOk(after)
  {
    OneRow(last, final);
    HistoryJoin(rows, [last]);
    HistoryJoin(log, rows + [last]);
    CanonShapes(added);
    PairedMessagesJoin(CanonAll(added), [final]);
    PairedMessagesJoin(History(log), CanonAll(added) + [final]);
    assert History(log) + (CanonAll(added) + [final]) == History(log) + CanonAll(added) + [final];
  }

  /** Between 1 and 13 assistant rows, one per reply and one more when giving up; the last calls nothing;
      every emitted call was dispatched exactly once, in order. */
  lemma TurnBounds(ctx: Context, start: Opening, replies: seq<Completion>)
    requires Readable(start.state) && CompleteTurn(replies)
    ensures var rows := TurnRows(ctx, start, replies);
            && CountAssistant(rows) == |replies| + (if EndsInAnswer(replies) then 0 else 1)
            && 1 <= CountAssistant(rows) <= MAX_TOOL_ITERATIONS + 1
            && rows[|rows| - 1].role == AssistantRole && rows[|rows| - 1].payload == NoPayload
            && TurnLoop(ctx, start, replies).dispatched == AllCalls(replies)
  {
    var rows := TurnParts(ctx, start, replies);
    CountAssistantJoin(rows, [FinalRow(replies)]);
    OneAssistant([FinalRow(replies)]);
  }

  function AssistantRows(replies: seq<Completion>): (r: seq<MessageRow>)
    ensures |r| == |replies|
  {
    seq(|replies|, k requires 0 <= k < |replies| => AssistantRow(replies[k]))
  }

  lemma ProduceOneMore(replies: seq<Completion>, c: Completion)
    ensures AssistantRows(replies + [c]) == AssistantRows(replies) + [AssistantRow(c)]
  {
  }

  /** The assistant rows handed back to the caller. */
  function Produced(replies: seq<Completion>): seq<MessageRow>
    requires replies != []
  {
    if EndsInAnswer(replies) then AssistantRows(replies) else AssistantRows(replies) + [GIVE_UP_ROW]
  }

  // ---- the service --------------------------------------------------------

  datatype ProviderError = ProviderError

  type Reply = Result<Completion, ProviderError>

  datatype LoopError = ProviderFailed | SourceFailed(error: SourceError)

  /** One provider call: the list, and whether a tool call is forced. */
  datatype Request = Request(messages: seq<ChatMessage>, forceTool: bool)

  /** The list as it stands after the first `k` replies. */
  function ListAfter(ctx: Context, start: Opening, working: seq<ChatMessage>, replies: seq<Completion>, k: nat)
      : seq<ChatMessage>
    requires Readable(start.state) && k <= |replies|
  {
    working + IterateAll(ctx, Start(start), replies[..k]).added
  }

  /** The first `n` requests: request `k` carries the list as it stands after `k` replies; only the first may force a
      tool call. */
  function Sent(ctx: Context, start: Opening, working: seq<ChatMessage>, forceFirst: bool, replies: seq<Completion>,
                n: nat): (r: seq<Request>)
    requires Readable(start.state) && n <= |replies| + 1
    ensures |r| == n
  {
    seq(n, k requires 0 <= k < n => Request(ListAfter(ctx, start, working, replies, k), forceFirst && k == 0))
  }

  /** These requests are the first ones due. */
  ghost predicate SentLists(ctx: Context, start: Opening, working: seq<ChatMessage>, forceFirst: bool,
                            replies: seq<Completion>, requests: seq<Request>)
    requires Readable(start.state)
  {
    |requests| <= |replies| + 1 && requests == Sent(ctx, start, working, forceFirst, replies, |requests|)
  }

  lemma SentOneMore(ctx: Context, start: Opening, working: seq<ChatMessage>, forceFirst: bool,
                    replies: seq<Completion>, requests: seq<Request>, request: Request)
    requires Readable(start.state) && SentLists(ctx, start, working, forceFirst, replies, requests)
          && |requests| == |replies|
    requires request == Request(working + IterateAll(ctx, Start(start), replies).added, forceFirst && |replies| == 0)
    ensures SentLists(ctx, start, working, forceFirst, replies, requests + [request])
  {
    assert replies[..|replies|] == replies;
    var sent, n := requests + [request], |requests|;
    forall k | 0 <= k <= n ensures sent[k] == Sent(ctx, start, working, forceFirst, replies, n + 1)[k] {
      if k < n { assert requests[k] == Sent(ctx, start, working, forceFirst, replies, n)[k]; }
    }
  }

  lemma RepliedOneMore(ctx: Context, start: Opening, working: seq<ChatMessage>, forceFirst: bool,
                       replies: seq<Completion>, requests: seq<Request>, c: Completion)
    requires Readable(start.state) && SentLists(ctx, start, working, forceFirst, replies, requests)
    ensures SentLists(ctx, start, working, forceFirst, replies + [c], requests)
  {
    forall k | 0 <= k < |requests|
      ensures ListAfter(ctx, start, working, replies + [c], k) == ListAfter(ctx, start, working, replies, k)
    {
      assert (replies + [c])[..k] == replies[..k];
    }
  }

  /** The provider gave these replies, in answer to these requests. */
  ghost predicate Conversed(ctx: Context, start: Opening, working: seq<ChatMessage>, forceFirst: bool,
                            provider: nat -> Reply,
                            replies: seq<Completion>, requests: seq<Request>)
    requires Readable(start.state)
  {
    && SentLists(ctx, start, working, forceFirst, replies, requests)
    && (forall k :: 0 <= k < |replies| ==> provider(k) == Ok(replies[k]))
    && (forall k :: 0 <= k < |requests| - 1 && k < |replies| ==> replies[k].toolCalls != [])
  }

  /** Every list sent to the provider during a turn is paired, if the first one is. */
  lemma SentListsPaired(ctx: Context, start: Opening, working: seq<ChatMessage>, forceFirst: bool,
                        provider: nat -> Reply,
                        replies: seq<Completion>, requests: seq<Request>)
    requires Readable(start.state) && PairedMessages(working)
    requires Conversed(ctx, start, working, forceFirst, provider, replies, requests)
    ensures forall k :: 0 <= k < |requests| ==> PairedMessages(requests[k].messages)
  {
    forall k | 0 <= k < |requests| ensures PairedMessages(requests[k].messages) {
      var rows, turns := IterationsLog(ctx, Start(start), replies[..k]);
      assert [] + turns == turns;
      PairedMessagesJoin(working, turns);
    }
  }

  /** So far every reply called tools, and the loop has run them all. */
  ghost predicate Progress(ctx: Context, start: Opening, working: seq<ChatMessage>, forceFirst: bool,
                           provider: nat -> Reply,
                           replies: seq<Completion>, requests: seq<Request>, l: Loop)
    requires Readable(start.state)
  {
    && Conversed(ctx, start, working, forceFirst, provider, replies, requests) && |requests| == |replies|
    && (forall k :: 0 <= k < |replies| ==> replies[k].toolCalls != [])
    && l == IterateAll(ctx, Start(start), replies) && Extends(start.state, l.state)
  }

  lemma AskedOneMore(ctx: Context, start: Opening, working: seq<ChatMessage>, forceFirst: bool, provider: nat -> Reply,
                     replies: seq<Completion>, requests: seq<Request>, l: Loop, request: Request)
    requires Readable(start.state) && Progress(ctx, start, working, forceFirst, provider, replies, requests, l)
    requires request == Request(working + l.added, forceFirst && |replies| == 0)
    ensures Conversed(ctx, start, working, forceFirst, provider, replies, requests + [request])
  {
    SentOneMore(ctx, start, working, forceFirst, replies, requests, request);
  }

  lemma AnsweredOnce(ctx: Context, start: Opening, working: seq<ChatMessage>, forceFirst: bool, provider: nat -> Reply,
                     replies: seq<Completion>, requests: seq<Request>, c: Completion)
    requires Readable(start.state) && Conversed(ctx, start, working, forceFirst, provider, replies, requests)
    requires provider(|replies|) == Ok(c)
    ensures Conversed(ctx, start, working, forceFirst, provider, replies + [c], requests)
  {
    RepliedOneMore(ctx, start, working, forceFirst, replies, requests, c);
  }

  lemma ProgressStarts(ctx: Context, start: Opening, working: seq<ChatMessage>, forceFirst: bool,
                       provider: nat -> Reply)
    requires Readable(start.state)
    ensures Progress(ctx, start, working, forceFirst, provider, [], [], Start(start))
  {
  }

  lemma ProgressOneMore(ctx: Context, start: Opening, working: seq<ChatMessage>, forceFirst: bool,
                        provider: nat -> Reply,
                        replies: seq<Completion>, requests: seq<Request>, l: Loop, c: Completion, request: Request,
                        origin: Path)
    requires Inv(ctx.lib, start.state, origin) && TicketsReady(start.state, ctx.tickets, start.drawn)
    requires Progress(ctx, start, working, forceFirst, provider, replies, requests, l) && c.toolCalls != []
    requires Conversed(ctx, start, working, forceFirst, provider, replies + [c], requests + [request])
    ensures Progress(ctx, start, working, forceFirst, provider, replies + [c], requests + [request], Iterate(ctx, l, c))
  {
    IterationsKeepJournal(ctx, Start(start), replies + [c], origin);
    assert (replies + [c])[..|replies|] == replies;
  }

  /** The log, the rows handed back and the working copy at the end of a turn, however it ends. */
  ghost predicate Finished(ctx: Context, start: Opening, replies: seq<Completion>, l: Loop, last: MessageRow,
                           produced: seq<MessageRow>)
    requires Readable(start.state)
  {
    && CompleteTurn(replies) && TurnRows(ctx, start, replies) == l.log + [last]
    && TurnLoop(ctx, start, replies) == l && Produced(replies) == produced
  }

  /** A turn whose tools ran for `tools` closes: with an answer, or given up at the cap. */
  ghost predicate Closes(tools: seq<Completion>, replies: seq<Completion>, last: MessageRow,
                         produced: seq<MessageRow>)
  {
    && |tools| <= MAX_TOOL_ITERATIONS
    && (forall k :: 0 <= k < |tools| ==> tools[k].toolCalls != [])
    && if replies == tools then
         |tools| == MAX_TOOL_ITERATIONS && last == GIVE_UP_ROW && produced == AssistantRows(tools) + [GIVE_UP_ROW]
       else
         && |replies| == |tools| + 1 <= MAX_TOOL_ITERATIONS && replies[..|tools|] == tools
         && replies[|tools|].toolCalls == []
         && last == AssistantRow(replies[|tools|]) && produced == AssistantRows(replies)
  }

  lemma AnswerCloses(tools: seq<Completion>, c: Completion)
    requires |tools| < MAX_TOOL_ITERATIONS && c.toolCalls == []
    requires forall k :: 0 <= k < |tools| ==> tools[k].toolCalls != []
    ensures Closes(tools, tools + [c], AssistantRow(c), AssistantRows(tools + [c]))
  {
  }

  lemma ClosedIsFinished(ctx: Context, start: Opening, tools: seq<Completion>, replies: seq<Completion>, l: Loop,
                         last: MessageRow, produced: seq<MessageRow>)
    requires Readable(start.state) && l == IterateAll(ctx, Start(start), tools)
          && Closes(tools, replies, last, produced)
    ensures replies != [] && Finished(ctx, start, replies, l, last, produced)
    ensures ToolReplies(replies) == tools && FinalRow(replies) == last
  {
    if replies == tools {
      CapEndsTurn(ctx, start, replies, l);
    } else {
      var c := AnswerThatCloses(tools, replies, last, produced);
      AnswerEndsTurn(ctx, start, tools, c, replies, l);
    }
  }

  lemma AnswerThatCloses(tools: seq<Completion>, replies: seq<Completion>, last: MessageRow, produced: seq<MessageRow>)
    returns (c: Completion)
    requires Closes(tools, replies, last, produced) && replies != tools
    ensures replies == tools + [c] && c.toolCalls == [] && |tools| < MAX_TOOL_ITERATIONS
    ensures forall k :: 0 <= k < |tools| ==> tools[k].toolCalls != []
    ensures last == AssistantRow(c) && produced == AssistantRows(replies)
  {
    c := replies[|tools|];
  }

  lemma AnswerEndsTurn(ctx: Context, start: Opening, tools: seq<Completion>, c: Completion, replies: seq<Completion>,
                       l: Loop)
    requires Readable(start.state) && l == IterateAll(ctx, Start(start), tools) && |tools| < MAX_TOOL_ITERATIONS
    requires c.toolCalls == [] && forall k :: 0 <= k < |tools| ==> tools[k].toolCalls != []
    requires replies == tools + [c]
    ensures Finished(ctx, start, replies, l, AssistantRow(c), AssistantRows(replies))
    ensures ToolReplies(replies) == tools && FinalRow(replies) == AssistantRow(c)
  {
  }

  lemma CapEndsTurn(ctx: Context, start: Opening, replies: seq<Completion>, l: Loop)
    requires Readable(start.state) && l == IterateAll(ctx, Start(start), replies) && |replies| == MAX_TOOL_ITERATIONS
    requires forall k :: 0 <= k < |replies| ==> replies[k].toolCalls != []
    ensures Finished(ctx, start, replies, l, GIVE_UP_ROW, AssistantRows(replies) + [GIVE_UP_ROW])
    ensures ToolReplies(replies) == replies && FinalRow(replies) == GIVE_UP_ROW
  {
  }

  const EMPTY_FRAME: Frame := Frame([], [])

  /** How a round ends: the provider failed, no working copy could be made, it answered, or it ran tools. */
  datatype Step = Down | NoSource(error: SourceError) | Done | Ran(list: seq<ChatMessage>, used: nat)

  /** The row that closes a turn whose tools ran for `tools`. */
  function LastRow(tools: seq<Completion>, replies: seq<Completion>): MessageRow {
    if |replies| > |tools| then AssistantRow(replies[|tools|]) else GIVE_UP_ROW
  }

  /** Why the loop stopped: the provider failed, there was no source, an answer, or the cap. */
  ghost predicate Stops(step: Step, provider: nat -> Reply, tools: seq<Completion>, replies: seq<Completion>,
                        source: Result<Frame, SourceError>, produced: seq<MessageRow>)
  {
    match step
    case Down => provider(|replies|).Err? && replies == tools
    case NoSource(error) => source == Err(error) && tools == []
    case Done => Closes(tools, replies, LastRow(tools, replies), produced)
    case Ran(_, _) =>
      && LastRow(tools, replies) == GIVE_UP_ROW
      && Closes(tools, replies, LastRow(tools, replies), produced + [GIVE_UP_ROW])
  }

  lemma CapCloses(replies: seq<Completion>)
    requires |replies| == MAX_TOOL_ITERATIONS && forall k :: 0 <= k < |replies| ==> replies[k].toolCalls != []
    ensures Closes(replies, replies, GIVE_UP_ROW, AssistantRows(replies) + [GIVE_UP_ROW])
  {
  }

  lemma AppendAssoc<T>(a: seq<T>, b: seq<T>, x: T)
    ensures (a + b) + [x] == a + (b + [x])
  {
  }

  function UserRow(content: string): MessageRow { MessageRow(UserRole, content, None, NoPayload) }

  function UserMessage(content: string): ChatMessage { ChatMessage(UserRole, content, [], None) }

  lemma UserTurnKeepsLog(rows: seq<MessageRow>, content: string)
    requires LogOk(rows)
    ensures LogOk(rows + [UserRow(content)])
         && History(rows + [UserRow(content)]) == History(rows) + [UserMessage(content)]
  {
    OneRow(UserRow(content), UserMessage(content));
    HistoryJoin(rows, [UserRow(content)]);
    PlainIsPaired(UserMessage(content));
    PairedMessagesJoin(History(rows), [UserMessage(content)]);
  }

  lemma SystemFirstIsPaired(rows: seq<MessageRow>, systemText: string)
    requires LogOk(rows)
    ensures PairedMessages([SystemMessage(systemText)] + History(rows))
  {
    PlainIsPaired(SystemMessage(systemText));
    PairedMessagesJoin([SystemMessage(systemText)], History(rows));
  }

  /** The first request is the list the turn started from. */
  lemma FirstRequest(ctx: Context, start: Opening, working: seq<ChatMessage>, forceFirst: bool, provider: nat -> Reply,
                     replies: seq<Completion>, requests: seq<Request>)
    requires Readable(start.state) && requests != []
    requires Conversed(ctx, start, working, forceFirst, provider, replies, requests)
    ensures requests[0] == Request(working, forceFirst)
  {
    assert working + [] == working;
  }
}
