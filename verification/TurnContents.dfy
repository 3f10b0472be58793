/** What a turn writes: every row and message by its own text, calls and answers. */
module TurnContents {
  import opened Wrappers
  import opened Frames
  import opened Operations
  import opened Dispatcher
  import opened Journal
  import opened Chat
  import opened SuggestionsReading
  import opened AgentTurn
  import opened Turns
  import opened Conversation

  // ---- what is written ----------------------------------------------------

  /** The row of a reply: its calls, the chips it offers, and what it says, with a placeholder only for nothing. */
  ghost predicate ReplyRow(c: Completion, row: MessageRow) {
    && row.role == AssistantRole && row.payload == (if c.toolCalls == [] then NoPayload else Calls(c.toolCalls))
    && exists said :: Says(c.text, said, row.suggestions) && row.content == if said == "" then EMPTY_REPLY else said
  }

  /** The message of a reply: its calls, and what it says. */
  ghost predicate ReplyMessage(c: Completion, m: ChatMessage) {
    && m.role == AssistantRole && m.toolCalls == c.toolCalls && m.toolUseId == None
    && exists chips :: Says(c.text, m.content, chips)
  }

  /** The working copy after these calls, run one after the other with the tickets from `u` on. */
  function After(ctx: Context, s: State, u: nat, calls: seq<ToolCall>): (r: State)
    requires Readable(s)
    ensures Readable(r)
  {
    if calls == [] then s else
      var n := |calls| - 1;
      Run(ctx.lib, After(ctx, s, u, calls[..n]), ctx.tickets(u + n), calls[n].name, calls[n].args)
  }

  /** The text of call `i`'s outcome on the working copy that the calls before it left. */
  function AnswerText(ctx: Context, s: State, u: nat, calls: seq<ToolCall>, i: nat): string
    requires Readable(s) && i < |calls|
  {
    ctx.render(RunOutcome(ctx.lib, After(ctx, s, u, calls[..i]), calls[i].name, calls[i].args))
  }

  /** Row and message of call `i` hold that text, under the call's id. */
  ghost predicate AnsweredAt(ctx: Context, s: State, u: nat, calls: seq<ToolCall>, i: nat, row: MessageRow,
                             m: ChatMessage)
    requires Readable(s) && i < |calls|
  {
    && row == MessageRow(SystemRole, AnswerText(ctx, s, u, calls, i), None, Answer(calls[i].id))
    && m == ChatMessage(ToolRole, AnswerText(ctx, s, u, calls, i), [], Some(calls[i].id))
  }

  ghost predicate AllAnswered(ctx: Context, s: State, u: nat, calls: seq<ToolCall>, rows: seq<MessageRow>,
                              turns: seq<ChatMessage>)
    requires Readable(s)
  {
    && |rows| == |turns| == |calls|
    && forall i :: 0 <= i < |calls| ==> AnsweredAt(ctx, s, u, calls, i, rows[i], turns[i])
  }

  /** One reply that calls tools, and their answers. */
  ghost predicate Recorded(ctx: Context, s: State, u: nat, c: Completion, rows: seq<MessageRow>,
                           turns: seq<ChatMessage>)
    requires Readable(s)
  {
    && rows != [] && turns != [] && ReplyRow(c, rows[0]) && ReplyMessage(c, turns[0])
    && AllAnswered(ctx, s, u, c.toolCalls, rows[1..], turns[1..])
  }

  /** One reply: the working copy and the tickets drawn before it, and what it adds to the log and to the list. */
  datatype Part = Part(before: State, used: nat, rows: seq<MessageRow>, turns: seq<ChatMessage>)

  /** The working copy and the tickets drawn behind it. */
  ghost predicate LeadsTo(ctx: Context, part: Part, c: Completion, after: State, used: nat) {
    && Readable(part.before)
    && after == After(ctx, part.before, part.used, c.toolCalls) && used == part.used + |c.toolCalls|
  }

  /** Part `k` is reply `k`, answered from the working copy that the reply before it left. */
  ghost predicate RecordedAt(ctx: Context, replies: seq<Completion>, parts: seq<Part>, k: nat)
    requires k < |replies| == |parts|
  {
    && Readable(parts[k].before)
    && Recorded(ctx, parts[k].before, parts[k].used, replies[k], parts[k].rows, parts[k].turns)
    && (k > 0 ==> LeadsTo(ctx, parts[k - 1], replies[k - 1], parts[k].before, parts[k].used))
  }

  /** One part per reply, the first from here, and all of them lead there. */
  ghost predicate AllRecorded(ctx: Context, s: State, u: nat, replies: seq<Completion>, parts: seq<Part>, s': State,
                              u': nat)
  {
    && EachRecorded(ctx, replies, parts)
    && if parts == [] then s' == s && u' == u
       else && parts[0].before == s && parts[0].used == u
            && LeadsTo(ctx, parts[|parts| - 1], replies[|replies| - 1], s', u')
  }

  function RowsOf(parts: seq<Part>): seq<MessageRow> {
    if parts == [] then [] else RowsOf(parts[..|parts| - 1]) + parts[|parts| - 1].rows
  }

  function TurnsOf(parts: seq<Part>): seq<ChatMessage> {
    if parts == [] then [] else TurnsOf(parts[..|parts| - 1]) + parts[|parts| - 1].turns
  }

  // ---- one reply ----------------------------------------------------------

  lemma ReplyIsRecorded(c: Completion)
    ensures ReplyRow(c, AssistantRow(c)) && ReplyMessage(c, AssistantTurn(c))
  {
    ParseSays(c.text);
  }

  /** One more call, after these. */
  lemma AnswersOneMore(ctx: Context, s: State, u: nat, calls: seq<ToolCall>, rows: seq<MessageRow>,
                       turns: seq<ChatMessage>, row: MessageRow, m: ChatMessage)
    requires Readable(s) && calls != []
    requires var n := |calls| - 1;
             AllAnswered(ctx, s, u, calls[..n], rows, turns) && AnsweredAt(ctx, s, u, calls, n, row, m)
    ensures AllAnswered(ctx, s, u, calls, rows + [row], turns + [m])
  {
    var n := |calls| - 1;
    forall i | 0 <= i < |calls| ensures AnsweredAt(ctx, s, u, calls, i, (rows + [row])[i], (turns + [m])[i]) {
      if i < n {
        assert calls[..n][..i] == calls[..i] && calls[..n][i] == calls[i];
        assert AnsweredAt(ctx, s, u, calls[..n], i, rows[i], turns[i]);
      }
    }
  }

  /** The loop stands in the state the calls so far left. */
  lemma {:induction false} CallsAreAnswered(ctx: Context, l: Loop, calls: seq<ToolCall>)
    returns (rows: seq<MessageRow>, turns: seq<ChatMessage>)
    requires Readable(l.state)
    ensures DispatchAll(ctx, l, calls).state == After(ctx, l.state, l.used, calls)
    ensures Grew(l, DispatchAll(ctx, l, calls), rows, turns, calls)
    ensures AllAnswered(ctx, l.state, l.used, calls, rows, turns)
  {
    rows, turns := [], [];
    if calls == [] {
      GrewNothing(l);
    } else {
      var n := |calls| - 1;
      rows, turns := CallsAreAnswered(ctx, l, calls[..n]);
      var row, m := CallIsAnswered(ctx, l, calls, DispatchAll(ctx, l, calls[..n]), rows, turns);
      AnswersOneMore(ctx, l.state, l.used, calls, rows, turns, row, m);
      rows, turns := rows + [row], turns + [m];
    }
  }

  lemma CallIsAnswered(ctx: Context, l: Loop, calls: seq<ToolCall>, before: Loop, rows: seq<MessageRow>,
                       turns: seq<ChatMessage>)
    returns (row: MessageRow, m: ChatMessage)
    requires Readable(l.state) && calls != [] && Readable(before.state)
    requires var n := |calls| - 1;
             before.state == After(ctx, l.state, l.used, calls[..n]) && Grew(l, before, rows, turns, calls[..n])
    ensures var n, r := |calls| - 1, DispatchOne(ctx, before, calls[|calls| - 1]);
            && AnsweredAt(ctx, l.state, l.used, calls, n, row, m)
            && r.state == After(ctx, l.state, l.used, calls) && Grew(l, r, rows + [row], turns + [m], calls)
  {
    var n := |calls| - 1;
    var text := AnswerText(ctx, l.state, l.used, calls, n);
    row := MessageRow(SystemRole, text, None, Answer(calls[n].id));
    m := ChatMessage(ToolRole, text, [], Some(calls[n].id));
    assert calls == calls[..n] + [calls[n]];
    GrewTwice(l, before, DispatchOne(ctx, before, calls[n]), rows, turns, calls[..n], [row], [m], [calls[n]]);
  }

  /** One iteration records its reply. */
  lemma IterationRecords(ctx: Context, l: Loop, c: Completion)
    returns (rows: seq<MessageRow>, turns: seq<ChatMessage>)
    requires Readable(l.state)
    ensures Iterate(ctx, l, c).state == After(ctx, l.state, l.used, c.toolCalls)
    ensures Grew(l, Iterate(ctx, l, c), rows, turns, c.toolCalls)
    ensures Recorded(ctx, l.state, l.used, c, rows, turns)
  {
    var mid := WithAssistant(l, c);
    var answerRows, answers := CallsAreAnswered(ctx, mid, c.toolCalls);
    GrewTwice(l, mid, Iterate(ctx, l, c), [AssistantRow(c)], [AssistantTurn(c)], [], answerRows, answers, c.toolCalls);
    assert [] + c.toolCalls == c.toolCalls;
    ReplyIsRecorded(c);
    rows, turns := [AssistantRow(c)] + answerRows, [AssistantTurn(c)] + answers;
    assert rows[1..] == answerRows && turns[1..] == answers;
  }

  // ---- a whole turn -------------------------------------------------------

  lemma PartsOneMore(parts: seq<Part>, part: Part)
    ensures RowsOf(parts + [part]) == RowsOf(parts) + part.rows
    ensures TurnsOf(parts + [part]) == TurnsOf(parts) + part.turns
  {
    assert (parts + [part])[..|parts|] == parts;
  }

  lemma StaysRecorded(ctx: Context, replies: seq<Completion>, parts: seq<Part>, k: nat, c: Completion, part: Part)
    requires k < |replies| == |parts| && RecordedAt(ctx, replies, parts, k)
    ensures RecordedAt(ctx, replies + [c], parts + [part], k)
  {
  }

  lemma NewIsRecorded(ctx: Context, replies: seq<Completion>, parts: seq<Part>, c: Completion, part: Part)
    requires |replies| == |parts| && Readable(part.before)
    requires Recorded(ctx, part.before, part.used, c, part.rows, part.turns)
    requires parts != [] ==> LeadsTo(ctx, parts[|parts| - 1], replies[|replies| - 1], part.before, part.used)
    ensures RecordedAt(ctx, replies + [c], parts + [part], |replies|)
  {
  }

  ghost predicate EachRecorded(ctx: Context, replies: seq<Completion>, parts: seq<Part>) {
    |parts| == |replies| && forall k :: 0 <= k < |replies| ==> RecordedAt(ctx, replies, parts, k)
  }

  lemma EachOneMore(ctx: Context, replies: seq<Completion>, parts: seq<Part>, c: Completion, part: Part)
    requires EachRecorded(ctx, replies, parts) && Readable(part.before)
    requires Recorded(ctx, part.before, part.used, c, part.rows, part.turns)
    requires parts != [] ==> LeadsTo(ctx, parts[|parts| - 1], replies[|replies| - 1], part.before, part.used)
    ensures EachRecorded(ctx, replies + [c], parts + [part])
  {
    NewIsRecorded(ctx, replies, parts, c, part);
    forall k | 0 <= k < |replies + [c]| ensures RecordedAt(ctx, replies + [c], parts + [part], k) {
      if k < |replies| { StaysRecorded(ctx, replies, parts, k, c, part); }
    }
  }

  lemma RecordsOneMore(ctx: Context, s: State, u: nat, replies: seq<Completion>, parts: seq<Part>, s': State, u': nat,
                       c: Completion, part: Part, s'': State, u'': nat)
    requires AllRecorded(ctx, s, u, replies, parts, s', u') && LeadsTo(ctx, part, c, s'', u'')
    requires part.before == s' && part.used == u' && Recorded(ctx, part.before, part.used, c, part.rows, part.turns)
    ensures AllRecorded(ctx, s, u, replies + [c], parts + [part], s'', u'')
  {
    EachOneMore(ctx, replies, parts, c, part);
    assert (parts + [part])[|parts|] == part && (replies + [c])[|replies|] == c;
  }

  /** The loop stands where these parts lead. */
  ghost predicate Wrote(ctx: Context, l: Loop, replies: seq<Completion>, r: Loop, parts: seq<Part>) {
    && Grew(l, r, RowsOf(parts), TurnsOf(parts), AllCalls(replies))
    && AllRecorded(ctx, l.state, l.used, replies, parts, r.state, r.used)
  }

  lemma CallsOneMore(replies: seq<Completion>, c: Completion)
    ensures AllCalls(replies + [c]) == AllCalls(replies) + c.toolCalls
  {
    assert (replies + [c])[..|replies|] == replies;
  }

  lemma IterationFollows(ctx: Context, l: Loop, replies: seq<Completion>, m: Loop, parts: seq<Part>, c: Completion)
    returns (part: Part)
    requires Readable(m.state) && Wrote(ctx, l, replies, m, parts)
    ensures Wrote(ctx, l, replies + [c], Iterate(ctx, m, c), parts + [part])
  {
    var rows, turns := IterationRecords(ctx, m, c);
    var r := Iterate(ctx, m, c);
    part := Part(m.state, m.used, rows, turns);
    CallsOneMore(replies, c);
    GrewTwice(l, m, r, RowsOf(parts), TurnsOf(parts), AllCalls(replies), rows, turns, c.toolCalls);
    PartsOneMore(parts, part);
    RecordsOneMore(ctx, l.state, l.used, replies, parts, m.state, m.used, c, part, r.state, r.used);
  }

  lemma LastFollows(ctx: Context, l: Loop, replies: seq<Completion>, m: Loop, parts: seq<Part>) returns (part: Part)
    requires Readable(m.state) && replies != [] && Wrote(ctx, l, replies[..|replies| - 1], m, parts)
    ensures Wrote(ctx, l, replies, Iterate(ctx, m, replies[|replies| - 1]), parts + [part])
  {
    assert replies == replies[..|replies| - 1] + [replies[|replies| - 1]];
    part := IterationFollows(ctx, l, replies[..|replies| - 1], m, parts, replies[|replies| - 1]);
  }

  lemma NothingWritten(ctx: Context, l: Loop)
    ensures Wrote(ctx, l, [], l, [])
  {
    GrewNothing(l);
  }

  /** Any number of iterations records every reply, in order. */
  lemma {:induction false} IterationsRecord(ctx: Context, l: Loop, replies: seq<Completion>) returns (parts: seq<Part>)
    requires Readable(l.state)
    ensures Wrote(ctx, l, replies, IterateAll(ctx, l, replies), parts)
  {
    parts := [];
    if replies == [] {
      NothingWritten(ctx, l);
    } else {
      var n := |replies| - 1;
      parts := IterationsRecord(ctx, l, replies[..n]);
      var part := LastFollows(ctx, l, replies, IterateAll(ctx, l, replies[..n]), parts);
      parts := parts + [part];
    }
  }

  // ---- what a turn leaves and sends ---------------------------------------

  function Asked(kind: Kind): seq<MessageRow> {
    match kind
    case Message(content) => [MessageRow(UserRole, content, None, NoPayload)]
    case Kickoff(_) => []
  }

  /** The answer; or, after the cap, the message that gives up. */
  ghost predicate ClosingRow(replies: seq<Completion>, row: MessageRow) {
    && replies != []
    && if replies[|replies| - 1].toolCalls == [] then ReplyRow(replies[|replies| - 1], row)
       else row == MessageRow(AssistantRole, GIVE_UP, None, NoPayload)
  }

  /** The rows handed back: one for each reply, and the message that gives up if the last one still called tools. */
  ghost predicate HandedBack(replies: seq<Completion>, rows: seq<MessageRow>) {
    && replies != [] && rows != [] && ClosingRow(replies, rows[|rows| - 1])
    && |rows| == |replies| + (if replies[|replies| - 1].toolCalls == [] then 0 else 1)
    && forall k :: 0 <= k < |replies| ==> ReplyRow(replies[k], rows[k])
  }

  /** The log grew by the user's message, each reply with its answers, and the closing row; the working copy is what the
      calls left. */
  ghost predicate Kept(ctx: Context, d: Desk, t: Turn, d': Desk, parts: seq<Part>, last: MessageRow, left: State) {
    var o := Opens(ctx, d, t.source);
    && AllRecorded(ctx, o.state, o.drawn, t.tools, parts, left, d'.drawn)
    && (t.tools != [] ==> d'.copy == Some(left.copy) && d'.journal == left.journal && d'.files == left.snapshots)
    && d'.rows == d.rows + (Asked(t.kind) + (RowsOf(parts) + [last])) && ClosingRow(t.replies, last)
    && t.result.Ok? && HandedBack(t.replies, t.result.value)
  }

  /** A completed turn loses no text, no call and no answer. */
  ghost predicate Keeps(ctx: Context, d: Desk, t: Turn, d': Desk) {
    exists parts, last, left :: Kept(ctx, d, t, d', parts, last, left)
  }

  lemma GiveUpRow()
    ensures GIVE_UP_ROW == MessageRow(AssistantRole, GIVE_UP, None, NoPayload)
  {
  }

  lemma FinalRowCloses(replies: seq<Completion>)
    requires replies != []
    ensures ClosingRow(replies, FinalRow(replies))
  {
    ReplyIsRecorded(replies[|replies| - 1]);
    GiveUpRow();
  }

  lemma RowsHandedBack(replies: seq<Completion>)
    ensures ReplyRows(replies, AssistantRows(replies))
  {
    forall k | 0 <= k < |replies| ensures ReplyRow(replies[k], AssistantRows(replies)[k]) {
      ReplyIsRecorded(replies[k]);
    }
  }

  /** These rows are the replies', one each. */
  ghost predicate ReplyRows(replies: seq<Completion>, rows: seq<MessageRow>) {
    |rows| == |replies| && forall k :: 0 <= k < |replies| ==> ReplyRow(replies[k], rows[k])
  }

  lemma AnswersHandedBack(replies: seq<Completion>, rows: seq<MessageRow>)
    requires replies != [] && ReplyRows(replies, rows) && replies[|replies| - 1].toolCalls == []
    ensures HandedBack(replies, rows)
  {
    assert ReplyRow(replies[|replies| - 1], rows[|replies| - 1]);
  }

  lemma GivenUpHandedBack(replies: seq<Completion>, rows: seq<MessageRow>, last: MessageRow)
    requires replies != [] && ReplyRows(replies, rows) && replies[|replies| - 1].toolCalls != []
    requires ClosingRow(replies, last)
    ensures HandedBack(replies, rows + [last])
  {
    var all := rows + [last];
    assert all[|all| - 1] == last;
    forall k | 0 <= k < |replies| ensures ReplyRow(replies[k], all[k]) {
      assert all[k] == rows[k];
    }
  }

  lemma ProducedIsHandedBack(replies: seq<Completion>)
    requires replies != []
    ensures HandedBack(replies, Produced(replies))
  {
    RowsHandedBack(replies);
    FinalRowCloses(replies);
    if EndsInAnswer(replies) {
      AnswersHandedBack(replies, AssistantRows(replies));
    } else {
      GivenUpHandedBack(replies, AssistantRows(replies), GIVE_UP_ROW);
    }
  }

  lemma PendingIsAsked(rows: seq<MessageRow>, kind: Kind, more: seq<MessageRow>)
    ensures PendingRows(rows, kind) + more == rows + (Asked(kind) + more)
  {
  }

  /** What a completed turn leaves: the log grows by the user's row, each reply by its own text, chips and calls, each
      answer by the outcome of its call on the working copy the calls before it left, and the closing row. */
  lemma TurnKeeps(ctx: Context, d: Desk, t: Turn, d': Desk)
    requires TurnStep(ctx, d, t, d') && t.result.Ok?
    ensures Keeps(ctx, d, t, d')
  {
    var o := Opens(ctx, d, t.source);
    var parts := IterationsRecord(ctx, Start(o), t.tools);
    var l := IterateAll(ctx, Start(o), t.tools);
    FinalRowCloses(t.replies);
    ProducedIsHandedBack(t.replies);
    assert [] + RowsOf(parts) == RowsOf(parts);
    PendingIsAsked(d.rows, t.kind, RowsOf(parts) + [FinalRow(t.replies)]);
    assert Kept(ctx, d, t, d', parts, FinalRow(t.replies), l.state);
  }

  /** The list a turn starts from. */
  function Opened(d: Desk, t: Turn): seq<ChatMessage> {
    match t.kind
    case Message(content) =>
      [ChatMessage(SystemRole, t.systemText, [], None)] + (History(d.rows) + [ChatMessage(UserRole, content, [], None)])
    case Kickoff(trigger) =>
      [ChatMessage(SystemRole, t.systemText, [], None), ChatMessage(UserRole, trigger, [], None)]
  }

  lemma FirstListIsOpened(d: Desk, t: Turn)
    requires LogOk(d.rows)
    ensures FirstList(d.rows, t.kind, t.systemText) == Opened(d, t)
  {
    if t.kind.Message? { UserTurnKeepsLog(d.rows, t.kind.content); }
  }

  lemma ListCarries(ctx: Context, o: Opening, working: seq<ChatMessage>, replies: seq<Completion>, k: nat)
    returns (parts: seq<Part>, left: State, u: nat)
    requires Readable(o.state) && k <= |replies|
    ensures AllRecorded(ctx, o.state, o.drawn, replies[..k], parts, left, u)
    ensures ListAfter(ctx, o, working, replies, k) == working + TurnsOf(parts)
  {
    parts := IterationsRecord(ctx, Start(o), replies[..k]);
    var l := IterateAll(ctx, Start(o), replies[..k]);
    left, u := l.state, l.used;
    assert [] + TurnsOf(parts) == TurnsOf(parts);
  }

  /** Request `k` of a turn, completed or failed: the list it started from, then each of the first `k` replies with its
      answers. */
  lemma RequestCarries(ctx: Context, d: Desk, t: Turn, d': Desk, k: nat) returns (parts: seq<Part>, left: State, u: nat)
    requires LogOk(d.rows) && TurnStep(ctx, d, t, d') && k < |t.requests|
    ensures k <= |t.replies| && var o := Opens(ctx, d, t.source);
            AllRecorded(ctx, o.state, o.drawn, t.replies[..k], parts, left, u)
    ensures t.requests[k] == Request(Opened(d, t) + TurnsOf(parts), t.kind.Message? && k == 0)
  {
    FirstListIsOpened(d, t);
    parts, left, u := ListCarries(ctx, Opens(ctx, d, t.source), Opened(d, t), t.replies, k);
  }

  // ---- the rebuilt list ---------------------------------------------------

  /** The message says what the row says, with its calls or its answer's id. */
  ghost predicate SameTurn(row: MessageRow, m: ChatMessage) {
    && m.content == row.content
    && m.role == (if row.role == SystemRole then ToolRole else row.role)
    && m.toolCalls == (if row.role != SystemRole && row.payload.Calls? then row.payload.calls else [])
    && m.toolUseId == if row.role == SystemRole && row.payload.Answer? then Some(row.payload.toolUseId) else None
  }

  /** A committed log is rebuilt message by message. */
  lemma {:induction false} HistoryReads(rows: seq<MessageRow>)
    requires forall i :: 0 <= i < |rows| ==> RowOk(rows[i])
    ensures |History(rows)| == |rows| && forall i :: 0 <= i < |rows| ==> SameTurn(rows[i], History(rows)[i])
  {
    if rows != [] {
      var n := |rows| - 1;
      HistoryReads(rows[..n]);
      assert RowOk(rows[n]);
    }
  }
}
