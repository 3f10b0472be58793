/** One agent turn as values: what each provider reply adds to the log, the message list and the working copy. */
module AgentTurn {
  import opened Wrappers
  import opened Operations
  import opened Dispatcher
  import opened Journal
  import opened Chat
  import opened Suggestions
  import ParseDates

  const MAX_TOOL_ITERATIONS: nat := 12

  const EMPTY_REPLY: string := "(respuesta vac\U{ed}a del modelo)"

  const GIVE_UP: string :=
    "Estoy dando muchas vueltas para resolver esto. \U{bf}Me cuentas con m\U{e1}s detalle qu\U{e9} quieres hacer?"

  /** What a provider call returns: text, and the tools it wants to call. */
  datatype Completion = Completion(text: string, toolCalls: seq<ToolCall>)

  /** Everything the loop takes as given: the date parser, the JSON text of a tool's outcome, fresh ids, paths and
      times. */
  datatype Context = Context(lib: ParseDates.Strptime, render: Outcome -> string, tickets: nat -> Ticket)

  function AssistantRow(c: Completion): MessageRow {
    var (cleaned, suggestions) := ParseSuggestions(c.text);
    MessageRow(AssistantRole, if cleaned == "" then EMPTY_REPLY else cleaned, suggestions,
               if c.toolCalls == [] then NoPayload else Calls(c.toolCalls))
  }

  function AssistantTurn(c: Completion): ChatMessage {
    ChatMessage(AssistantRole, ParseSuggestions(c.text).0, c.toolCalls, None)
  }

  const GIVE_UP_ROW: MessageRow := MessageRow(AssistantRole, GIVE_UP, None, NoPayload)

  function ToolRow(call: ToolCall, text: string): MessageRow { MessageRow(SystemRole, text, None, Answer(call.id)) }

  function ToolTurn(call: ToolCall, text: string): ChatMessage { ChatMessage(ToolRole, text, [], Some(call.id)) }

  /** The working copy, the tickets drawn, the rows persisted, the messages appended and the calls dispatched so far. */
  datatype Loop = Loop(state: State, used: nat, log: seq<MessageRow>, added: seq<ChatMessage>,
                       dispatched: seq<ToolCall>)

  function OutcomeOf(ctx: Context, l: Loop, call: ToolCall): Outcome
    requires Readable(l.state)
  {
    RunOutcome(ctx.lib, l.state, call.name, call.args)
  }

  /** Run one tool call and record its answer in the log and in the list. */
  function DispatchOne(ctx: Context, l: Loop, call: ToolCall): (r: Loop)
    requires Readable(l.state)
    ensures Readable(r.state)
  {
    var text := ctx.render(OutcomeOf(ctx, l, call));
    Loop(Run(ctx.lib, l.state, ctx.tickets(l.used), call.name, call.args), l.used + 1,
         l.log + [ToolRow(call, text)], l.added + [ToolTurn(call, text)], l.dispatched + [call])
  }

  function DispatchAll(ctx: Context, l: Loop, calls: seq<ToolCall>): (r: Loop)
    requires Readable(l.state)
    ensures Readable(r.state)
  {
    if calls == [] then l else DispatchOne(ctx, DispatchAll(ctx, l, calls[..|calls| - 1]), calls[|calls| - 1])
  }

  function WithAssistant(l: Loop, c: Completion): Loop {
    l.(log := l.log + [AssistantRow(c)], added := l.added + [AssistantTurn(c)])
  }

  /** One iteration whose reply calls tools. */
  function Iterate(ctx: Context, l: Loop, c: Completion): (r: Loop)
    requires Readable(l.state)
    ensures Readable(r.state)
  {
    DispatchAll(ctx, WithAssistant(l, c), c.toolCalls)
  }

  function IterateAll(ctx: Context, l: Loop, replies: seq<Completion>): (r: Loop)
    requires Readable(l.state)
    ensures Readable(r.state)
  {
    if replies == [] then l else Iterate(ctx, IterateAll(ctx, l, replies[..|replies| - 1]), replies[|replies| - 1])
  }

  /** Where a turn starts: the working copy its first tool call finds or makes, and the number of tickets drawn
      before. */
  datatype Opening = Opening(state: State, drawn: nat)

  function Start(o: Opening): Loop { Loop(o.state, o.drawn, [], [], []) }

  function AllCalls(replies: seq<Completion>): seq<ToolCall> {
    if replies == [] then [] else AllCalls(replies[..|replies| - 1]) + replies[|replies| - 1].toolCalls
  }

  /** The calls among these that change the working copy: mutating, and not refused. */
  function Mutations(ctx: Context, l: Loop, calls: seq<ToolCall>): seq<ToolCall>
    requires Readable(l.state)
  {
    if calls == [] then [] else
      var n := |calls| - 1;
      var front := Mutations(ctx, l, calls[..n]);
      if IsMutating(calls[n].name) && OutcomeOf(ctx, DispatchAll(ctx, l, calls[..n]), calls[n]).Ok?
      then front + [calls[n]] else front
  }

  // ---- the log and the list -----------------------------------------------

  /** The placeholder the log keeps for an empty assistant text. */
  function Canon(m: ChatMessage): ChatMessage {
    if m.role == AssistantRole && m.content == "" then m.(content := EMPTY_REPLY) else m
  }

  function CanonAll(messages: seq<ChatMessage>): seq<ChatMessage> {
    seq(|messages|, i requires 0 <= i < |messages| => Canon(messages[i]))
  }

  ghost predicate RowOk(row: MessageRow) {
    match row.role
    case SystemRole => row.payload.Answer?
    case UserRole => row.payload.NoPayload?
    case AssistantRole => row.content != "" && !row.payload.Answer?
    case ToolRole => false
  }

  /** A committed log: no row is lost when the list is rebuilt, no assistant text is empty, and calls are paired. */
  ghost predicate LogOk(rows: seq<MessageRow>) {
    (forall i :: 0 <= i < |rows| ==> RowOk(rows[i])) && PairedMessages(History(rows))
  }

  /** `r` is `l` with these rows, messages and calls added. */
  ghost predicate Grew(l: Loop, r: Loop, rows: seq<MessageRow>, turns: seq<ChatMessage>, calls: seq<ToolCall>) {
    && r.log == l.log + rows && r.added == l.added + turns
    && r.dispatched == l.dispatched + calls && r.used == l.used + |calls|
  }

  lemma GrewTwice(l: Loop, m: Loop, r: Loop, rows: seq<MessageRow>, turns: seq<ChatMessage>, calls: seq<ToolCall>,
                  rows': seq<MessageRow>, turns': seq<ChatMessage>, calls': seq<ToolCall>)
    requires Grew(l, m, rows, turns, calls) && Grew(m, r, rows', turns', calls')
    ensures Grew(l, r, rows + rows', turns + turns', calls + calls')
  {
    assert (l.log + rows) + rows' == l.log + (rows + rows');
    assert (l.added + turns) + turns' == l.added + (turns + turns');
    assert (l.dispatched + calls) + calls' == l.dispatched + (calls + calls');
  }

  lemma GrewNothing(l: Loop)
    ensures Grew(l, l, [], [], [])
  {
    assert l.log + [] == l.log && l.added + [] == l.added && l.dispatched + [] == l.dispatched;
  }

  /** Rows and messages that answer these calls, one each, in order. */
  ghost predicate Answered(rows: seq<MessageRow>, turns: seq<ChatMessage>, calls: seq<ToolCall>) {
    && |rows| == |turns| == |calls|
    && History(rows) == turns == CanonAll(turns)
    && Shapes(turns) == AnswersTo(Ids(calls))
    && (forall i :: 0 <= i < |rows| ==> rows[i].role == SystemRole && RowOk(rows[i]))
  }

  lemma AnsweredOneMore(rows: seq<MessageRow>, turns: seq<ChatMessage>, calls: seq<ToolCall>, call: ToolCall,
                        text: string)
    requires Answered(rows, turns, calls)
    ensures Answered(rows + [ToolRow(call, text)], turns + [ToolTurn(call, text)], calls + [call])
  {
    assert (rows + [ToolRow(call, text)])[..|rows|] == rows;
    assert Ids(calls + [call]) == Ids(calls) + [call.id];
    assert AnswersTo(Ids(calls + [call])) == AnswersTo(Ids(calls)) + [Answers(call.id)];
  }

  lemma {:induction false} DispatchAllLog(ctx: Context, l: Loop, calls: seq<ToolCall>)
      returns (rows: seq<MessageRow>, turns: seq<ChatMessage>)
    requires Readable(l.state)
    ensures Grew(l, DispatchAll(ctx, l, calls), rows, turns, calls) && Answered(rows, turns, calls)
  {
    rows, turns := [], [];
    if calls == [] {
      GrewNothing(l);
    } else {
      var n := |calls| - 1;
      rows, turns := DispatchAllLog(ctx, l, calls[..n]);
      var m := DispatchAll(ctx, l, calls[..n]);
      var text := ctx.render(OutcomeOf(ctx, m, calls[n]));
      GrewTwice(l, m, DispatchOne(ctx, m, calls[n]), rows, turns, calls[..n],
                [ToolRow(calls[n], text)], [ToolTurn(calls[n], text)], [calls[n]]);
      AnsweredOneMore(rows, turns, calls[..n], calls[n], text);
      assert calls == calls[..n] + [calls[n]];
      rows, turns := rows + [ToolRow(calls[n], text)], turns + [ToolTurn(calls[n], text)];
    }
  }

  lemma AsksThenAnswers(c: Completion, turns: seq<ChatMessage>)
    requires c.toolCalls != [] && Shapes(turns) == AnswersTo(Ids(c.toolCalls))
    ensures PairedMessages([AssistantTurn(c)] + turns)
  {
    var shapes := Shapes([AssistantTurn(c)] + turns);
    assert shapes[1..] == Shapes(turns);
    assert shapes[1 + |c.toolCalls|..] == [];
  }

  lemma OneRow(row: MessageRow, m: ChatMessage)
    requires RowMessage(row) == Some(m)
    ensures History([row]) == [m]
  {
    assert [row][..0] == [];
  }

  /** Rows that rebuild to these messages up to the placeholder, paired, with `n` assistant rows. */
  ghost predicate Segment(rows: seq<MessageRow>, turns: seq<ChatMessage>, n: nat) {
    && History(rows) == CanonAll(turns) && PairedMessages(turns)
    && (forall i :: 0 <= i < |rows| ==> RowOk(rows[i]))
    && CountAssistant(rows) == n
  }

  lemma SegmentJoin(rows: seq<MessageRow>, turns: seq<ChatMessage>, n: nat,
                    rows': seq<MessageRow>, turns': seq<ChatMessage>, n': nat)
    requires Segment(rows, turns, n) && Segment(rows', turns', n')
    ensures Segment(rows + rows', turns + turns', n + n')
  {
    HistoryJoin(rows, rows');
    CountAssistantJoin(rows, rows');
    PairedMessagesJoin(turns, turns');
    assert CanonAll(turns + turns') == CanonAll(turns) + CanonAll(turns');
  }

  lemma IterationIsSegment(c: Completion, rows: seq<MessageRow>, turns: seq<ChatMessage>)
    requires c.toolCalls != [] && Answered(rows, turns, c.toolCalls)
    ensures Segment([AssistantRow(c)] + rows, [AssistantTurn(c)] + turns, 1)
  {
    OneRow(AssistantRow(c), Canon(AssistantTurn(c)));
    HistoryJoin([AssistantRow(c)], rows);
    AsksThenAnswers(c, turns);
    assert CanonAll([AssistantTurn(c)] + turns) == [Canon(AssistantTurn(c))] + CanonAll(turns);
    OneAssistant([AssistantRow(c)] + rows);
  }

  /** One iteration adds an assistant turn and its answers, to the log and to the list alike. */
  lemma IterateLog(ctx: Context, l: Loop, c: Completion) returns (rows: seq<MessageRow>, turns: seq<ChatMessage>)
    requires Readable(l.state) && c.toolCalls != []
    ensures Grew(l, Iterate(ctx, l, c), rows, turns, c.toolCalls) && Segment(rows, turns, 1)
  {
    var toolRows, answers := DispatchAllLog(ctx, WithAssistant(l, c), c.toolCalls);
    GrewTwice(l, WithAssistant(l, c), Iterate(ctx, l, c), [AssistantRow(c)], [AssistantTurn(c)], [],
              toolRows, answers, c.toolCalls);
    assert [] + c.toolCalls == c.toolCalls;
    IterationIsSegment(c, toolRows, answers);
    rows, turns := [AssistantRow(c)] + toolRows, [AssistantTurn(c)] + answers;
  }

  lemma CanonShapes(messages: seq<ChatMessage>)
    ensures Shapes(CanonAll(messages)) == Shapes(messages)
  {
  }

  function CountAssistant(rows: seq<MessageRow>): nat {
    if rows == [] then 0
    else CountAssistant(rows[..|rows| - 1]) + if rows[|rows| - 1].role == AssistantRole then 1 else 0
  }

  lemma {:induction false} CountAssistantJoin(a: seq<MessageRow>, b: seq<MessageRow>)
    ensures CountAssistant(a + b) == CountAssistant(a) + CountAssistant(b)
  {
    if b == [] {
      assert a + b == a;
    } else {
      assert (a + b)[..|a + b| - 1] == a + b[..|b| - 1];
      CountAssistantJoin(a, b[..|b| - 1]);
    }
  }

  lemma {:induction false} NoAssistant(rows: seq<MessageRow>)
    requires forall i :: 0 <= i < |rows| ==> rows[i].role != AssistantRole
    ensures CountAssistant(rows) == 0
  {
    if rows != [] { NoAssistant(rows[..|rows| - 1]); }
  }

  /** Any number of iterations: the rows rebuild to the list (up to the placeholder), calls stay paired,
      every call is dispatched once and in order, and each reply has one assistant row. */
  lemma {:induction false} IterationsLog(ctx: Context, l: Loop, replies: seq<Completion>)
      returns (rows: seq<MessageRow>, turns: seq<ChatMessage>)
    requires Readable(l.state) && forall k :: 0 <= k < |replies| ==> replies[k].toolCalls != []
    ensures Grew(l, IterateAll(ctx, l, replies), rows, turns, AllCalls(replies))
    ensures Segment(rows, turns, |replies|)
  {
    if replies == [] {
      NothingYet(l);
      rows, turns := [], [];
    } else {
      rows, turns := IterationsLog(ctx, l, replies[..|replies| - 1]);
      rows, turns := IterationsStep(ctx, l, replies, rows, turns);
    }
  }

  lemma NothingYet(l: Loop)
    ensures Grew(l, l, [], [], []) && Segment([], [], 0)
  {
    GrewNothing(l);
  }

  lemma IterationsStep(ctx: Context, l: Loop, replies: seq<Completion>, rows: seq<MessageRow>, turns: seq<ChatMessage>)
      returns (rows': seq<MessageRow>, turns': seq<ChatMessage>)
    requires Readable(l.state) && replies != [] && replies[|replies| - 1].toolCalls != []
    requires var front := replies[..|replies| - 1];
             Grew(l, IterateAll(ctx, l, front), rows, turns, AllCalls(front)) && Segment(rows, turns, |front|)
    ensures Grew(l, IterateAll(ctx, l, replies), rows', turns', AllCalls(replies)) && Segment(rows', turns', |replies|)
  {
    var n := |replies| - 1;
    rows', turns' := OneMoreIteration(ctx, l, IterateAll(ctx, l, replies[..n]), replies[n], rows, turns,
        AllCalls(replies[..n]), n);
  }

  lemma OneMoreIteration(ctx: Context, l: Loop, m: Loop, c: Completion,
                         rows: seq<MessageRow>, turns: seq<ChatMessage>, calls: seq<ToolCall>, n: nat)
      returns (rows': seq<MessageRow>, turns': seq<ChatMessage>)
    requires Readable(m.state) && c.toolCalls != [] && Grew(l, m, rows, turns, calls) && Segment(rows, turns, n)
    ensures Grew(l, Iterate(ctx, m, c), rows', turns', calls + c.toolCalls) && Segment(rows', turns', n + 1)
  {
    var moreRows, moreTurns := IterateLog(ctx, m, c);
    GrewTwice(l, m, Iterate(ctx, m, c), rows, turns, calls, moreRows, moreTurns, c.toolCalls);
    SegmentJoin(rows, turns, n, moreRows, moreTurns, 1);
    rows', turns' := rows + moreRows, turns + moreTurns;
  }

  lemma OneAssistant(rows: seq<MessageRow>)
    requires rows != [] && forall i :: 0 <= i < |rows| ==> (rows[i].role == AssistantRole <==> i == 0)
    ensures CountAssistant(rows) == 1
  {
    assert rows == [rows[0]] + rows[1..];
    CountAssistantJoin([rows[0]], rows[1..]);
    NoAssistant(rows[1..]);
    assert [rows[0]][..0] == [];
  }

  // ---- the working copy over a turn ---------------------------------------

  /** Tickets from number `u` on: fresh now, and distinct and later one after the other. */
  ghost predicate TicketsReady(s: State, tickets: nat -> Ticket, u: nat) {
    && (forall i: nat :: u <= i ==> Fresh(s, tickets(i)))
    && (forall i: nat, j: nat :: u <= i < j ==>
          tickets(i).path != tickets(j).path && tickets(i).id != tickets(j).id && tickets(i).now < tickets(j).now)
  }

  /** Each dispatched call keeps the journal invariant and leaves the remaining tickets fresh. */
  lemma {:induction false} DispatchKeepsJournal(ctx: Context, l: Loop, calls: seq<ToolCall>, origin: Path)
    requires Inv(ctx.lib, l.state, origin) && TicketsReady(l.state, ctx.tickets, l.used)
    ensures var r := DispatchAll(ctx, l, calls);
            && Inv(ctx.lib, r.state, origin) && Extends(l.state, r.state)
            && TicketsReady(r.state, ctx.tickets, r.used) && r.used == l.used + |calls|
  {
    if calls != [] {
      var n := |calls| - 1;
      DispatchKeepsJournal(ctx, l, calls[..n], origin);
      TicketSpent(ctx, DispatchAll(ctx, l, calls[..n]), calls[n], origin);
    }
  }

  lemma TicketSpent(ctx: Context, l: Loop, call: ToolCall, origin: Path)
    requires Inv(ctx.lib, l.state, origin) && TicketsReady(l.state, ctx.tickets, l.used)
    ensures var r := DispatchOne(ctx, l, call);
            Inv(ctx.lib, r.state, origin) && Extends(l.state, r.state) && TicketsReady(r.state, ctx.tickets, r.used)
  {
    var t, r := ctx.tickets(l.used), DispatchOne(ctx, l, call);
    assert Fresh(l.state, t);
    RunPreserves(ctx.lib, l.state, origin, t, call.name, call.args);
    forall i: nat | r.used <= i ensures Fresh(r.state, ctx.tickets(i)) {
      assert Fresh(l.state, ctx.tickets(i));
    }
  }

  lemma {:induction false} IterationsKeepJournal(ctx: Context, l: Loop, replies: seq<Completion>, origin: Path)
    requires Inv(ctx.lib, l.state, origin) && TicketsReady(l.state, ctx.tickets, l.used)
    ensures var r := IterateAll(ctx, l, replies);
            && Inv(ctx.lib, r.state, origin) && Extends(l.state, r.state)
            && TicketsReady(r.state, ctx.tickets, r.used) && r.used >= l.used
  {
    if replies != [] {
      var n := |replies| - 1;
      IterationsKeepJournal(ctx, l, replies[..n], origin);
      DispatchKeepsJournal(ctx, WithAssistant(IterateAll(ctx, l, replies[..n]), replies[n]), replies[n].toolCalls,
          origin);
    }
  }

  /** The journal grows by one active entry, in order, for each mutating call that was not refused, and by nothing
      else. */
  lemma {:induction false} JournalGrowsByMutations(ctx: Context, l: Loop, calls: seq<ToolCall>)
    returns (entries: seq<Entry>)
    requires Readable(l.state)
    ensures DispatchAll(ctx, l, calls).state.journal == l.state.journal + entries
    ensures Records(entries, Mutations(ctx, l, calls))
  {
    entries := [];
    if calls != [] {
      var n := |calls| - 1;
      entries := JournalGrowsByMutations(ctx, l, calls[..n]);
      var before := DispatchAll(ctx, l, calls[..n]);
      var outcome := OutcomeOf(ctx, before, calls[n]);
      if outcome.Ok? {
        OperationReturns(ctx.lib, calls[n].name, calls[n].args, before.state.snapshots[before.state.copy.path]);
        if IsMutating(calls[n].name) {
          entries := entries + [DispatchAll(ctx, l, calls).state.journal[|before.state.journal|]];
        }
      }
    }
  }

  /** The mutating calls of one reply that were not refused. */
  function ReplyMutations(ctx: Context, l: Loop, c: Completion): seq<ToolCall>
    requires Readable(l.state)
  {
    Mutations(ctx, WithAssistant(l, c), c.toolCalls)
  }

  /** The mutating calls of a whole turn that were not refused. */
  function AllMutations(ctx: Context, l: Loop, replies: seq<Completion>): seq<ToolCall>
    requires Readable(l.state)
  {
    if replies == [] then [] else
      var n := |replies| - 1;
      AllMutations(ctx, l, replies[..n]) + ReplyMutations(ctx, IterateAll(ctx, l, replies[..n]), replies[n])
  }

  /** These entries, all active, record these calls one for one. */
  ghost predicate Records(entries: seq<Entry>, calls: seq<ToolCall>) {
    && |entries| == |calls|
    && (forall k :: 0 <= k < |entries| ==>
         entries[k].op == calls[k].name && entries[k].args == calls[k].args && IsActive(entries[k]))
  }

  lemma RecordsJoin(a: seq<Entry>, b: seq<Entry>, calls: seq<ToolCall>, calls': seq<ToolCall>)
    requires Records(a, calls) && Records(b, calls')
    ensures Records(a + b, calls + calls')
  {
  }

  lemma JournalOverReply(ctx: Context, l: Loop, c: Completion) returns (entries: seq<Entry>)
    requires Readable(l.state)
    ensures Iterate(ctx, l, c).state.journal == l.state.journal + entries
    ensures Records(entries, ReplyMutations(ctx, l, c))
  {
    entries := JournalGrowsByMutations(ctx, WithAssistant(l, c), c.toolCalls);
  }

  lemma AppendTwice<T>(a: seq<T>, b: seq<T>, c: seq<T>)
    ensures (a + b) + c == a + (b + c)
  {
  }

  /** Over a whole turn the journal grows by exactly the mutating calls that were not refused, in order. */
  lemma {:induction false} JournalOverTurn(ctx: Context, l: Loop, replies: seq<Completion>)
    returns (entries: seq<Entry>)
    requires Readable(l.state)
    ensures IterateAll(ctx, l, replies).state.journal == l.state.journal + entries
    ensures Records(entries, AllMutations(ctx, l, replies))
  {
    entries := [];
    if replies == [] {
      AppendTwice(l.state.journal, [], []);
    } else {
      var n := |replies| - 1;
      var front := JournalOverTurn(ctx, l, replies[..n]);
      var m := IterateAll(ctx, l, replies[..n]);
      var more := JournalOverReply(ctx, m, replies[n]);
      RecordsJoin(front, more, AllMutations(ctx, l, replies[..n]), ReplyMutations(ctx, m, replies[n]));
      AppendTwice(l.state.journal, front, more);
      entries := front + more;
    }
  }
}
