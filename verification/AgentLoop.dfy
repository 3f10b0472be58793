/** The agent service as an object: the loop against an arbitrary provider, and the two ways a turn starts. */
module AgentLoop {
  import opened Wrappers
  import opened Frames
  import opened Journal
  import opened Chat
  import opened AgentTurn
  import opened Turns
  import opened Conversation
  import opened ConversationRuns
  import opened TurnContents
  import opened WorkingCopy

  class AgentService {
    const ctx: Context
    const workspace: WorkingCopyService
    var rows: seq<MessageRow>
    /** How many tickets have been drawn: no id, path or time is drawn twice. */
    var drawn: nat

    constructor (ctx: Context, workspace: WorkingCopyService)
      requires workspace.Valid() && workspace.lib == ctx.lib
      requires TicketsReady(State(Copy("", 0, 0), workspace.journal, workspace.snapshots), ctx.tickets, 0)
      ensures this.ctx == ctx && this.workspace == workspace && rows == [] && Valid()
    {
      this.ctx, this.workspace, rows, drawn := ctx, workspace, [], 0;
      new;
      LaterTickets(State(Copy("", 0, 0), workspace.journal, workspace.snapshots), Held(Now()), ctx.tickets, 0, 0);
    }

    ghost function Now(): Desk
      reads this, workspace
    {
      Desk(rows, workspace.copy, workspace.journal, workspace.snapshots, workspace.origin, drawn)
    }

    ghost predicate Valid()
      reads this, workspace
    {
      workspace.lib == ctx.lib && DeskOk(ctx, Now())
    }

    /** The working copy the first tool call will find or make. */
    ghost function StartState(source: Result<Frame, SourceError>, path: Path): State
      reads workspace
    {
      FoundOrMade(workspace.copy, workspace.journal, workspace.snapshots, source, path)
    }

    ghost function StartOrigin(path: Path): Path
      reads workspace
    {
      OriginOf(workspace.copy, workspace.origin, path)
    }

    lemma StartInv(source: Result<Frame, SourceError>, path: Path)
      requires workspace.Valid() && (source.Ok? ==> source.value.Valid())
      ensures Inv(workspace.lib, StartState(source, path), StartOrigin(path))
    {
      if workspace.copy.None? {
        MaterialiseEstablishes(workspace.lib, workspace.snapshots, if source.Ok? then source.value else EMPTY_FRAME,
            path);
      }
    }

    /** Run one tool call against the caller's working copy, making it on first use. */
    method RunTool(call: ToolCall, source: Result<Frame, SourceError>, path: Path, used: nat)
      returns (r: Result<string, SourceError>)
      requires workspace.Valid() && workspace.lib == ctx.lib && (source.Ok? ==> source.value.Valid())
      requires TicketsReady(StartState(source, path), ctx.tickets, used)
      modifies workspace
      ensures workspace.Valid()
      ensures r.Ok? ==>
                && workspace.copy.Some? && workspace.origin == old(StartOrigin(path))
                && (old(workspace.copy).Some? || source.Ok?)
                && r.value == ctx.render(RunOutcome(ctx.lib, old(StartState(source, path)), call.name, call.args))
                && workspace.Value()
                   == Run(ctx.lib, old(StartState(source, path)), ctx.tickets(used), call.name, call.args)
      ensures r.Err? ==> old(workspace.copy).None? && source == Err(r.error) && unchanged(workspace)
    {
      StartInv(source, path);
      var copy := workspace.GetOrCreate(source, path);
      if copy.Err? { return Err(copy.error); }
      assert Fresh(workspace.Value(), ctx.tickets(used));
      var outcome := workspace.RunOperation(ctx.tickets(used), call.name, call.args);
      return Ok(ctx.render(outcome));
    }

    /** Where the loop stands: the log is `base` and the loop's rows, the list `sent` and the loop's messages,
        and the working copy is the loop's state, once there is one. */
    ghost predicate At(l: Loop, base: seq<MessageRow>, sent: seq<ChatMessage>, working: seq<ChatMessage>,
                       source: Result<Frame, SourceError>, path: Path)
      reads this, workspace
    {
      && workspace.Valid() && workspace.lib == ctx.lib && (source.Ok? ==> source.value.Valid())
      && l.state == StartState(source, path) && TicketsReady(l.state, ctx.tickets, l.used)
      && rows == base + l.log && working == sent + l.added
    }

    /** One tool call: run it, persist its answer, append it to the list. */
    method RunAndRecord(call: ToolCall, source: Result<Frame, SourceError>, path: Path, used: nat,
                        working: seq<ChatMessage>,
                        ghost l: Loop, ghost base: seq<MessageRow>, ghost sent: seq<ChatMessage>)
        returns (ok: Result<seq<ChatMessage>, SourceError>)
      requires At(l, base, sent, working, source, path) && l.used == used
      modifies `rows, workspace
      ensures ok.Ok? ==>
                && At(DispatchOne(ctx, l, call), base, sent, ok.value, source, path)
                && workspace.copy.Some? && workspace.origin == old(StartOrigin(path))
                && (old(workspace.copy).Some? || source.Ok?)
      ensures ok.Err? ==> old(workspace.copy).None? && source == Err(ok.error) && unchanged(workspace)
    {
      StartInv(source, path);
      TicketSpent(ctx, l, call, StartOrigin(path));
      var text := RunTool(call, source, path, used);
      if text.Err? { return Err(text.error); }
      ghost var r := DispatchOne(ctx, l, call);
      rows := rows + [ToolRow(call, text.value)];
      assert rows == base + r.log by { AppendAssoc(base, l.log, ToolRow(call, text.value)); }
      AppendAssoc(sent, l.added, ToolTurn(call, text.value));
      assert StartState(source, path) == r.state;
      return Ok(working + [ToolTurn(call, text.value)]);
    }

    /** Every tool call of one reply, in order. */
    method RunTools(calls: seq<ToolCall>, source: Result<Frame, SourceError>, path: Path, used: nat,
                    working: seq<ChatMessage>,
                    ghost l: Loop, ghost base: seq<MessageRow>, ghost sent: seq<ChatMessage>)
        returns (ok: Result<(seq<ChatMessage>, nat), SourceError>)
      requires At(l, base, sent, working, source, path) && l.used == used && calls != []
      modifies `rows, workspace
      ensures ok.Ok? ==>
                var r := DispatchAll(ctx, l, calls);
                && At(r, base, sent, ok.value.0, source, path) && ok.value.1 == r.used
                && workspace.copy.Some? && workspace.origin == old(StartOrigin(path))
                && (old(workspace.copy).Some? || source.Ok?)
      ensures ok.Err? ==> old(workspace.copy).None? && source == Err(ok.error) && unchanged(workspace)
    {
      var list, n := working, used;
      ghost var origin := StartOrigin(path);
      assert calls[..0] == [];
      for k := 0 to |calls|
        invariant Dispatched(calls, k, list, n, l, base, sent, source, path) && StartOrigin(path) == origin
        invariant k > 0 ==> workspace.copy.Some? && (old(workspace.copy).Some? || source.Ok?)
        invariant k == 0 ==> unchanged(workspace)
      {
        var text := RunNext(calls, k, source, path, n, list, l, base, sent);
        if text.Err? { return Err(text.error); }
        list, n := text.value, n + 1;
      }
      assert calls[..|calls|] == calls;
      return Ok((list, n));
    }

    /** The first `k` calls are done. */
    ghost predicate Dispatched(calls: seq<ToolCall>, k: nat, list: seq<ChatMessage>, n: nat, l: Loop,
                               base: seq<MessageRow>, sent: seq<ChatMessage>,
                               source: Result<Frame, SourceError>, path: Path)
      requires k <= |calls|
      reads this, workspace
    {
      && Readable(l.state)
      && At(DispatchAll(ctx, l, calls[..k]), base, sent, list, source, path)
      && DispatchAll(ctx, l, calls[..k]).used == n
    }

    method RunNext(calls: seq<ToolCall>, k: nat, source: Result<Frame, SourceError>, path: Path, n: nat,
                   list: seq<ChatMessage>, ghost l: Loop, ghost base: seq<MessageRow>, ghost sent: seq<ChatMessage>)
        returns (text: Result<seq<ChatMessage>, SourceError>)
      requires k < |calls| && Dispatched(calls, k, list, n, l, base, sent, source, path)
      modifies `rows, workspace
      ensures text.Ok? ==>
                && Dispatched(calls, k + 1, text.value, n + 1, l, base, sent, source, path)
                && workspace.copy.Some? && workspace.origin == old(StartOrigin(path))
                && (old(workspace.copy).Some? || source.Ok?)
      ensures text.Err? ==> old(workspace.copy).None? && source == Err(text.error) && unchanged(workspace)
    {
      assert calls[..k + 1][..k] == calls[..k];
      text := RunAndRecord(calls[k], source, path, n, list, DispatchAll(ctx, l, calls[..k]), base, sent);
    }

    /** Persist one reply and, when it calls tools, run them. */
    method RunIteration(c: Completion, source: Result<Frame, SourceError>, path: Path, used: nat,
                        working: seq<ChatMessage>,
                        ghost l: Loop, ghost base: seq<MessageRow>, ghost sent: seq<ChatMessage>)
        returns (ok: Result<(seq<ChatMessage>, nat), SourceError>)
      requires At(l, base, sent, working, source, path) && l.used == used
      modifies `rows, workspace
      ensures c.toolCalls == [] ==>
                ok == Ok((working, used)) && unchanged(workspace) && rows == base + (l.log + [AssistantRow(c)])
      ensures c.toolCalls != [] && ok.Ok? ==>
                && At(Iterate(ctx, l, c), base, sent, ok.value.0, source, path) && ok.value.1 == Iterate(ctx, l, c).used
                && workspace.copy.Some? && workspace.origin == old(StartOrigin(path))
                && (old(workspace.copy).Some? || source.Ok?)
      ensures ok.Err? ==> old(workspace.copy).None? && source == Err(ok.error) && unchanged(workspace)
    {
      rows := rows + [AssistantRow(c)];
      AppendAssoc(base, l.log, AssistantRow(c));
      if c.toolCalls == [] { return Ok((working, used)); }
      AppendAssoc(sent, l.added, AssistantTurn(c));
      ok := RunTools(c.toolCalls, source, path, used, working + [AssistantTurn(c)], WithAssistant(l, c), base, sent);
    }

    /** The loop's invariant: the conversation so far, and where it stands. */
    ghost predicate Standing(start: Opening, sent: seq<ChatMessage>, forceFirst: bool, provider: nat -> Reply,
                             replies: seq<Completion>, requests: seq<Request>, l: Loop, base: seq<MessageRow>,
                             list: seq<ChatMessage>, used: nat, source: Result<Frame, SourceError>, path: Path,
                             origin: Path)
      reads this, workspace
    {
      && Readable(start.state) && Progress(ctx, start, sent, forceFirst, provider, replies, requests, l)
      && At(l, base, sent, list, source, path) && l.used == used
      && (replies != [] ==> workspace.copy.Some? && workspace.origin == origin)
    }

    /** The working copy is what the tools of these replies left. */
    ghost predicate LeftBy(tools: seq<Completion>, start: Opening, l: Loop, used: nat, origin: Path)
      reads this, workspace
    {
      && workspace.Valid() && workspace.lib == ctx.lib
      && Readable(start.state) && l == IterateAll(ctx, Start(start), tools) && l.used == used
      && (tools != [] ==> workspace.copy.Some? && workspace.origin == origin && workspace.Value() == l.state)
    }

    lemma StandingIsLeft(start: Opening, sent: seq<ChatMessage>, forceFirst: bool, provider: nat -> Reply,
                         replies: seq<Completion>, requests: seq<Request>, l: Loop, base: seq<MessageRow>,
                         list: seq<ChatMessage>, used: nat, source: Result<Frame, SourceError>, path: Path,
                         origin: Path)
      requires Standing(start, sent, forceFirst, provider, replies, requests, l, base, list, used, source, path, origin)
      ensures LeftBy(replies, start, l, used, origin)
      ensures Conversed(ctx, start, sent, forceFirst, provider, replies, requests) && |requests| == |replies|
      ensures rows == base + l.log && forall k :: 0 <= k < |replies| ==> replies[k].toolCalls != []
    {
    }

    /** What one reply does: it is recorded and its tools run, or it is the answer. */
    method Take(c: Completion, provider: nat -> Reply, source: Result<Frame, SourceError>, path: Path,
                forceFirst: bool, list: seq<ChatMessage>, used: nat, replies: seq<Completion>, requests: seq<Request>,
                request: Request,
                ghost start: Opening, ghost origin: Path, ghost l: Loop, ghost base: seq<MessageRow>,
                ghost sent: seq<ChatMessage>)
        returns (step: Step)
      requires Standing(start, sent, forceFirst, provider, replies, requests, l, base, list, used, source, path, origin)
      requires Inv(ctx.lib, start.state, origin) && TicketsReady(start.state, ctx.tickets, start.drawn)
            && |replies| < MAX_TOOL_ITERATIONS
      requires replies == [] ==> origin == StartOrigin(path)
      requires Conversed(ctx, start, sent, forceFirst, provider, replies + [c], requests + [request])
      modifies `rows, workspace
      ensures !step.Down? && (step.Ran? || Stops(step, provider, replies, replies + [c], source,
                                                 AssistantRows(replies + [c])))
      ensures step.NoSource? ==> old(workspace.copy).None?
      ensures step.Ran? ==> old(workspace.copy).Some? || source.Ok?
      ensures step.Ran? <==> c.toolCalls != [] && !step.NoSource?
      ensures step.Done? ==> rows == base + (l.log + [LastRow(replies, replies + [c])])
      ensures !step.Ran? ==> unchanged(workspace)
      ensures step.Ran? ==>
                Standing(start, sent, forceFirst, provider, replies + [c], requests + [request],
                         Iterate(ctx, l, c), base, step.list, step.used, source, path, origin)
    {
      StandingIsLeft(start, sent, forceFirst, provider, replies, requests, l, base, list, used, source, path, origin);
      if c.toolCalls != [] {
        ProgressOneMore(ctx, start, sent, forceFirst, provider, replies, requests, l, c, request, origin);
      }
      var ran := RunIteration(c, source, path, used, list, l, base, sent);
      if ran.Err? { return NoSource(ran.error); }
      if c.toolCalls == [] {
        AnswerCloses(replies, c);
        return Done;
      }
      step := Ran(ran.value.0, ran.value.1);
    }

    /** One round: ask the provider, record its reply, run its tools. */
    method Round(provider: nat -> Reply, source: Result<Frame, SourceError>, path: Path, forceFirst: bool,
                 list: seq<ChatMessage>, used: nat, replies: seq<Completion>, requests: seq<Request>,
                 produced: seq<MessageRow>,
                 ghost start: Opening, ghost origin: Path, ghost l: Loop, ghost base: seq<MessageRow>,
                 ghost sent: seq<ChatMessage>)
        returns (step: Step, replies': seq<Completion>, request: Request, produced': seq<MessageRow>)
      requires produced == AssistantRows(replies)
      requires Standing(start, sent, forceFirst, provider, replies, requests, l, base, list, used, source, path, origin)
      requires Inv(ctx.lib, start.state, origin) && TicketsReady(start.state, ctx.tickets, start.drawn)
            && |replies| < MAX_TOOL_ITERATIONS
      requires replies == [] ==> origin == StartOrigin(path)
      modifies `rows, workspace
      ensures Conversed(ctx, start, sent, forceFirst, provider, replies', requests + [request])
      ensures produced' == AssistantRows(replies')
      ensures step.Ran? || Stops(step, provider, replies, replies', source, produced')
      ensures !step.Down? ==> provider(|replies|).Ok? && replies' == replies + [provider(|replies|).value]
      ensures step.NoSource? ==> old(workspace.copy).None?
      ensures step.Ran? ==> old(workspace.copy).Some? || source.Ok?
      ensures step.Ran? <==> provider(|replies|).Ok? && provider(|replies|).value.toolCalls != [] && !step.NoSource?
      ensures step.Done? ==> rows == base + (l.log + [LastRow(replies, replies')])
      ensures !step.Ran? ==> unchanged(workspace) && LeftBy(replies, start, l, used, origin)
      ensures step.Ran? ==>
                Standing(start, sent, forceFirst, provider, replies', requests + [request],
                         Iterate(ctx, l, provider(|replies|).value), base, step.list, step.used, source, path, origin)
    {
      StandingIsLeft(start, sent, forceFirst, provider, replies, requests, l, base, list, used, source, path, origin);
      request := Request(list, forceFirst && |replies| == 0);
      AskedOneMore(ctx, start, sent, forceFirst, provider, replies, requests, l, request);
      var reply := provider(|replies|);
      if reply.Err? { return Down, replies, request, produced; }
      var c := reply.value;
      AnsweredOnce(ctx, start, sent, forceFirst, provider, replies, requests + [request], c);
      ProduceOneMore(replies, c);
      replies', produced' := replies + [c], produced + [AssistantRow(c)];
      step := Take(c, provider, source, path, forceFirst, list, used, replies, requests, request, start, origin, l,
          base, sent);
    }

    /** The loop: rounds until one does not run tools, or the cap. What it flushed is still there when it fails. */
    method Rounds(working: seq<ChatMessage>, provider: nat -> Reply, source: Result<Frame, SourceError>, path: Path,
                  forceFirst: bool, first: nat, ghost start: Opening, ghost origin: Path, ghost base: seq<MessageRow>)
        returns (step: Step, replies: seq<Completion>, requests: seq<Request>, produced: seq<MessageRow>, used: nat,
                 ghost tools: seq<Completion>, ghost l: Loop)
      requires Standing(start, working, forceFirst, provider, [], [], Start(start), base, working, first, source,
               path, origin)
      requires Inv(ctx.lib, start.state, origin) && TicketsReady(start.state, ctx.tickets, start.drawn)
            && origin == StartOrigin(path)
      modifies `rows, workspace
      ensures Conversed(ctx, start, working, forceFirst, provider, replies, requests)
      ensures 1 <= |requests| <= MAX_TOOL_ITERATIONS && |requests| == |replies| + if step.Down? then 1 else 0
      ensures produced == AssistantRows(replies) && LeftBy(tools, start, l, used, origin)
           && (tools == [] ==> unchanged(workspace))
      ensures step.NoSource? ==> old(workspace.copy).None?
      ensures tools != [] ==> old(workspace.copy).Some? || source.Ok?
      ensures Stops(step, provider, tools, replies, source, produced)
      ensures step.Done? ==> rows == base + (l.log + [LastRow(tools, replies)])
      ensures step.Ran? ==> rows == base + l.log
    {
      var list := working;
      used := first;
      replies, requests, produced, tools, l := [], [], [], [], Start(start);
      for iteration := 0 to MAX_TOOL_ITERATIONS
        invariant |replies| == iteration && produced == AssistantRows(replies)
        invariant Standing(start, working, forceFirst, provider, replies, requests, l, base, list, used, source, path,
                  origin)
        invariant replies == [] ==> unchanged(workspace)
        invariant replies != [] ==> old(workspace.copy).Some? || source.Ok?
      {
        tools := replies;
        var next, replies', request, produced' :=
          Round(provider, source, path, forceFirst, list, used, replies, requests, produced, start, origin, l, base,
              working);
        replies, requests, produced, step := replies', requests + [request], produced', next;
        if !next.Ran? { return; }
        l := Iterate(ctx, l, replies[iteration]);
        list, used := next.list, next.used;
      }
      tools, step := replies, Ran(list, used);
      StandingIsLeft(start, working, forceFirst, provider, replies, requests, l, base, list, used, source, path,
          origin);
      CapCloses(replies);
    }

    lemma StandsAtStart(working: seq<ChatMessage>, provider: nat -> Reply, source: Result<Frame, SourceError>,
                        path: Path,
                        forceFirst: bool, start: Opening, origin: Path)
      requires workspace.Valid() && workspace.lib == ctx.lib && (source.Ok? ==> source.value.Valid())
      requires start.state == StartState(source, path) && TicketsReady(start.state, ctx.tickets, start.drawn)
            && origin == StartOrigin(path)
      ensures Inv(ctx.lib, start.state, origin)
      ensures Standing(start, working, forceFirst, provider, [], [], Start(start), rows, working, start.drawn, source,
              path, origin)
    {
      StartInv(source, path);
      ProgressStarts(ctx, start, working, forceFirst, provider);
      assert rows + [] == rows && working + [] == working;
    }

    /** After the cap: a last row that asks the user for more. */
    method GiveUp(ghost base: seq<MessageRow>, ghost log: seq<MessageRow>)
      requires rows == base + log
      modifies `rows
      ensures rows == base + (log + [GIVE_UP_ROW])
    {
      rows := rows + [GIVE_UP_ROW];
      AppendAssoc(base, log, GIVE_UP_ROW);
    }

    /** A run of the loop, with the failures it reports. */
    method Drive(working: seq<ChatMessage>, provider: nat -> Reply, source: Result<Frame, SourceError>, path: Path,
                 forceFirst: bool, first: nat, ghost start: Opening, ghost origin: Path)
        returns (r: Result<seq<MessageRow>, LoopError>, replies: seq<Completion>, requests: seq<Request>, used: nat,
                 ghost tools: seq<Completion>, ghost l: Loop)
      requires workspace.Valid() && workspace.lib == ctx.lib && (source.Ok? ==> source.value.Valid())
      requires start.state == StartState(source, path) && origin == StartOrigin(path)
      requires TicketsReady(start.state, ctx.tickets, start.drawn) && first == start.drawn
      modifies `rows, workspace
      ensures workspace.Valid() && Readable(start.state)
      ensures Conversed(ctx, start, working, forceFirst, provider, replies, requests)
      ensures 1 <= |requests| <= MAX_TOOL_ITERATIONS
           && |requests| == |replies| + if r == Err(ProviderFailed) then 1 else 0
      ensures l == IterateAll(ctx, Start(start), tools) && l.used == used
      ensures if tools == [] then unchanged(workspace)
              else workspace.copy.Some? && workspace.origin == origin && workspace.Value() == l.state
      ensures tools != [] ==> old(workspace.copy).Some? || source.Ok?
      ensures r.Err? ==> (if r.error.ProviderFailed? then provider(|replies|).Err? && tools == replies
                          else source == Err(r.error.error) && old(workspace.copy).None? && tools == [])
      ensures r.Ok? ==>
                Closes(tools, replies, LastRow(tools, replies), r.value)
                  && rows == old(rows) + (l.log + [LastRow(tools, replies)])
    {
      StandsAtStart(working, provider, source, path, forceFirst, start, origin);
      ghost var base := rows;
      var step, produced;
      step, replies, requests, produced, used, tools, l :=
        Rounds(working, provider, source, path, forceFirst, first, start, origin, base);
      match step {
        case Down => r := Err(ProviderFailed);
        case NoSource(error) => r := Err(SourceFailed(error));
        case Done => r := Ok(produced);
        case Ran(_, _) =>
          GiveUp(base, l.log);
          r := Ok(produced + [GIVE_UP_ROW]);
      }
    }

    method Commit(used: nat, ghost d: Desk)
      requires workspace.lib == ctx.lib && DeskOk(ctx, d) && d == Now().(drawn := used)
      modifies `drawn
      ensures Valid() && Now() == d
    {
      drawn := used;
    }

    /** Undo what an abandoned turn flushed; the tickets it drew stay spent. */
    method Abandon(committed: seq<MessageRow>, copy0: Option<Copy>, journal0: seq<Entry>, used: nat, ghost d: Desk)
      requires workspace.lib == ctx.lib && DeskOk(ctx, d)
      requires d == Desk(committed, copy0, journal0, workspace.snapshots, d.origin, used)
      modifies this, workspace
      ensures Valid() && Now() == d
    {
      workspace.Rollback(copy0, journal0, d.origin);
      rows, drawn := committed, used;
    }

    /** The loop run from the desk `d`, before anything is committed or dropped. */
    method Attempt(working: seq<ChatMessage>, provider: nat -> Reply, source: Result<Frame, SourceError>,
                   forceFirst: bool,
                   ghost d: Desk, ghost kind: Kind, ghost systemText: string)
        returns (r: Result<seq<MessageRow>, LoopError>, used: nat, ghost t: Turn, ghost l: Loop)
      requires workspace.lib == ctx.lib && DeskOk(ctx, d) && (source.Ok? ==> source.value.Valid())
      requires Now() == d.(rows := PendingRows(d.rows, kind))
      requires working == FirstList(d.rows, kind, systemText) && forceFirst == kind.Message?
      modifies `rows, workspace
      ensures Looped(ctx, d, t, l) && l.used == used
      ensures t.kind == kind && t.systemText == systemText && t.source == source && t.provider == provider
           && t.result == r
      ensures workspace.Valid()
      ensures if t.tools == [] then SameCopy(d, Now()) && workspace.snapshots == d.files
              else workspace.copy.Some? && workspace.origin == OpenOrigin(ctx, d) && workspace.Value() == l.state
      ensures r.Err? ==> (if r.error.ProviderFailed? then t.tools == t.replies && provider(|t.replies|).Err?
                          else t.tools == [] && d.copy.None? && source == Err(r.error.error))
      ensures r.Ok? ==>
                var last := LastRow(t.tools, t.replies);
                Closes(t.tools, t.replies, last, r.value) && rows == PendingRows(d.rows, kind) + (l.log + [last])
    {
      OpensReady(ctx, d, source);
      var replies, requests;
      ghost var tools;
      r, replies, requests, used, tools, l :=
        Drive(working, provider, source, ctx.tickets(drawn).path, forceFirst, drawn + 1, Opens(ctx, d, source),
            OpenOrigin(ctx, d));
      t := Turn(kind, systemText, source, provider, replies, requests, tools, r);
    }

    /** One turn as a transaction: it commits whole, or leaves rows, working copy and journal as `d` had them.
        Either way the tickets it drew are spent. */
    method RunAgentLoop(working: seq<ChatMessage>, provider: nat -> Reply, source: Result<Frame, SourceError>,
                        forceFirst: bool,
                        committed: seq<MessageRow>, ghost d: Desk, ghost kind: Kind, ghost systemText: string)
        returns (r: Result<seq<MessageRow>, LoopError>, ghost t: Turn)
      requires workspace.lib == ctx.lib && DeskOk(ctx, d) && (source.Ok? ==> source.value.Valid())
      requires d.rows == committed && Now() == d.(rows := PendingRows(committed, kind))
      requires working == FirstList(committed, kind, systemText) && forceFirst == kind.Message?
      modifies this, workspace
      ensures Valid() && TurnStep(ctx, d, t, Now())
      ensures t.kind == kind && t.systemText == systemText && t.source == source && t.provider == provider
           && t.result == r
    {
      var copy0, journal0 := workspace.copy, workspace.journal;
      var used;
      ghost var l;
      r, used, t, l := Attempt(working, provider, source, forceFirst, d, kind, systemText);
      if r.Ok? {
        ghost var d' := Now().(drawn := used);
        CommittedIsTurn(ctx, d, t, l, d');
        Commit(used, d');
      } else {
        ghost var d' := d.(files := workspace.snapshots, drawn := used);
        DroppedIsTurn(ctx, d, t, l, d');
        Abandon(committed, copy0, journal0, used, d');
      }
    }

    method AppendUserRow(content: string)
      modifies `rows
      ensures rows == old(rows) + [UserRow(content)]
    {
      rows := rows + [UserRow(content)];
    }

    /** Append the user's message, run the loop on the rebuilt history, and force a tool call on its first request. */
    method SendMessage(content: string, systemText: string, provider: nat -> Reply, source: Result<Frame, SourceError>)
        returns (r: Result<seq<MessageRow>, LoopError>, ghost t: Turn)
      requires Valid() && (source.Ok? ==> source.value.Valid())
      modifies this, workspace
      ensures Valid() && TurnStep(ctx, old(Now()), t, Now())
      ensures r.Ok? ==> Keeps(ctx, old(Now()), t, Now())
      ensures t.kind == Message(content) && t.systemText == systemText && t.source == source
           && t.provider == provider && t.result == r
    {
      var committed := rows;
      AppendUserRow(content);
      var working := BuildHistoryMessages(rows, systemText);
      r, t := RunAgentLoop(working, provider, source, true, committed, old(Now()), Message(content), systemText);
      if r.Ok? { TurnKeeps(ctx, old(Now()), t, Now()); }
    }

    /** The opening turn: the trigger is sent, but never persisted, and no tool call is forced. */
    method SendKickoffTurn(systemText: string, trigger: string, provider: nat -> Reply,
                           source: Result<Frame, SourceError>)
        returns (r: Result<seq<MessageRow>, LoopError>, ghost t: Turn)
      requires Valid() && (source.Ok? ==> source.value.Valid())
      modifies this, workspace
      ensures Valid() && TurnStep(ctx, old(Now()), t, Now())
      ensures r.Ok? ==> Keeps(ctx, old(Now()), t, Now())
      ensures t.kind == Kickoff(trigger) && t.systemText == systemText && t.source == source
           && t.provider == provider && t.result == r
    {
      var working := [SystemMessage(systemText), UserMessage(trigger)];
      r, t := RunAgentLoop(working, provider, source, false, rows, Now(), Kickoff(trigger), systemText);
      if r.Ok? { TurnKeeps(ctx, old(Now()), t, Now()); }
    }

    /** Undo between turns, as the journal panel asks for it. */
    method UndoOperation(id: nat, now: int) returns (r: Result<nat, WorkingCopyError>)
      requires Valid() && workspace.copy.Some?
      modifies workspace
      ensures Valid() && DeskStep(ctx, old(Now()), UndoEvent(id, now), Now())
      ensures match Undo(old(Held(Now())), id, now)
              case Err(e) => r == Err(e) && Now() == old(Now())
              case Ok((s, undone)) => r == Ok(undone) && Held(Now()) == s
    {
      ghost var d := Now();
      r := workspace.UndoOperation(id, now);
      if r.Ok? { UndoKeepsDesk(ctx, d, id, now); }
    }

    /** Reset between turns. */
    method ResetAll(now: int) returns (undone: nat)
      requires Valid() && workspace.copy.Some?
      modifies workspace
      ensures Valid() && DeskStep(ctx, old(Now()), ResetEvent(now), Now())
      ensures undone == Reset(old(Held(Now())), now).1
    {
      ghost var d := Now();
      ResetKeepsDesk(ctx, d, now);
      undone := workspace.ResetAll(now);
    }
  }
}
