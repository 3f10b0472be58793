/** A conversation turn by turn: what each turn, undo and reset does to the log, the working copy and the files. */
module Conversation {
  import opened Wrappers
  import opened Frames
  import opened Journal
  import opened Chat
  import opened AgentTurn
  import opened Turns
  import opened WorkingCopy

  /** The persisted rows, the working copy with its journal and original, the snapshot files, and the tickets drawn. */
  datatype Desk = Desk(rows: seq<MessageRow>, copy: Option<Copy>, journal: seq<Entry>, files: map<Path, Frame>,
                       origin: Path, drawn: nat)

  /** The working copy's state; without one, its pointer means nothing. */
  function Held(d: Desk): State {
    State(if d.copy.Some? then d.copy.value else Copy("", 0, 0), d.journal, d.files)
  }

  ghost predicate DeskOk(ctx: Context, d: Desk) {
    && (if d.copy.Some? then Inv(ctx.lib, Held(d), d.origin) else d.journal == [] && AllFramesValid(d.files))
    && LogOk(d.rows) && TicketsReady(Held(d), ctx.tickets, d.drawn)
  }

  ghost predicate AllFramesValid(files: map<Path, Frame>) {
    forall p :: p in files ==> files[p].Valid()
  }

  /** The working copy that the first tool call of a turn finds, or makes from the source at this path. */
  function FoundOrMade(copy: Option<Copy>, journal: seq<Entry>, files: map<Path, Frame>,
                       source: Result<Frame, SourceError>, path: Path): State
  {
    if copy.Some? then State(copy.value, journal, files)
    else Materialise(files, if source.Ok? then source.value else EMPTY_FRAME, path)
  }

  function OriginOf(copy: Option<Copy>, origin: Path, path: Path): Path { if copy.Some? then origin else path }

  /** The same for a turn that starts from this desk, whose first ticket is for the path. */
  function Opens(ctx: Context, d: Desk, source: Result<Frame, SourceError>): Opening {
    Opening(FoundOrMade(d.copy, d.journal, d.files, source, ctx.tickets(d.drawn).path), d.drawn + 1)
  }

  function OpenOrigin(ctx: Context, d: Desk): Path { OriginOf(d.copy, d.origin, ctx.tickets(d.drawn).path) }

  lemma OpensReady(ctx: Context, d: Desk, source: Result<Frame, SourceError>)
    requires DeskOk(ctx, d) && (source.Ok? ==> source.value.Valid())
    ensures var o := Opens(ctx, d, source);
            && Inv(ctx.lib, o.state, OpenOrigin(ctx, d)) && TicketsReady(o.state, ctx.tickets, o.drawn)
            && Extends(Held(d), o.state)
  {
    var o := Opens(ctx, d, source);
    assert Fresh(Held(d), ctx.tickets(d.drawn));
    if d.copy.None? {
      MaterialiseEstablishes(ctx.lib, d.files, if source.Ok? then source.value else EMPTY_FRAME,
          ctx.tickets(d.drawn).path);
    }
    forall i: nat | o.drawn <= i ensures Fresh(o.state, ctx.tickets(i)) {
      assert Fresh(Held(d), ctx.tickets(i));
    }
  }

  // ---- turns --------------------------------------------------------------

  datatype Kind = Message(content: string) | Kickoff(trigger: string)

  /** One turn: what started it, what the provider was sent and gave, the replies whose tools ran, and how it ended. */
  datatype Turn = Turn(kind: Kind, systemText: string, source: Result<Frame, SourceError>, provider: nat -> Reply,
                       replies: seq<Completion>, requests: seq<Request>, tools: seq<Completion>,
                       result: Result<seq<MessageRow>, LoopError>)

  /** A user's message is persisted before the loop starts, a trigger never. */
  function PendingRows(rows: seq<MessageRow>, kind: Kind): seq<MessageRow> {
    match kind
    case Message(content) => rows + [UserRow(content)]
    case Kickoff(_) => rows
  }

  function FirstList(rows: seq<MessageRow>, kind: Kind, systemText: string): seq<ChatMessage> {
    match kind
    case Message(content) => [SystemMessage(systemText)] + History(rows + [UserRow(content)])
    case Kickoff(trigger) => [SystemMessage(systemText), UserMessage(trigger)]
  }

  /** The working copy is as it was. */
  ghost predicate SameCopy(d: Desk, d': Desk) {
    d'.copy == d.copy && d'.journal == d.journal && d'.origin == d.origin
  }

  /** A turn that completed: its rows, and the working copy its tools left. */
  ghost predicate Commits(ctx: Context, d: Desk, t: Turn, o: Opening, d': Desk)
    requires Readable(o.state)
  {
    var l := IterateAll(ctx, Start(o), t.tools);
    && t.result.Ok? && CompleteTurn(t.replies) && t.tools == ToolReplies(t.replies)
    && t.result.value == Produced(t.replies)
    && d'.rows == PendingRows(d.rows, t.kind) + TurnRows(ctx, o, t.replies)
    && (if t.tools == [] then SameCopy(d, d') && d'.files == d.files
        else d'.copy == Some(l.state.copy) && Held(d') == l.state && d'.origin == OpenOrigin(ctx, d))
  }

  /** A turn that failed: rows and working copy as they were; only files that tools wrote stay. */
  ghost predicate Drops(ctx: Context, d: Desk, t: Turn, o: Opening, d': Desk)
    requires Readable(o.state)
  {
    && t.result.Err?
    && (if t.result.error.ProviderFailed? then t.tools == t.replies && t.provider(|t.replies|).Err?
        else t.tools == [] && d.copy.None? && t.source == Err(t.result.error.error))
    && d'.rows == d.rows && SameCopy(d, d')
    && d'.files == if t.tools == [] then d.files else IterateAll(ctx, Start(o), t.tools).state.snapshots
  }

  ghost predicate TurnStep(ctx: Context, d: Desk, t: Turn, d': Desk) {
    var o := Opens(ctx, d, t.source);
    && (t.source.Ok? ==> t.source.value.Valid()) && Readable(o.state)
    && Conversed(ctx, o, FirstList(d.rows, t.kind, t.systemText), t.kind.Message?, t.provider, t.replies, t.requests)
    && 1 <= |t.requests| <= MAX_TOOL_ITERATIONS
    && |t.requests| == |t.replies| + (if t.result == Err(ProviderFailed) then 1 else 0)
    && d'.drawn == IterateAll(ctx, Start(o), t.tools).used
    && (t.tools != [] ==> d.copy.Some? || t.source.Ok?)
    && (Commits(ctx, d, t, o, d') || Drops(ctx, d, t, o, d'))
  }

  lemma FirstListIsPaired(rows: seq<MessageRow>, kind: Kind, systemText: string)
    requires LogOk(rows)
    ensures PairedMessages(FirstList(rows, kind, systemText))
  {
    match kind
    case Message(content) =>
      UserTurnKeepsLog(rows, content);
      SystemFirstIsPaired(rows + [UserRow(content)], systemText);
    case Kickoff(trigger) =>
      PlainIsPaired(SystemMessage(systemText));
      PlainIsPaired(UserMessage(trigger));
      PairedMessagesJoin([SystemMessage(systemText)], [UserMessage(trigger)]);
      assert [SystemMessage(systemText)] + [UserMessage(trigger)] == FirstList(rows, kind, systemText);
  }

  lemma PendingKeepsLog(rows: seq<MessageRow>, kind: Kind)
    requires LogOk(rows)
    ensures LogOk(PendingRows(rows, kind))
  {
    if kind.Message? { UserTurnKeepsLog(rows, kind.content); }
  }

  /** Every list a turn sends is paired. */
  lemma TurnSendsPaired(ctx: Context, d: Desk, t: Turn, d': Desk)
    requires LogOk(d.rows) && TurnStep(ctx, d, t, d')
    ensures forall k :: 0 <= k < |t.requests| ==> PairedMessages(t.requests[k].messages)
  {
    FirstListIsPaired(d.rows, t.kind, t.systemText);
    SentListsPaired(ctx, Opens(ctx, d, t.source), FirstList(d.rows, t.kind, t.systemText), t.kind.Message?,
        t.provider, t.replies, t.requests);
  }

  /** What a turn that completed leaves in the log. */
  lemma TurnRebuilds(ctx: Context, d: Desk, t: Turn, d': Desk)
    requires LogOk(d.rows) && TurnStep(ctx, d, t, d') && t.result.Ok?
    ensures var o := Opens(ctx, d, t.source);
            && LogOk(d'.rows)
            && History(d'.rows)
               == History(PendingRows(d.rows, t.kind)) + CanonAll(TurnLoop(ctx, o, t.replies).added)
                 + [FinalMessage(t.replies)]
  {
    PendingKeepsLog(d.rows, t.kind);
    RebuiltHistory(ctx, Opens(ctx, d, t.source), t.replies, PendingRows(d.rows, t.kind));
  }

  /** A turn, completed or failed, keeps the log, the working copy and the tickets in order. */
  lemma TurnKeepsDesk(ctx: Context, d: Desk, t: Turn, d': Desk)
    requires DeskOk(ctx, d) && TurnStep(ctx, d, t, d')
    ensures DeskOk(ctx, d')
  {
    var o := Opens(ctx, d, t.source);
    OpensReady(ctx, d, t.source);
    IterationsKeepJournal(ctx, Start(o), t.tools, OpenOrigin(ctx, d));
    var l := IterateAll(ctx, Start(o), t.tools);
    if t.result.Ok? { TurnRebuilds(ctx, d, t, d'); }
    if t.tools == [] {
      LaterTickets(Held(d), Held(d'), ctx.tickets, d.drawn, l.used);
    } else if t.result.Err? {
      DroppedKeepsDesk(ctx, d, l, d');
    }
  }

  /** The same files and journal, and fewer tickets left. */
  lemma LaterTickets(s: State, s': State, tickets: nat -> Ticket, u: nat, v: nat)
    requires TicketsReady(s, tickets, u) && u <= v && s'.snapshots == s.snapshots && s'.journal == s.journal
    ensures TicketsReady(s', tickets, v)
  {
    forall i: nat | v <= i ensures Fresh(s', tickets(i)) {
      assert Fresh(s, tickets(i));
    }
  }

  lemma DroppedKeepsDesk(ctx: Context, d: Desk, l: Loop, d': Desk)
    requires DeskOk(ctx, d) && Readable(l.state) && Extends(Held(d), l.state)
    requires TicketsReady(l.state, ctx.tickets, l.used) && d.drawn <= l.used == d'.drawn
    requires d'.rows == d.rows && SameCopy(d, d') && d'.files == l.state.snapshots
    ensures DeskOk(ctx, d')
  {
    if d.copy.Some? { InvWithMoreFiles(ctx.lib, Held(d), d.origin, d'.files); }
    forall i: nat | l.used <= i ensures Fresh(Held(d'), ctx.tickets(i)) {
      assert Fresh(l.state, ctx.tickets(i)) && Fresh(Held(d), ctx.tickets(i));
    }
  }

  /** One run of the loop from this desk. */
  ghost predicate Looped(ctx: Context, d: Desk, t: Turn, l: Loop) {
    var o := Opens(ctx, d, t.source);
    && (t.source.Ok? ==> t.source.value.Valid()) && Readable(o.state) && l == IterateAll(ctx, Start(o), t.tools)
    && Conversed(ctx, o, FirstList(d.rows, t.kind, t.systemText), t.kind.Message?, t.provider, t.replies, t.requests)
    && 1 <= |t.requests| <= MAX_TOOL_ITERATIONS
    && |t.requests| == |t.replies| + (if t.result == Err(ProviderFailed) then 1 else 0)
    && (t.tools != [] ==> d.copy.Some? || t.source.Ok?)
  }

  /** A loop that closed is a turn that commits. */
  lemma CommittedIsTurn(ctx: Context, d: Desk, t: Turn, l: Loop, d': Desk)
    requires DeskOk(ctx, d) && Looped(ctx, d, t, l) && t.result.Ok?
    requires Closes(t.tools, t.replies, LastRow(t.tools, t.replies), t.result.value)
    requires d'.rows == PendingRows(d.rows, t.kind) + (l.log + [LastRow(t.tools, t.replies)]) && d'.drawn == l.used
    requires if t.tools == [] then SameCopy(d, d') && d'.files == d.files
             else d'.copy.Some? && d'.origin == OpenOrigin(ctx, d) && Held(d') == l.state
    ensures TurnStep(ctx, d, t, d') && DeskOk(ctx, d')
  {
    ClosedIsFinished(ctx, Opens(ctx, d, t.source), t.tools, t.replies, l, LastRow(t.tools, t.replies), t.result.value);
    assert Commits(ctx, d, t, Opens(ctx, d, t.source), d');
    TurnKeepsDesk(ctx, d, t, d');
  }

  /** A loop that failed is a turn that is dropped. */
  lemma DroppedIsTurn(ctx: Context, d: Desk, t: Turn, l: Loop, d': Desk)
    requires DeskOk(ctx, d) && Looped(ctx, d, t, l) && t.result.Err?
    requires if t.result.error.ProviderFailed? then t.tools == t.replies && t.provider(|t.replies|).Err?
             else t.tools == [] && d.copy.None? && t.source == Err(t.result.error.error)
    requires d'.rows == d.rows && SameCopy(d, d') && d'.drawn == l.used
    requires d'.files == if t.tools == [] then d.files else l.state.snapshots
    ensures TurnStep(ctx, d, t, d') && DeskOk(ctx, d')
  {
    assert Drops(ctx, d, t, Opens(ctx, d, t.source), d');
    TurnKeepsDesk(ctx, d, t, d');
  }
}
