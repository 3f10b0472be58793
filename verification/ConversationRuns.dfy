/** Whole conversations: any sequence of turns, completed or failed, with undos and resets between them. */
module ConversationRuns {
  import opened Wrappers
  import opened Journal
  import opened Chat
  import opened AgentTurn
  import opened Turns
  import opened Conversation
  import JR = JournalRuns

  datatype Event = TurnEvent(turn: Turn) | UndoEvent(id: nat, now: int) | ResetEvent(now: int)

  /** The desk with the working copy in this state. */
  function Holding(d: Desk, s: State): Desk {
    d.(copy := Some(s.copy), journal := s.journal, files := s.snapshots)
  }

  ghost predicate DeskStep(ctx: Context, d: Desk, e: Event, d': Desk) {
    match e
    case TurnEvent(t) => TurnStep(ctx, d, t, d')
    case UndoEvent(id, now) =>
      d' == if d.copy.Some? && Readable(Held(d)) && Undo(Held(d), id, now).Ok?
            then Holding(d, Undo(Held(d), id, now).value.0) else d
    case ResetEvent(now) =>
      d' == if d.copy.Some? && Readable(Held(d)) then Holding(d, Reset(Held(d), now).0) else d
  }

  ghost predicate StepHolds(ctx: Context, desks: seq<Desk>, events: seq<Event>, i: nat)
    requires |desks| == |events| + 1 && i < |events|
  {
    DeskStep(ctx, desks[i], events[i], desks[i + 1])
  }

  /** A conversation, from a desk in order. */
  ghost predicate IsRun(ctx: Context, desks: seq<Desk>, events: seq<Event>) {
    && |desks| == |events| + 1 && DeskOk(ctx, desks[0])
    && forall i :: 0 <= i < |events| ==> StepHolds(ctx, desks, events, i)
  }

  /** The same files, and journal entries with the same ids and times. */
  lemma StampedTickets(s: State, s': State, tickets: nat -> Ticket, u: nat)
    requires TicketsReady(s, tickets, u) && s'.snapshots == s.snapshots && |s'.journal| == |s.journal|
    requires forall k :: 0 <= k < |s.journal| ==>
               s'.journal[k].id == s.journal[k].id && s'.journal[k].createdAt == s.journal[k].createdAt
    ensures TicketsReady(s', tickets, u)
  {
    forall i: nat | u <= i ensures Fresh(s', tickets(i)) {
      assert Fresh(s, tickets(i));
    }
  }

  lemma StampedDesk(ctx: Context, d: Desk, s: State)
    requires DeskOk(ctx, d) && Inv(ctx.lib, s, d.origin) && TicketsReady(s, ctx.tickets, d.drawn)
    ensures DeskOk(ctx, Holding(d, s))
  {
    assert Held(Holding(d, s)) == s;
  }

  lemma UndoKeepsDesk(ctx: Context, d: Desk, id: nat, now: int)
    requires DeskOk(ctx, d) && d.copy.Some? && Undo(Held(d), id, now).Ok?
    ensures DeskOk(ctx, Holding(d, Undo(Held(d), id, now).value.0))
  {
    var s := Undo(Held(d), id, now).value.0;
    UndoPreserves(ctx.lib, Held(d), d.origin, id, now);
    StampedTickets(Held(d), s, ctx.tickets, d.drawn);
    StampedDesk(ctx, d, s);
  }

  lemma ResetSpendsNothing(s: State, tickets: nat -> Ticket, u: nat, now: int)
    requires Readable(s) && TicketsReady(s, tickets, u)
    ensures TicketsReady(Reset(s, now).0, tickets, u)
  {
    StampedTickets(s, Reset(s, now).0, tickets, u);
  }

  lemma ResetKeepsDesk(ctx: Context, d: Desk, now: int)
    requires DeskOk(ctx, d) && d.copy.Some?
    ensures DeskOk(ctx, Holding(d, Reset(Held(d), now).0))
  {
    ResetPreserves(ctx.lib, Held(d), d.origin, now);
    ResetSpendsNothing(Held(d), ctx.tickets, d.drawn, now);
    StampedDesk(ctx, d, Reset(Held(d), now).0);
  }

  lemma StepKeepsDesk(ctx: Context, d: Desk, e: Event, d': Desk)
    requires DeskOk(ctx, d) && DeskStep(ctx, d, e, d')
    ensures DeskOk(ctx, d')
  {
    match e
    case TurnEvent(t) => TurnKeepsDesk(ctx, d, t, d');
    case UndoEvent(id, now) => if d' != d { UndoKeepsDesk(ctx, d, id, now); }
    case ResetEvent(now) => if d' != d { ResetKeepsDesk(ctx, d, now); }
  }

  /** Over any run, at every moment: the committed log rebuilds without loss and is paired, the working copy keeps its
      invariant, and no ticket still to be drawn has been used. */
  lemma {:induction false} RunKeepsDesk(ctx: Context, desks: seq<Desk>, events: seq<Event>, n: nat)
    requires IsRun(ctx, desks, events) && n <= |events|
    ensures DeskOk(ctx, desks[n])
  {
    if n > 0 {
      RunKeepsDesk(ctx, desks, events, n - 1);
      assert StepHolds(ctx, desks, events, n - 1);
      StepKeepsDesk(ctx, desks[n - 1], events[n - 1], desks[n]);
    }
  }

  /** Over any run, every list sent to the provider is paired. */
  lemma EveryListSentIsPaired(ctx: Context, desks: seq<Desk>, events: seq<Event>, i: nat, k: nat)
    requires IsRun(ctx, desks, events) && i < |events| && events[i].TurnEvent? && k < |events[i].turn.requests|
    ensures PairedMessages(events[i].turn.requests[k].messages)
  {
    RunKeepsDesk(ctx, desks, events, i);
    assert StepHolds(ctx, desks, events, i);
    TurnSendsPaired(ctx, desks[i], events[i].turn, desks[i + 1]);
  }

  predicate NoCommit(events: seq<Event>, i: nat, j: nat)
    requires j <= |events|
  {
    forall m :: i <= m < j ==> !CommitsAt(events[m])
  }

  /** A turn that committed. */
  predicate CommitsAt(e: Event) { e.TurnEvent? && e.turn.result.Ok? }

  lemma {:induction false} RowsStayUntilCommit(ctx: Context, desks: seq<Desk>, events: seq<Event>, i: nat, j: nat)
    requires IsRun(ctx, desks, events) && i <= j <= |events| && NoCommit(events, i, j)
    ensures desks[j].rows == desks[i].rows
  {
    if i < j {
      RowsStayUntilCommit(ctx, desks, events, i, j - 1);
      assert StepHolds(ctx, desks, events, j - 1);
    }
  }

  /** What the loop of a turn appended, with empty texts replaced, and its final answer. */
  ghost function Appended(ctx: Context, d: Desk, t: Turn): seq<ChatMessage> {
    var o := Opens(ctx, d, t.source);
    if Readable(o.state) && t.replies != []
      then CanonAll(TurnLoop(ctx, o, t.replies).added) + [FinalMessage(t.replies)] else []
  }

  /** The first list a turn sends, behind the system text; a kickoff's trigger is not part of the conversation. */
  function SentBehindSystem(d: Desk, t: Turn): seq<ChatMessage> {
    match t.kind
    case Message(_) => if t.requests == [] || t.requests[0].messages == [] then [] else t.requests[0].messages[1..]
    case Kickoff(_) => History(d.rows)
  }

  /** The list a turn ended with, behind the system text. */
  ghost function EndedWith(ctx: Context, d: Desk, t: Turn): seq<ChatMessage> {
    SentBehindSystem(d, t) + Appended(ctx, d, t)
  }

  ghost predicate OpensWith(d: Desk, t: Turn) {
    && t.requests != [] && t.requests[0].forceTool == t.kind.Message?
    && match t.kind
       case Message(content) =>
         t.requests[0].messages
         == [ChatMessage(SystemRole, t.systemText, [], None)]
           + (History(d.rows) + [ChatMessage(UserRole, content, [], None)])
       case Kickoff(trigger) =>
         t.requests[0].messages
         == [ChatMessage(SystemRole, t.systemText, [], None), ChatMessage(UserRole, trigger, [], None)]
  }

  /** A message's first request is the system text, the history and the message, with a tool forced; a kickoff's is the
      system text and the trigger. */
  lemma TurnOpensWith(ctx: Context, d: Desk, t: Turn, d': Desk)
    requires LogOk(d.rows) && TurnStep(ctx, d, t, d')
    ensures OpensWith(d, t)
  {
    FirstRequest(ctx, Opens(ctx, d, t.source), FirstList(d.rows, t.kind, t.systemText), t.kind.Message?, t.provider,
        t.replies, t.requests);
    if t.kind.Message? { UserTurnKeepsLog(d.rows, t.kind.content); }
  }

  lemma SentIsPending(d: Desk, t: Turn)
    requires LogOk(d.rows) && OpensWith(d, t)
    ensures History(PendingRows(d.rows, t.kind)) == SentBehindSystem(d, t)
  {
    if t.kind.Message? { UserTurnKeepsLog(d.rows, t.kind.content); }
  }

  /** The log a completed turn commits rebuilds to the list the turn ended with. */
  lemma TurnEndsWith(ctx: Context, d: Desk, t: Turn, d': Desk)
    requires LogOk(d.rows) && TurnStep(ctx, d, t, d') && t.result.Ok?
    ensures History(d'.rows) == EndedWith(ctx, d, t)
  {
    TurnRebuilds(ctx, d, t, d');
    TurnOpensWith(ctx, d, t, d');
    SentIsPending(d, t);
    RegroupLast(History(PendingRows(d.rows, t.kind)),
        CanonAll(TurnLoop(ctx, Opens(ctx, d, t.source), t.replies).added), FinalMessage(t.replies));
  }

  lemma RegroupLast<T>(a: seq<T>, b: seq<T>, x: T)
    ensures a + b + [x] == a + (b + [x])
  {
  }

  lemma OpensAt(ctx: Context, desks: seq<Desk>, events: seq<Event>, j: nat)
    requires IsRun(ctx, desks, events) && j < |events| && events[j].TurnEvent?
    ensures OpensWith(desks[j], events[j].turn)
  {
    RunKeepsDesk(ctx, desks, events, j);
    assert StepHolds(ctx, desks, events, j);
    TurnOpensWith(ctx, desks[j], events[j].turn, desks[j + 1]);
  }

  /** These rows rebuild to the list the turn ended with. */
  ghost predicate Rebuilds(ctx: Context, d: Desk, t: Turn, rows: seq<MessageRow>) {
    History(rows) == EndedWith(ctx, d, t)
  }

  lemma EndsAt(ctx: Context, desks: seq<Desk>, events: seq<Event>, i: nat)
    requires IsRun(ctx, desks, events) && i < |events| && CommitsAt(events[i])
    ensures Rebuilds(ctx, desks[i], events[i].turn, desks[i + 1].rows)
  {
    RunKeepsDesk(ctx, desks, events, i);
    assert StepHolds(ctx, desks, events, i);
    TurnEndsWith(ctx, desks[i], events[i].turn, desks[i + 1]);
  }

  /** A turn's first request is the system text, this list and its new message. */
  ghost predicate CarriesOn(t: Turn, list: seq<ChatMessage>) {
    && t.kind.Message? && t.requests != []
    && t.requests[0].messages
       == [ChatMessage(SystemRole, t.systemText, [], None)]
         + (list + [ChatMessage(UserRole, t.kind.content, [], None)])
  }

  /** A message's first request carries the list the last completed turn ended with (its own first list, what its loop
      appended up to the placeholder, and its final answer), and then the new message. Failed turns, undos and resets in
      between change nothing of it. */
  lemma NextTurnContinues(ctx: Context, desks: seq<Desk>, events: seq<Event>, i: nat, j: nat)
    requires IsRun(ctx, desks, events) && i < j < |events| && CommitsAt(events[i])
    requires events[j].TurnEvent? && events[j].turn.kind.Message?
    requires NoCommit(events, i + 1, j)
    ensures CarriesOn(events[j].turn, EndedWith(ctx, desks[i], events[i].turn))
  {
    assert Rebuilds(ctx, desks[i], events[i].turn, desks[i + 1].rows) by { EndsAt(ctx, desks, events, i); }
    MessageContinues(ctx, desks, events, i + 1, j, desks[i], events[i].turn);
  }

  lemma MessageContinues(ctx: Context, desks: seq<Desk>, events: seq<Event>, i: nat, j: nat, d: Desk, t: Turn)
    requires IsRun(ctx, desks, events) && i <= j < |events| && events[j].TurnEvent? && events[j].turn.kind.Message?
    requires NoCommit(events, i, j) && Rebuilds(ctx, d, t, desks[i].rows)
    ensures CarriesOn(events[j].turn, EndedWith(ctx, d, t))
  {
    MessageOpens(ctx, desks, events, i, j);
  }

  lemma MessageOpens(ctx: Context, desks: seq<Desk>, events: seq<Event>, i: nat, j: nat)
    requires IsRun(ctx, desks, events) && i <= j < |events| && events[j].TurnEvent? && events[j].turn.kind.Message?
    requires NoCommit(events, i, j)
    ensures CarriesOn(events[j].turn, History(desks[i].rows))
  {
    RowsStayUntilCommit(ctx, desks, events, i, j);
    OpensAt(ctx, desks, events, j);
  }

  /** A conversation's tickets only go forward: whatever failed or was undone, no snapshot path is written twice. */
  lemma {:induction false} TicketsGoForward(ctx: Context, desks: seq<Desk>, events: seq<Event>, i: nat, j: nat)
    requires IsRun(ctx, desks, events) && i <= j <= |events|
    ensures Forward(desks[i], desks[j])
  {
    if i < j {
      TicketsGoForward(ctx, desks, events, i, j - 1);
      ForwardAt(ctx, desks, events, j - 1);
    }
  }

  /** No ticket comes back, and no snapshot file is lost or rewritten. */
  ghost predicate Forward(d: Desk, d': Desk) { d.drawn <= d'.drawn && Extends(Held(d), Held(d')) }

  lemma ForwardAt(ctx: Context, desks: seq<Desk>, events: seq<Event>, j: nat)
    requires IsRun(ctx, desks, events) && j < |events|
    ensures Forward(desks[j], desks[j + 1])
  {
    RunKeepsDesk(ctx, desks, events, j);
    assert StepHolds(ctx, desks, events, j);
    StepGoesForward(ctx, desks[j], events[j], desks[j + 1]);
  }

  lemma StepGoesForward(ctx: Context, d: Desk, e: Event, d': Desk)
    requires DeskOk(ctx, d) && DeskStep(ctx, d, e, d')
    ensures Forward(d, d')
  {
    match e
    case TurnEvent(t) => TurnGoesForward(ctx, d, t, d');
    case _ => assert d'.drawn == d.drawn && d'.files == d.files;
  }

  lemma TurnGoesForward(ctx: Context, d: Desk, t: Turn, d': Desk)
    requires DeskOk(ctx, d) && TurnStep(ctx, d, t, d')
    ensures Forward(d, d')
  {
    OpensReady(ctx, d, t.source);
    IterationsKeepJournal(ctx, Start(Opens(ctx, d, t.source)), t.tools, OpenOrigin(ctx, d));
  }

  // ---- the working copy and its source ------------------------------------

  /** Turn `i` found no working copy, and a source it could read; the file under this desk's original path is that
      source. */
  ghost predicate MadeBy(desks: seq<Desk>, events: seq<Event>, i: nat, d: Desk)
    requires |desks| == |events| + 1
  {
    && i < |events| && events[i].TurnEvent? && desks[i].copy.None? && events[i].turn.source.Ok?
    && d.origin in d.files && d.files[d.origin] == events[i].turn.source.value
  }

  /** A step keeps the original path and its file, once there is a working copy. */
  lemma StepKeepsOrigin(ctx: Context, d: Desk, e: Event, d': Desk)
    requires DeskOk(ctx, d) && DeskStep(ctx, d, e, d') && d.copy.Some?
    ensures d'.origin == d.origin && d.origin in d.files
    ensures d.origin in d'.files && d'.files[d.origin] == d.files[d.origin]
  {
    StepGoesForward(ctx, d, e, d');
    assert d.origin in Held(d).snapshots;
  }

  /** A turn that makes the working copy could read its source, and the original is that source. */
  lemma TurnCopiesSource(ctx: Context, d: Desk, t: Turn, d': Desk)
    requires DeskOk(ctx, d) && TurnStep(ctx, d, t, d') && d.copy.None? && d'.copy.Some?
    ensures t.source.Ok? && d'.origin in d'.files && d'.files[d'.origin] == t.source.value
  {
    var o := Opens(ctx, d, t.source);
    OpensReady(ctx, d, t.source);
    IterationsKeepJournal(ctx, Start(o), t.tools, OpenOrigin(ctx, d));
    assert t.tools != [] && t.result.Ok?;
    MaterialiseEstablishes(ctx.lib, d.files, t.source.value, ctx.tickets(d.drawn).path);
    assert d'.origin in o.state.snapshots && Held(d').snapshots == d'.files;
  }

  lemma SourceOneMore(ctx: Context, desks: seq<Desk>, events: seq<Event>, n: nat, i: nat)
    requires IsRun(ctx, desks, events) && n < |events|
    requires desks[n].copy.Some? && i < n && MadeBy(desks, events, i, desks[n])
    ensures MadeBy(desks, events, i, desks[n + 1])
  {
    RunKeepsDesk(ctx, desks, events, n);
    assert StepHolds(ctx, desks, events, n);
    StepKeepsOrigin(ctx, desks[n], events[n], desks[n + 1]);
  }

  lemma SourceBegins(ctx: Context, desks: seq<Desk>, events: seq<Event>, n: nat)
    requires IsRun(ctx, desks, events) && n < |events|
    requires desks[n].copy.None? && desks[n + 1].copy.Some?
    ensures MadeBy(desks, events, n, desks[n + 1])
  {
    RunKeepsDesk(ctx, desks, events, n);
    assert StepHolds(ctx, desks, events, n);
    TurnCopiesSource(ctx, desks[n], events[n].turn, desks[n + 1]);
  }

  /** Over any conversation that starts without a working copy, the one there is was made from a source. */
  lemma {:induction false} CopyHasSource(ctx: Context, desks: seq<Desk>, events: seq<Event>, n: nat) returns (i: nat)
    requires IsRun(ctx, desks, events) && desks[0].copy.None? && n <= |events| && desks[n].copy.Some?
    ensures i < n && MadeBy(desks, events, i, desks[n])
  {
    if desks[n - 1].copy.Some? {
      i := CopyHasSource(ctx, desks, events, n - 1);
      SourceOneMore(ctx, desks, events, n - 1, i);
    } else {
      i := n - 1;
      SourceBegins(ctx, desks, events, n - 1);
    }
  }

  /** Over any conversation that starts without a working copy, the current frame is the operations of the active
      entries applied, in order, to the source itself, as the turn that made the copy read it. */
  lemma CurrentIsReplayOfSource(ctx: Context, desks: seq<Desk>, events: seq<Event>, n: nat) returns (i: nat)
    requires IsRun(ctx, desks, events) && desks[0].copy.None? && n <= |events| && desks[n].copy.Some?
    ensures i < n && MadeBy(desks, events, i, desks[n])
    ensures var d, source := desks[n], events[i].turn.source.value;
            && source.Valid() && d.copy.value.path in d.files
            && JR.Replay(ctx.lib, Active(d.journal), source) == Some(d.files[d.copy.value.path])
  {
    i := CopyHasSource(ctx, desks, events, n);
    RunKeepsDesk(ctx, desks, events, n);
    assert StepHolds(ctx, desks, events, i);
    JR.CurrentIsReplay(ctx.lib, Held(desks[n]), desks[n].origin);
  }

  /** A reset shows the source itself again, whatever was done to the copy. */
  lemma ResetShowsSource(ctx: Context, desks: seq<Desk>, events: seq<Event>, n: nat) returns (i: nat)
    requires IsRun(ctx, desks, events) && desks[0].copy.None? && n < |events|
    requires desks[n].copy.Some? && events[n].ResetEvent?
    ensures i < n && MadeBy(desks, events, i, desks[n])
    ensures var d := desks[n + 1];
            && d.copy.Some? && d.copy.value.path in d.files && Active(d.journal) == []
            && d.files[d.copy.value.path] == events[i].turn.source.value
  {
    i := CopyHasSource(ctx, desks, events, n);
    RunKeepsDesk(ctx, desks, events, n);
    assert StepHolds(ctx, desks, events, n);
    ResetPreserves(ctx.lib, Held(desks[n]), desks[n].origin, events[n].now);
  }
}
