/** Whole runs of the working copy: replay, conservation, undo and reset. */
module JournalRuns {
  import opened Wrappers
  import opened Frames
  import opened Operations
  import opened Dispatcher
  import opened Journal
  import ParseDates

  datatype Event =
    | RunEvent(ticket: Ticket, op: string, args: OpArgs)
    | UndoEvent(id: nat, now: int)
    | ResetEvent(now: int)

  /** One request. A failed one is not committed and changes nothing. */
  function Step(lib: ParseDates.Strptime, s: State, e: Event): State
    requires Readable(s)
  {
    match e
    case RunEvent(t, op, args) => Run(lib, s, t, op, args)
    case UndoEvent(id, now) => (match Undo(s, id, now) case Ok(r) => r.0 case Err(_) => s)
    case ResetEvent(now) => Reset(s, now).0
  }

  /** What a request takes for granted. */
  ghost predicate Admissible(s: State, e: Event) {
    e.RunEvent? ==> Fresh(s, e.ticket)
  }

  lemma StepPreserves(lib: ParseDates.Strptime, s: State, origin: Path, e: Event)
    requires Inv(lib, s, origin) && Admissible(s, e)
    ensures Inv(lib, Step(lib, s, e), origin) && Extends(s, Step(lib, s, e))
  {
    match e
    case RunEvent(t, op, args) => RunPreserves(lib, s, origin, t, op, args);
    case UndoEvent(id, now) => if Undo(s, id, now).Ok? { UndoPreserves(lib, s, origin, id, now); }
    case ResetEvent(now) => ResetPreserves(lib, s, origin, now);
  }

  /** A run: states joined by admissible requests. */
  ghost predicate IsRun(lib: ParseDates.Strptime, states: seq<State>, events: seq<Event>) {
    && |states| == |events| + 1
    && (forall i :: 0 <= i < |events| ==>
          Readable(states[i]) && Admissible(states[i], events[i]) && states[i + 1] == Step(lib, states[i], events[i]))
  }

  /** Every state of every run keeps the invariant and every snapshot of the states before it. */
  lemma {:induction false} RunKeepsInv(lib: ParseDates.Strptime, states: seq<State>, events: seq<Event>, origin: Path,
                                       n: nat)
    requires IsRun(lib, states, events) && Inv(lib, states[0], origin) && n <= |events|
    ensures Inv(lib, states[n], origin) && Extends(states[0], states[n])
  {
    if n > 0 {
      RunKeepsInv(lib, states, events, origin, n - 1);
      StepPreserves(lib, states[n - 1], origin, events[n - 1]);
    }
  }

  // ---- replay -------------------------------------------------------------

  /** Apply the recorded operations, oldest first. */
  function Replay(lib: ParseDates.Strptime, entries: seq<Entry>, f: Frame): (r: Option<Frame>)
    requires f.Valid()
    ensures r.Some? ==> r.value.Valid()
  {
    if entries == [] then Some(f) else
      var last := entries[|entries| - 1];
      match Replay(lib, entries[..|entries| - 1], f)
      case None => None
      case Some(g) => Applied(lib, last, g)
  }

  function Applied(lib: ParseDates.Strptime, e: Entry, g: Frame): (r: Option<Frame>)
    requires g.Valid()
    ensures r.Some? ==> r.value.Valid()
  {
    match ApplyOperation(lib, e.op, e.args, g)
    case Err(_) => None
    case Ok(res) => if res.frame.Some? && WellFormed(res.frame.value) then res.frame else None
  }

  predicate WellFormed(f: Frame)
    ensures WellFormed(f) <==> f.Valid()
  {
    && (forall i, j :: 0 <= i < j < |f.fields| ==> f.fields[i].name != f.fields[j].name)
    && (forall i :: 0 <= i < |f.rows| ==> |f.rows[i]| == |f.fields|)
  }

  lemma {:induction false} ChainReplays(lib: ParseDates.Strptime, snapshots: map<Path, Frame>, entries: seq<Entry>,
                                        origin: Path, to: Path)
    requires Chain(entries, origin, to) && origin in snapshots && snapshots[origin].Valid()
    requires forall i :: 0 <= i < |entries| ==> Sound(lib, snapshots, entries[i])
    ensures to in snapshots && Replay(lib, entries, snapshots[origin]) == Some(snapshots[to])
  {
    if entries != [] {
      var n := |entries| - 1;
      assert Sound(lib, snapshots, entries[n]);
      ChainReplays(lib, snapshots, entries[..n], origin, entries[n].before);
    }
  }

  /** The current frame is the operations of the active entries applied, in order, to the original frame. */
  lemma CurrentIsReplay(lib: ParseDates.Strptime, s: State, origin: Path)
    requires Inv(lib, s, origin)
    ensures Replay(lib, Active(s.journal), s.snapshots[origin]) == Some(s.snapshots[s.copy.path])
  {
    ActiveAreSound(lib, s);
    ChainReplays(lib, s.snapshots, Active(s.journal), origin, s.copy.path);
  }

  lemma ActiveAreSound(lib: ParseDates.Strptime, s: State)
    requires forall i :: 0 <= i < |s.journal| ==> Sound(lib, s.snapshots, s.journal[i])
    requires Readable(s)
    ensures forall i :: 0 <= i < |Active(s.journal)| ==>
              Sound(lib, s.snapshots, Active(s.journal)[i])
  {
    ActiveMembers(s.journal);
    forall i | 0 <= i < |Active(s.journal)|
      ensures Sound(lib, s.snapshots, Active(s.journal)[i])
    {
      assert Active(s.journal)[i] in Active(s.journal);
      var m :| 0 <= m < |s.journal| && s.journal[m] == Active(s.journal)[i];
      assert Sound(lib, s.snapshots, s.journal[m]);
    }
  }

  // ---- conservation of rows and columns -----------------------------------

  function RowsLost(entries: seq<Entry>): int {
    if entries == [] then 0 else
      var last := entries[|entries| - 1];
      RowsLost(entries[..|entries| - 1]) + (last.rowsBefore - last.rowsAfter)
  }

  /** From a frame with the original names, the entry keeps the names and only drops rows, as many as it records. */
  ghost predicate Conserves(snapshots: map<Path, Frame>, e: Entry, names: seq<string>) {
    && e.before in snapshots && e.after in snapshots
    && snapshots[e.before].Height() == e.rowsBefore && snapshots[e.after].Height() == e.rowsAfter
    && (snapshots[e.before].Names() == names ==> snapshots[e.after].Names() == names && e.rowsAfter <= e.rowsBefore)
  }

  lemma SoundConserves(lib: ParseDates.Strptime, snapshots: map<Path, Frame>, e: Entry, f: Frame)
    requires Sound(lib, snapshots, e) && SafeArgs(f, e.op, e.args)
    ensures Conserves(snapshots, e, f.Names())
  {
    if snapshots[e.before].Names() == f.Names() { SafetyByNames(f, snapshots[e.before], e.op, e.args); }
  }

  lemma {:induction false} ChainConserves(snapshots: map<Path, Frame>, entries: seq<Entry>, origin: Path, to: Path)
    requires Chain(entries, origin, to) && origin in snapshots
    requires forall i :: 0 <= i < |entries| ==> Conserves(snapshots, entries[i], snapshots[origin].Names())
    ensures to in snapshots && snapshots[to].Names() == snapshots[origin].Names()
    ensures forall i :: 0 <= i < |entries| ==> entries[i].rowsBefore >= entries[i].rowsAfter
    ensures snapshots[origin].Height() - snapshots[to].Height() == RowsLost(entries)
  {
    if entries != [] {
      var n := |entries| - 1;
      ChainConserves(snapshots, entries[..n], origin, entries[n].before);
      assert Conserves(snapshots, entries[n], snapshots[origin].Names());
      assert forall i :: 0 <= i < n ==> entries[..n][i] == entries[i];
    }
  }

  /** Rows lost since the original are the active entries' losses, none negative; the columns never change. */
  lemma RowsAndColumnsConserved(lib: ParseDates.Strptime, s: State, origin: Path)
    requires Inv(lib, s, origin)
    requires forall i :: 0 <= i < |Active(s.journal)| ==>
               SafeArgs(s.snapshots[origin], Active(s.journal)[i].op, Active(s.journal)[i].args)
    ensures s.snapshots[origin].Height() - s.copy.rowCount == RowsLost(Active(s.journal))
    ensures forall i :: 0 <= i < |Active(s.journal)| ==>
              Active(s.journal)[i].rowsBefore >= Active(s.journal)[i].rowsAfter
    ensures s.snapshots[s.copy.path].Names() == s.snapshots[origin].Names()
    ensures s.copy.columnCount == s.snapshots[origin].Width()
  {
    ActiveAreSound(lib, s);
    var entries, f := Active(s.journal), s.snapshots[origin];
    forall i | 0 <= i < |entries| ensures Conserves(s.snapshots, entries[i], f.Names()) {
      SoundConserves(lib, s.snapshots, entries[i], f);
    }
    ChainConserves(s.snapshots, entries, origin, s.copy.path);
    var a, b := s.snapshots[s.copy.path], s.snapshots[origin];
    assert |a.Names()| == |a.fields| && |b.Names()| == |b.fields|;
  }

  // ---- undo and reset -----------------------------------------------------

  /** While the entry at `m` is active, nothing before it has been touched. */
  ghost predicate PrefixKept(journal: seq<Entry>, base: seq<Entry>, e: Entry) {
    var m := |base|;
    && m < |journal| && journal[m].(undoneAt := None) == e
    && (IsActive(journal[m]) ==> journal[..m] == base)
  }

  lemma AppendKeepsPrefix(journal: seq<Entry>, longer: seq<Entry>, base: seq<Entry>, e: Entry)
    requires PrefixKept(journal, base, e) && journal <= longer
    ensures PrefixKept(longer, base, e)
  {
    assert longer[..|base|] == journal[..|base|];
  }

  lemma StampKeepsPrefix(journal: seq<Entry>, k: nat, now: int, base: seq<Entry>, e: Entry)
    requires PrefixKept(journal, base, e) && Ordered(journal) && k < |journal| && IsActive(journal[k])
    ensures PrefixKept(StampFrom(journal, journal[k].createdAt, now), base, e)
  {
    var m, stamped := |base|, StampFrom(journal, journal[k].createdAt, now);
    StampsSuffix(journal, k, now);
    if IsActive(stamped[m]) {
      assert m < k;
      assert stamped[..m] == stamped[..k][..m] == journal[..k][..m] == journal[..m];
    }
  }

  lemma StepKeepsPrefix(lib: ParseDates.Strptime, s: State, origin: Path, ev: Event, base: seq<Entry>, e: Entry)
    requires Inv(lib, s, origin) && Admissible(s, ev) && PrefixKept(s.journal, base, e)
    ensures PrefixKept(Step(lib, s, ev).journal, base, e)
  {
    match ev
    case RunEvent(t, op, args) =>
      RunPreserves(lib, s, origin, t, op, args);
      AppendKeepsPrefix(s.journal, Run(lib, s, t, op, args).journal, base, e);
    case UndoEvent(id, now) =>
      if Undo(s, id, now).Ok? { StampKeepsPrefix(s.journal, FindEntry(s.journal, id), now, base, e); }
    case ResetEvent(now) =>
      OldestIsFirst(s.journal);
      ActiveMembers(s.journal);
  }

  lemma PrefixAt(lib: ParseDates.Strptime, states: seq<State>, events: seq<Event>, origin: Path, i: nat,
                 base: seq<Entry>, e: Entry)
    requires IsRun(lib, states, events) && Inv(lib, states[0], origin) && i < |events|
    requires PrefixKept(states[i].journal, base, e)
    ensures PrefixKept(states[i + 1].journal, base, e)
  {
    RunKeepsInv(lib, states, events, origin, i);
    StepKeepsPrefix(lib, states[i], origin, events[i], base, e);
  }

  lemma {:induction false} RunKeepsPrefix(lib: ParseDates.Strptime, states: seq<State>, events: seq<Event>,
                                          origin: Path,
                                          n: nat, base: seq<Entry>, e: Entry)
    requires IsRun(lib, states, events) && Inv(lib, states[0], origin) && n <= |events|
    requires PrefixKept(states[0].journal, base, e)
    ensures PrefixKept(states[n].journal, base, e)
  {
    if n > 0 {
      RunKeepsPrefix(lib, states, events, origin, n - 1, base, e);
      PrefixAt(lib, states, events, origin, n - 1, base, e);
    }
  }

  /** An entry that is still active is where it was put, and nothing before it has been touched. */
  lemma EntryIsWhereItWas(lib: ParseDates.Strptime, before: State, origin: Path, t: Ticket, op: string, args: OpArgs,
                          states: seq<State>, events: seq<Event>)
    requires Inv(lib, before, origin) && Admissible(before, RunEvent(t, op, args))
    requires RunOutcome(lib, before, op, args).Ok? && IsMutating(op)
    requires IsRun(lib, states, events) && states[0] == Run(lib, before, t, op, args)
    requires var last := states[|events|];
             exists m :: 0 <= m < |last.journal| && last.journal[m].id == t.id && IsActive(last.journal[m])
    ensures var last, m := states[|events|], |before.journal|;
            && Inv(lib, last, origin) && Extends(before, last) && m < |last.journal|
            && last.journal[..m] == before.journal
            && IsActive(last.journal[m]) && last.journal[m].id == t.id && last.journal[m].before == before.copy.path
  {
    var last, base := states[|events|], before.journal;
    RunPreserves(lib, before, origin, t, op, args);
    var e := states[0].journal[|base|];
    RunKeepsInv(lib, states, events, origin, |events|);
    RunKeepsPrefix(lib, states, events, origin, |events|, base, e);
    var m :| 0 <= m < |last.journal| && last.journal[m].id == t.id && IsActive(last.journal[m]);
    assert last.journal[|base|].id == t.id;
    assert m == |base|;
  }

  /** Undoing an entry that is still active, however much later, restores exactly the state held before it ran:
      the path, the counts, and the active entries; and it reports how many entries it undid. */
  lemma UndoRestores(lib: ParseDates.Strptime, before: State, origin: Path, t: Ticket, op: string, args: OpArgs,
                     states: seq<State>, events: seq<Event>, now: int)
    requires Inv(lib, before, origin) && Admissible(before, RunEvent(t, op, args))
    requires RunOutcome(lib, before, op, args).Ok? && IsMutating(op)
    requires IsRun(lib, states, events) && states[0] == Run(lib, before, t, op, args)
    requires var last := states[|events|];
             exists m :: 0 <= m < |last.journal| && last.journal[m].id == t.id && IsActive(last.journal[m])
    ensures var last := states[|events|];
            && Readable(last) && Undo(last, t.id, now).Ok?
            && var (after, undone) := Undo(last, t.id, now).value;
               && after.copy == before.copy
               && Active(after.journal) == Active(before.journal)
               && Active(before.journal) <= Active(last.journal)
               && undone == |Active(last.journal)| - |Active(before.journal)|
  {
    var last, m := states[|events|], |before.journal|;
    EntryIsWhereItWas(lib, before, origin, t, op, args, states, events);
    FindsEntry(last.journal, m);
    StampsSuffix(last.journal, m, now);
    ActiveSplits(last.journal, m);
    ActivePrefix(last.journal, m);
    assert last.journal[m].before == before.copy.path;
    assert last.snapshots[before.copy.path] == before.snapshots[before.copy.path];
  }

  /** Reset is undoing the earliest active entry; with none active it is the identity, at the original. */
  lemma ResetIsUndoEarliest(lib: ParseDates.Strptime, s: State, origin: Path, now: int)
    requires Inv(lib, s, origin)
    ensures Active(s.journal) == [] ==> Reset(s, now) == (s, 0) && s.copy.path == origin
    ensures Active(s.journal) != [] ==> Undo(s, Active(s.journal)[0].id, now) == Ok(Reset(s, now))
  {
    OldestIsFirst(s.journal);
    if Active(s.journal) != [] { EarliestStampsAll(s.journal, now); }
  }

  /** Stamping from the earliest active entry is stamping every active one. */
  lemma EarliestStampsAll(journal: seq<Entry>, now: int)
    requires Ordered(journal) && Active(journal) != []
    ensures var m := Oldest(journal);
            && m < |journal| && Active(journal)[0] == journal[m] && FindEntry(journal, journal[m].id) == m
            && StampFrom(journal, journal[m].createdAt, now) == StampAll(journal, now)
            && CountActive(journal, journal[m].createdAt) == |Active(journal)|
  {
    OldestIsFirst(journal);
    var m := Oldest(journal);
    FindsEntry(journal, m);
    StampsSuffix(journal, m, now);
    ActiveOfNone(journal[..m]);
    ActiveSplits(journal, m);
  }

  /** After a reset the current frame is the original one, and the audit trail still holds every entry. */
  lemma ResetRestoresOriginal(lib: ParseDates.Strptime, s: State, origin: Path, now: int)
    requires Inv(lib, s, origin)
    ensures var (s', undone) := Reset(s, now);
            && s'.copy == PointAt(s.snapshots, origin) && Active(s'.journal) == []
            && undone == |Active(s.journal)| && |s'.journal| == |s.journal|
  {
    ResetPreserves(lib, s, origin, now);
    OldestIsFirst(s.journal);
  }

  // ---- without the clock assumption ---------------------------------------

  /** Every operation wrote a snapshot of its own. */
  ghost predicate WriteOnce(journal: seq<Entry>, origin: Path) {
    && (forall i, j :: 0 <= i < j < |journal| ==> journal[i].after != journal[j].after)
    && (forall i :: 0 <= i < |journal| ==> journal[i].after != origin)
  }

  lemma RunStepWritesOnce(lib: ParseDates.Strptime, s: State, origin: Path, t: Ticket, op: string, args: OpArgs)
    requires Inv(lib, s, origin) && WriteOnce(s.journal, origin) && t.path !in s.snapshots
    ensures WriteOnce(Run(lib, s, t, op, args).journal, origin)
  {
    forall i | 0 <= i < |s.journal| ensures s.journal[i].after != t.path {
      assert Sound(lib, s.snapshots, s.journal[i]);
    }
  }

  /** The same entries, stamped or not. */
  ghost predicate SameWrites(journal: seq<Entry>, journal': seq<Entry>) {
    |journal'| == |journal| && forall i :: 0 <= i < |journal| ==> journal'[i].after == journal[i].after
  }

  lemma SameWritesOnce(journal: seq<Entry>, journal': seq<Entry>, origin: Path)
    requires WriteOnce(journal, origin) && SameWrites(journal, journal')
    ensures WriteOnce(journal', origin)
  {
  }

  lemma StampsWriteNothing(s: State, e: Event, lib: ParseDates.Strptime)
    requires Readable(s) && !e.RunEvent?
    ensures SameWrites(s.journal, Step(lib, s, e).journal)
  {
  }

  lemma StepWritesOnce(lib: ParseDates.Strptime, s: State, origin: Path, e: Event)
    requires Inv(lib, s, origin) && Admissible(s, e) && WriteOnce(s.journal, origin)
    ensures WriteOnce(Step(lib, s, e).journal, origin)
  {
    match e
    case RunEvent(t, op, args) => RunStepWritesOnce(lib, s, origin, t, op, args);
    case _ =>
      StampsWriteNothing(s, e, lib);
      SameWritesOnce(s.journal, Step(lib, s, e).journal, origin);
  }

  /** Over any run no snapshot is the result of two operations, and v0 of none. */
  lemma {:induction false} RunWritesOnce(lib: ParseDates.Strptime, states: seq<State>, events: seq<Event>,
                                         origin: Path, n: nat)
    requires IsRun(lib, states, events) && Inv(lib, states[0], origin) && WriteOnce(states[0].journal, origin)
          && n <= |events|
    ensures WriteOnce(states[n].journal, origin)
  {
    if n > 0 {
      RunWritesOnce(lib, states, events, origin, n - 1);
      RunKeepsInv(lib, states, events, origin, n - 1);
      StepWritesOnce(lib, states[n - 1], origin, events[n - 1]);
    }
  }

  /** Times never go back, but may repeat. */
  ghost predicate Timely(journal: seq<Entry>) {
    forall i, j :: 0 <= i < j < |journal| ==> journal[i].createdAt <= journal[j].createdAt
  }

  lemma {:induction false} ChainEndsOnce(entries: seq<Entry>, from: Path, a: Path, b: Path)
    requires Chain(entries, from, a) && Chain(entries, from, b)
    ensures a == b
  {
  }

  lemma {:induction false} LastActive(journal: seq<Entry>) returns (p: nat)
    requires Active(journal) != []
    ensures p < |journal| && IsActive(journal[p]) && Active(journal)[|Active(journal)| - 1] == journal[p]
    ensures forall i :: p < i < |journal| ==> !IsActive(journal[i])
  {
    var n := |journal| - 1;
    if IsActive(journal[n]) {
      p := n;
    } else {
      p := LastActive(journal[..n]);
    }
  }

  /** Two active entries start from different snapshots. */
  lemma StartsDiffer(journal: seq<Entry>, origin: Path, to: Path, i: nat, m: nat)
    requires WriteOnce(journal, origin) && Chain(Active(journal), origin, to)
    requires i < m < |journal| && IsActive(journal[i]) && IsActive(journal[m])
    ensures journal[i].before != journal[m].before
  {
    ChainUpTo(journal, origin, to, i);
    ChainUpTo(journal, origin, to, m);
    ActiveMembers(journal[..m]);
    assert journal[..m][i] == journal[i];
    var p := LastActive(journal[..m]);
    assert i <= p && journal[m].before == journal[p].after;
    if Active(journal[..i]) != [] {
      var q := LastActive(journal[..i]);
      assert journal[i].before == journal[q].after;
    }
  }

  /** The stamped journal, when times may repeat: what stays active is what came before the target's time. */
  lemma StampCutsAtTime(journal: seq<Entry>, k: nat, since: int, now: int)
    requires k <= |journal| && forall i :: 0 <= i < |journal| ==> (journal[i].createdAt >= since <==> i >= k)
    ensures Active(StampFrom(journal, since, now)) == Active(journal[..k])
  {
    var r := StampFrom(journal, since, now);
    assert r[..k] == journal[..k];
    ActiveOfPrefix(r, k);
  }

  lemma {:induction false} FirstAt(journal: seq<Entry>, m: nat) returns (k: nat)
    requires Timely(journal) && m < |journal|
    ensures k <= m && forall i :: 0 <= i < |journal| ==> (journal[i].createdAt >= journal[m].createdAt <==> i >= k)
  {
    k := m;
    while k > 0 && journal[k - 1].createdAt == journal[m].createdAt
      invariant k <= m && journal[k].createdAt == journal[m].createdAt
    {
      k := k - 1;
    }
  }

  /** When times may repeat, undo still leaves the active entries a chain up to the pointer exactly when no active entry
      before the target shares the target's time. */
  lemma UndoKeepsChainIff(s: State, origin: Path, id: nat, now: int)
    requires Readable(s) && Undo(s, id, now).Ok?
    requires WriteOnce(s.journal, origin) && Timely(s.journal) && Chain(Active(s.journal), origin, s.copy.path)
    ensures var (s', m) := (Undo(s, id, now).value.0, FindEntry(s.journal, id));
            Chain(Active(s'.journal), origin, s'.copy.path)
            <==> forall i :: 0 <= i < m && IsActive(s.journal[i]) ==> s.journal[i].createdAt != s.journal[m].createdAt
  {
    CutKeepsChainIff(s.journal, origin, s.copy.path, FindEntry(s.journal, id), now);
  }

  lemma CutKeepsChainIff(journal: seq<Entry>, origin: Path, to: Path, m: nat, now: int)
    requires WriteOnce(journal, origin) && Timely(journal) && Chain(Active(journal), origin, to)
    requires m < |journal| && IsActive(journal[m])
    ensures Chain(Active(StampFrom(journal, journal[m].createdAt, now)), origin, journal[m].before)
            <==> forall i :: 0 <= i < m && IsActive(journal[i]) ==> journal[i].createdAt != journal[m].createdAt
  {
    var k := FirstAt(journal, m);
    StampCutsAtTime(journal, k, journal[m].createdAt, now);
    if i :| k <= i < m && IsActive(journal[i]) {
      assert journal[i].createdAt == journal[m].createdAt;
      CutTooEarly(journal, origin, to, k, m, i);
    } else {
      SkipInactive(journal, k, m);
      ChainUpTo(journal, origin, to, m);
    }
  }

  lemma SkipInactive(journal: seq<Entry>, k: nat, m: nat)
    requires k <= m <= |journal| && forall i :: k <= i < m ==> !IsActive(journal[i])
    ensures Active(journal[..m]) == Active(journal[..k])
  {
    ActiveOfPrefix(journal[..m], k);
    assert journal[..m][..k] == journal[..k];
  }

  /** Entries cut off before the target leave the chain ending elsewhere than where the target starts. */
  lemma {:induction false} CutTooEarly(j: seq<Entry>, origin: Path, to: Path, k: nat, m: nat, i: nat)
    requires WriteOnce(j, origin) && Chain(Active(j), origin, to)
    requires k <= i < m < |j| && IsActive(j[i]) && IsActive(j[m])
    ensures !Chain(Active(j[..k]), origin, j[m].before)
    decreases i
  {
    if f :| k <= f < i && IsActive(j[f]) {
      CutTooEarly(j, origin, to, k, m, f);
    } else {
      SkipInactive(j, k, i);
      ChainUpTo(j, origin, to, i);
      StartsDiffer(j, origin, to, i, m);
      if Chain(Active(j[..k]), origin, j[m].before) { ChainEndsOnce(Active(j[..k]), origin, j[i].before, j[m].before); }
    }
  }

  /** Two entries with one time: undoing the second undoes both, but points between them. */
  lemma TieUndoesBoth(s: State, origin: Path, first: Entry, second: Entry, now: int)
    requires Readable(s) && s.journal == [first, second] && first.id != second.id
    requires IsActive(first) && IsActive(second) && first.createdAt == second.createdAt
    requires Chain(Active(s.journal), origin, s.copy.path) && first.after != origin
    ensures Undo(s, second.id, now).Ok?
    ensures var (s', undone) := Undo(s, second.id, now).value;
            undone == 2 && Active(s'.journal) == [] && s'.copy.path == first.after != origin
  {
    TieCutsAll(first, second, now);
    BothActive(first, second);
    assert [first, second][..0] == [];
  }

  lemma BothActive(first: Entry, second: Entry)
    requires IsActive(first) && IsActive(second)
    ensures Active([first, second]) == [first, second]
  {
    ActiveOfAppend([first], second);
    ActiveOfAppend([], first);
    assert [first] + [second] == [first, second] && [] + [first] == [first];
  }

  lemma TieCutsAll(first: Entry, second: Entry, now: int)
    requires IsActive(first) && IsActive(second) && first.createdAt == second.createdAt && first.id != second.id
    ensures FindEntry([first, second], second.id) == 1
    ensures Active(StampFrom([first, second], second.createdAt, now)) == []
         && CountActive([first, second], second.createdAt) == 2
  {
    assert [first, second][1..] == [second] && [first, second][..1] == [first] && [first][..0] == [];
    ActiveOfNone(StampFrom([first, second], second.createdAt, now));
    assert CountActive([first], second.createdAt) == 1;
  }

  /** Entry `m` is active and no active entry is earlier: what `order_by(created_at)` may put first. */
  ghost predicate MayComeFirst(journal: seq<Entry>, m: nat) {
    && m < |journal| && IsActive(journal[m])
    && forall i :: 0 <= i < |journal| && IsActive(journal[i]) ==> journal[m].createdAt <= journal[i].createdAt
  }

  lemma {:induction false} FirstActive(journal: seq<Entry>) returns (p: nat)
    requires Active(journal) != []
    ensures p < |journal| && IsActive(journal[p]) && forall i :: 0 <= i < p ==> !IsActive(journal[i])
  {
    var n := |journal| - 1;
    if Active(journal[..n]) != [] {
      p := FirstActive(journal[..n]);
      assert forall i :: 0 <= i < n ==> journal[..n][i] == journal[i];
    } else {
      p := n;
      forall i | 0 <= i < n ensures !IsActive(journal[i]) {
        ActiveMembers(journal[..n]);
        assert journal[..n][i] in journal[..n];
      }
    }
  }

  /** When times may repeat, reset goes back to the original, whichever of the tied entries comes first, exactly when
      no two active entries share the earliest time. */
  lemma ResetReachesOriginalIff(s: State, origin: Path)
    requires WriteOnce(s.journal, origin) && Timely(s.journal) && Chain(Active(s.journal), origin, s.copy.path)
    ensures (forall m: nat :: MayComeFirst(s.journal, m) ==> s.journal[m].before == origin)
       <==> (forall i: nat, j: nat :: MayComeFirst(s.journal, i) && MayComeFirst(s.journal, j) ==> i == j)
  {
    var journal := s.journal;
    if m: nat :| MayComeFirst(journal, m) {
      var p := FirstStartsAtOriginal(journal, origin, s.copy.path, m);
      forall j: nat | MayComeFirst(journal, j) && j != p ensures journal[j].before != origin {
        StartsDiffer(journal, origin, s.copy.path, p, j);
      }
    }
  }

  /** The first active entry starts from the original, and no later one is before it in time. */
  lemma FirstStartsAtOriginal(journal: seq<Entry>, origin: Path, to: Path, m: nat) returns (p: nat)
    requires Timely(journal) && Chain(Active(journal), origin, to) && m < |journal| && IsActive(journal[m])
    ensures MayComeFirst(journal, p) && journal[p].before == origin
    ensures forall i :: 0 <= i < p ==> !IsActive(journal[i])
  {
    ActiveMembers(journal);
    assert journal[m] in Active(journal);
    p := FirstActive(journal);
    SkipInactive(journal, 0, p);
    ChainUpTo(journal, origin, to, p);
    assert journal[..0] == [];
    FirstMayComeFirst(journal, p);
  }

  lemma FirstMayComeFirst(journal: seq<Entry>, p: nat)
    requires Timely(journal) && p < |journal| && IsActive(journal[p])
    requires forall i :: 0 <= i < p ==> !IsActive(journal[i])
    ensures MayComeFirst(journal, p)
  {
  }
}
