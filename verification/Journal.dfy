/** The working-copy journal: a pointer to write-once snapshots and an append-only list of changes. */
module Journal {
  import opened Wrappers
  import opened Frames
  import opened Operations
  import opened Dispatcher
  import ParseDates

  type Path = string

  /** `undoneAt` doubles as the active flag. */
  datatype Entry = Entry(
    id: nat, op: string, args: OpArgs, before: Path, after: Path,
    rowsBefore: nat, rowsAfter: nat, summary: Summary, createdAt: int, undoneAt: Option<int>)

  datatype Copy = Copy(path: Path, rowCount: nat, columnCount: nat)

  datatype State = State(copy: Copy, journal: seq<Entry>, snapshots: map<Path, Frame>)

  /** The fresh values one operation draws: a row id, a snapshot path and the time. */
  datatype Ticket = Ticket(id: nat, path: Path, now: int)

  datatype WorkingCopyError = EntryNotFound | AlreadyUndone

  // ---- the steps as values ------------------------------------------------

  predicate IsActive(e: Entry) { e.undoneAt.None? }

  /** The entries not undone, in journal order. */
  function Active(journal: seq<Entry>): (r: seq<Entry>)
    ensures |r| <= |journal|
  {
    if journal == [] then [] else
      var front := Active(journal[..|journal| - 1]);
      if IsActive(journal[|journal| - 1]) then front + [journal[|journal| - 1]] else front
  }

  /** A pointer to a snapshot, with the counts read from it. */
  function PointAt(snapshots: map<Path, Frame>, path: Path): Copy
    requires path in snapshots
  {
    Copy(path, snapshots[path].Height(), snapshots[path].Width())
  }

  /** First use: the source is written as the original snapshot, beside whatever files are already there. */
  function Materialise(files: map<Path, Frame>, source: Frame, path: Path): State {
    var snapshots := files[path := source];
    State(PointAt(snapshots, path), [], snapshots)
  }

  ghost predicate Readable(s: State) {
    && s.copy.path in s.snapshots
    && (forall p :: p in s.snapshots ==> s.snapshots[p].Valid())
    && (forall i :: 0 <= i < |s.journal| ==> s.journal[i].before in s.snapshots)
  }

  function RunOutcome(lib: ParseDates.Strptime, s: State, op: string, args: OpArgs): Outcome
    requires Readable(s)
  {
    ApplyOperation(lib, op, args, s.snapshots[s.copy.path])
  }

  function Run(lib: ParseDates.Strptime, s: State, t: Ticket, op: string, args: OpArgs): (s': State)
    requires Readable(s)
    ensures Readable(s')
  {
    var r := RunOutcome(lib, s, op, args);
    if r.Ok? then OperationReturns(lib, op, args, s.snapshots[s.copy.path]); AfterRun(s, t, op, args, r) else s
  }

  /** The state change of an operation that returned `r`. */
  function AfterRun(s: State, t: Ticket, op: string, args: OpArgs, r: Outcome): (s': State)
    requires Readable(s) && (r.Ok? && r.value.frame.Some? ==> r.value.frame.value.Valid())
    ensures Readable(s')
  {
    if r.Ok? && IsMutating(op) && r.value.frame.Some? then
      var g := r.value.frame.value;
      var entry := Entry(t.id, op, args, s.copy.path, t.path, s.copy.rowCount, g.Height(), r.value.summary, t.now,
          None);
      State(Copy(t.path, g.Height(), g.Width()), s.journal + [entry], s.snapshots[t.path := g])
    else s
  }

  /** Stamp every active entry that passes the filter. */
  function StampFrom(journal: seq<Entry>, since: int, now: int): (r: seq<Entry>)
    ensures |r| == |journal|
  {
    seq(|journal|, i requires 0 <= i < |journal| =>
      if IsActive(journal[i]) && journal[i].createdAt >= since then journal[i].(undoneAt := Some(now)) else journal[i])
  }

  function CountActive(journal: seq<Entry>, since: int): nat {
    if journal == [] then 0 else
      var last := journal[|journal| - 1];
      CountActive(journal[..|journal| - 1], since) + if IsActive(last) && last.createdAt >= since then 1 else 0
  }

  /** The position of the entry with this id, or the journal's length. */
  function FindEntry(journal: seq<Entry>, id: nat): (m: nat)
    ensures m <= |journal| && (m < |journal| ==> journal[m].id == id)
  {
    if journal == [] || journal[0].id == id then 0 else 1 + FindEntry(journal[1..], id)
  }

  function Undo(s: State, id: nat, now: int): Result<(State, nat), WorkingCopyError>
    requires Readable(s)
  {
    var m := FindEntry(s.journal, id);
    if m == |s.journal| then Err(EntryNotFound)
    else if !IsActive(s.journal[m]) then Err(AlreadyUndone)
    else
      var e := s.journal[m];
      Ok((State(PointAt(s.snapshots, e.before), StampFrom(s.journal, e.createdAt, now), s.snapshots),
          CountActive(s.journal, e.createdAt)))
  }

  /** The position of the oldest active entry, or the journal's length. */
  function Oldest(journal: seq<Entry>): (m: nat)
    ensures m <= |journal| && (m < |journal| ==> IsActive(journal[m]))
  {
    if journal == [] then 0 else
      var n := |journal| - 1;
      var m := Oldest(journal[..n]);
      if IsActive(journal[n]) && (m == n || journal[n].createdAt < journal[m].createdAt) then n
      else if m == n then n + 1 else m
  }

  function StampAll(journal: seq<Entry>, now: int): (r: seq<Entry>)
    ensures |r| == |journal|
  {
    seq(|journal|, i requires 0 <= i < |journal| =>
      if IsActive(journal[i]) then journal[i].(undoneAt := Some(now)) else journal[i])
  }

  function Reset(s: State, now: int): (State, nat)
    requires Readable(s)
  {
    var m := Oldest(s.journal);
    if m == |s.journal| then (s, 0)
    else (State(PointAt(s.snapshots, s.journal[m].before), StampAll(s.journal, now), s.snapshots), |Active(s.journal)|)
  }

  // ---- the invariant ------------------------------------------------------

  /** Each entry starts from the snapshot the one before it produced. */
  predicate Chain(entries: seq<Entry>, from: Path, to: Path) {
    if entries == [] then from == to else
      var last := entries[|entries| - 1];
      last.after == to && Chain(entries[..|entries| - 1], from, last.before)
  }

  /** The entry records one operation between two stored snapshots. */
  ghost predicate Sound(lib: ParseDates.Strptime, snapshots: map<Path, Frame>, e: Entry) {
    && e.before in snapshots && e.after in snapshots && snapshots[e.before].Valid()
    && e.rowsBefore == snapshots[e.before].Height() && e.rowsAfter == snapshots[e.after].Height()
    && IsMutating(e.op)
    && ApplyOperation(lib, e.op, e.args, snapshots[e.before])
       == Ok(OperationResult(Some(snapshots[e.after]), e.summary))
    && snapshots[e.after].Valid()
    && (SafeArgs(snapshots[e.before], e.op, e.args) ==>
          snapshots[e.after].Names() == snapshots[e.before].Names() && e.rowsAfter <= e.rowsBefore)
  }

  ghost predicate Ordered(journal: seq<Entry>) {
    && (forall i, j :: 0 <= i < j < |journal| ==> journal[i].createdAt < journal[j].createdAt)
    && (forall i, j :: 0 <= i < j < |journal| ==> journal[i].id != journal[j].id)
  }

  ghost predicate Inv(lib: ParseDates.Strptime, s: State, origin: Path) {
    && Readable(s)
    && s.copy == PointAt(s.snapshots, s.copy.path)
    && origin in s.snapshots
    && (forall i :: 0 <= i < |s.journal| ==> Sound(lib, s.snapshots, s.journal[i]))
    && Ordered(s.journal)
    && Chain(Active(s.journal), origin, s.copy.path)
  }

  /** A fresh path and id, and a clock past every earlier entry. */
  ghost predicate Fresh(s: State, t: Ticket) {
    && t.path !in s.snapshots
    && (forall i :: 0 <= i < |s.journal| ==> s.journal[i].id != t.id && s.journal[i].createdAt < t.now)
  }

  lemma {:induction false} ActiveMembers(journal: seq<Entry>)
    ensures forall e :: e in Active(journal) <==> e in journal && IsActive(e)
  {
    if journal != [] {
      ActiveMembers(journal[..|journal| - 1]);
      assert journal == journal[..|journal| - 1] + [journal[|journal| - 1]];
    }
  }

  lemma ActiveOfAppend(journal: seq<Entry>, e: Entry)
    ensures Active(journal + [e]) == if IsActive(e) then Active(journal) + [e] else Active(journal)
  {
    assert (journal + [e])[..|journal|] == journal;
  }

  lemma {:induction false} ActiveOfNone(journal: seq<Entry>)
    requires forall i :: 0 <= i < |journal| ==> !IsActive(journal[i])
    ensures Active(journal) == []
  {
    if journal != [] { ActiveOfNone(journal[..|journal| - 1]); }
  }

  /** Entries past position `m` all undone: the active ones are those before `m`. */
  lemma {:induction false} ActiveOfPrefix(journal: seq<Entry>, m: nat)
    requires m <= |journal| && forall i :: m <= i < |journal| ==> !IsActive(journal[i])
    ensures Active(journal) == Active(journal[..m])
    decreases |journal|
  {
    if m < |journal| {
      var front := journal[..|journal| - 1];
      ActiveOfPrefix(front, m);
      assert front[..m] == journal[..m];
    } else {
      assert journal[..m] == journal;
    }
  }

  lemma {:induction false} ActiveSplits(journal: seq<Entry>, m: nat)
    requires m <= |journal|
    ensures Active(journal) == Active(journal[..m]) + Active(journal[m..])
    decreases |journal|
  {
    var n := |journal| - 1;
    if m == |journal| {
      assert journal[..m] == journal && journal[m..] == [];
    } else {
      ActiveSplits(journal[..n], m);
      assert journal[..n][..m] == journal[..m] && journal[..n][m..] == journal[m..][..n - m];
      assert journal[m..][n - m] == journal[n];
    }
  }

  lemma {:induction false} ChainPrefix(entries: seq<Entry>, from: Path, to: Path, k: nat)
    requires k < |entries| && Chain(entries, from, to)
    ensures Chain(entries[..k], from, entries[k].before)
    decreases |entries|
  {
    var n := |entries| - 1;
    if k < n {
      ChainPrefix(entries[..n], from, entries[n].before, k);
      assert entries[..n][..k] == entries[..k];
    }
  }

  lemma {:induction false} ChainStart(entries: seq<Entry>, from: Path, to: Path)
    requires entries != [] && Chain(entries, from, to)
    ensures entries[0].before == from
  {
    ChainPrefix(entries, from, to, 0);
    assert entries[..0] == [];
  }

  // ---- preservation -------------------------------------------------------

  /** Snapshots are written once: later states read the same frames. */
  ghost predicate Extends(s: State, later: State) {
    forall p :: p in s.snapshots ==> p in later.snapshots && later.snapshots[p] == s.snapshots[p]
  }

  lemma SoundWithMoreFiles(lib: ParseDates.Strptime, files: map<Path, Frame>, more: map<Path, Frame>,
                           journal: seq<Entry>)
    requires forall p :: p in files ==> p in more && more[p] == files[p]
    requires forall i :: 0 <= i < |journal| ==> Sound(lib, files, journal[i])
    ensures forall i :: 0 <= i < |journal| ==> Sound(lib, more, journal[i])
  {
    forall i | 0 <= i < |journal| ensures Sound(lib, more, journal[i]) {
      assert Sound(lib, files, journal[i]);
    }
  }

  /** More files on disk change nothing about the rows. */
  lemma InvWithMoreFiles(lib: ParseDates.Strptime, s: State, origin: Path, files: map<Path, Frame>)
    requires Inv(lib, s, origin) && Extends(s, State(s.copy, s.journal, files))
    requires forall p :: p in files ==> files[p].Valid()
    ensures Inv(lib, State(s.copy, s.journal, files), origin)
  {
    SoundWithMoreFiles(lib, s.snapshots, files, s.journal);
  }

  /** The copy points at the file that holds the source, with its counts; there is no journal, and every other file is
      as before. */
  ghost predicate CopiesSource(s: State, files: map<Path, Frame>, source: Frame, path: Path) {
    && path in s.snapshots && s.snapshots[path] == source
    && s.copy == Copy(path, |source.rows|, |source.fields|) && s.journal == []
    && (forall p :: p != path ==> (p in s.snapshots <==> p in files))
    && (forall p :: p != path && p in files ==> s.snapshots[p] == files[p])
  }

  /** First use copies the source as it is, and starts a working copy in order. */
  lemma MaterialiseEstablishes(lib: ParseDates.Strptime, files: map<Path, Frame>, source: Frame, path: Path)
    requires source.Valid() && forall p :: p in files ==> files[p].Valid()
    ensures CopiesSource(Materialise(files, source, path), files, source, path)
    ensures Inv(lib, Materialise(files, source, path), path)
  {
  }

  /** The entry carries its ticket, the call, and the paths before and after it. */
  ghost predicate IsEntryOf(e: Entry, t: Ticket, op: string, args: OpArgs, before: Path, after: Path) {
    && e.id == t.id && e.createdAt == t.now && e.undoneAt.None?
    && e.op == op && e.args == args && e.before == before && e.after == after == t.path
  }

  lemma RunPreserves(lib: ParseDates.Strptime, s: State, origin: Path, t: Ticket, op: string, args: OpArgs)
    requires Inv(lib, s, origin) && Fresh(s, t)
    ensures Inv(lib, Run(lib, s, t, op, args), origin) && Extends(s, Run(lib, s, t, op, args))
    ensures Run(lib, s, t, op, args) == s <==> !(RunOutcome(lib, s, op, args).Ok? && IsMutating(op))
    ensures RunOutcome(lib, s, op, args).Ok? && IsMutating(op) ==>
              var s' := Run(lib, s, t, op, args);
              && |s'.journal| == |s.journal| + 1 && s'.journal[..|s.journal|] == s.journal
              && IsEntryOf(s'.journal[|s.journal|], t, op, args, s.copy.path, s'.copy.path)
  {
    var f := s.snapshots[s.copy.path];
    var r := RunOutcome(lib, s, op, args);
    if r.Ok? {
      OperationReturns(lib, op, args, f);
      if IsMutating(op) {
        if SafeArgs(f, op, args) { OperationShape(lib, op, args, f); }
        AfterRunPreserves(lib, s, origin, t, op, args, r);
      }
    }
  }

  /** A mutating operation that returned `r` adds one sound entry, chained to the pointer. */
  lemma AfterRunPreserves(lib: ParseDates.Strptime, s: State, origin: Path, t: Ticket, op: string, args: OpArgs,
                          r: Outcome)
    requires Inv(lib, s, origin) && Fresh(s, t) && IsMutating(op)
    requires r.Ok? && r.value.frame.Some? && r.value.frame.value.Valid()
    requires ApplyOperation(lib, op, args, s.snapshots[s.copy.path]) == r
    requires var f, g := s.snapshots[s.copy.path], r.value.frame.value;
             SafeArgs(f, op, args) ==> g.Names() == f.Names() && |g.rows| <= |f.rows|
    ensures var s' := AfterRun(s, t, op, args, r);
            && Inv(lib, s', origin) && Extends(s, s') && s' != s
            && |s'.journal| == |s.journal| + 1 && s'.journal[..|s.journal|] == s.journal
            && IsEntryOf(s'.journal[|s.journal|], t, op, args, s.copy.path, s'.copy.path)
  {
    var s' := AfterRun(s, t, op, args, r);
    var e := s'.journal[|s.journal|];
    SoundWithMoreFiles(lib, s.snapshots, s'.snapshots, s.journal);
    NewEntryIsSound(lib, s, t, op, args, r);
    SoundAfterAppend(lib, s'.snapshots, s.journal, e);
    OrderedAfterAppend(s.journal, e);
    ChainGrows(s.journal, e, origin, s.copy.path);
  }

  lemma SoundAfterAppend(lib: ParseDates.Strptime, files: map<Path, Frame>, journal: seq<Entry>, e: Entry)
    requires Sound(lib, files, e) && forall i :: 0 <= i < |journal| ==> Sound(lib, files, journal[i])
    ensures forall i :: 0 <= i < |journal + [e]| ==> Sound(lib, files, (journal + [e])[i])
  {
    forall i | 0 <= i < |journal + [e]| ensures Sound(lib, files, (journal + [e])[i]) {
      if i < |journal| { assert Sound(lib, files, journal[i]); }
    }
  }

  lemma OrderedAfterAppend(journal: seq<Entry>, e: Entry)
    requires Ordered(journal)
    requires forall i :: 0 <= i < |journal| ==> journal[i].id != e.id && journal[i].createdAt < e.createdAt
    ensures Ordered(journal + [e])
  {
  }

  lemma NewEntryIsSound(lib: ParseDates.Strptime, s: State, t: Ticket, op: string, args: OpArgs, r: Outcome)
    requires Readable(s) && s.copy == PointAt(s.snapshots, s.copy.path) && t.path !in s.snapshots && IsMutating(op)
    requires r.Ok? && r.value.frame.Some? && r.value.frame.value.Valid()
    requires ApplyOperation(lib, op, args, s.snapshots[s.copy.path]) == r
    requires var f, g := s.snapshots[s.copy.path], r.value.frame.value;
             SafeArgs(f, op, args) ==> g.Names() == f.Names() && |g.rows| <= |f.rows|
    ensures var s' := AfterRun(s, t, op, args, r);
            |s'.journal| == |s.journal| + 1 && Sound(lib, s'.snapshots, s'.journal[|s.journal|])
  {
  }

  lemma ChainGrows(journal: seq<Entry>, e: Entry, from: Path, to: Path)
    requires IsActive(e) && e.before == to && Chain(Active(journal), from, to)
    ensures Chain(Active(journal + [e]), from, e.after)
  {
    ActiveOfAppend(journal, e);
    assert (Active(journal) + [e])[..|Active(journal)|] == Active(journal);
  }

  lemma {:induction false} FindsEntry(journal: seq<Entry>, m: nat)
    requires m < |journal| && forall i, j :: 0 <= i < j < |journal| ==> journal[i].id != journal[j].id
    ensures FindEntry(journal, journal[m].id) == m
  {
    if m > 0 { FindsEntry(journal[1..], m - 1); }
  }

  /** Undoing the entry at `m` stamps exactly the active entries from `m` on. */
  lemma StampsSuffix(journal: seq<Entry>, m: nat, now: int)
    requires Ordered(journal) && m < |journal| && IsActive(journal[m])
    ensures var r := StampFrom(journal, journal[m].createdAt, now);
            && r[..m] == journal[..m]
            && (forall i :: m <= i < |r| ==> !IsActive(r[i]))
            && Active(r) == Active(journal[..m])
    ensures CountActive(journal, journal[m].createdAt) == |Active(journal[m..])|
  {
    var since := journal[m].createdAt;
    var r := StampFrom(journal, since, now);
    assert r[..m] == journal[..m];
    ActiveOfPrefix(r, m);
    CountIsSuffix(journal, m, |journal|, since);
    assert journal[..|journal|] == journal;
  }

  /** Undoing the entry at `m` stamps, with the time of the undo, the active entries from `m` on, and no other. */
  lemma StampsNow(journal: seq<Entry>, m: nat, now: int)
    requires Ordered(journal) && m < |journal| && IsActive(journal[m])
    ensures var r := StampFrom(journal, journal[m].createdAt, now);
            && r[..m] == journal[..m] && StampedNow(journal[m..], r[m..], now)
  {
  }

  lemma {:induction false} CountIsSuffix(journal: seq<Entry>, m: nat, n: nat, since: int)
    requires n <= |journal| && m <= |journal|
    requires forall i :: 0 <= i < |journal| ==> (journal[i].createdAt >= since <==> i >= m)
    ensures CountActive(journal[..n], since) == if n <= m then 0 else |Active(journal[m..n])|
    decreases n
  {
    if n > 0 {
      CountIsSuffix(journal, m, n - 1, since);
      assert journal[..n][..n - 1] == journal[..n - 1];
      if n > m {
        assert journal[m..n][..n - 1 - m] == journal[m..n - 1];
      }
    }
  }

  /** The active entries before `m` come first, then the entry at `m`. */
  lemma ActivePrefix(journal: seq<Entry>, m: nat)
    requires m < |journal| && IsActive(journal[m])
    ensures var all, k := Active(journal), |Active(journal[..m])|;
            k < |all| && all[..k] == Active(journal[..m]) && all[k] == journal[m]
  {
    ActiveSplits(journal, m);
    SuffixStartsAt(journal, m);
  }

  /** The same entries, up to their stamps. */
  ghost predicate SameButStamps(before: seq<Entry>, after: seq<Entry>) {
    && |after| == |before|
    && forall i :: 0 <= i < |before| ==> after[i] == before[i].(undoneAt := after[i].undoneAt)
  }

  /** A stamp changes nothing an entry records about its operation. */
  lemma StampedIsSound(lib: ParseDates.Strptime, snapshots: map<Path, Frame>, e: Entry, stamp: Option<int>)
    requires Sound(lib, snapshots, e)
    ensures Sound(lib, snapshots, e.(undoneAt := stamp))
  {
  }

  lemma StampsKeepSound(lib: ParseDates.Strptime, snapshots: map<Path, Frame>, before: seq<Entry>, after: seq<Entry>)
    requires SameButStamps(before, after) && forall i :: 0 <= i < |before| ==> Sound(lib, snapshots, before[i])
    ensures forall i :: 0 <= i < |after| ==> Sound(lib, snapshots, after[i])
  {
    forall i | 0 <= i < |after| ensures Sound(lib, snapshots, after[i]) {
      StampedIsSound(lib, snapshots, before[i], after[i].undoneAt);
    }
  }

  lemma StampsKeepOrder(before: seq<Entry>, after: seq<Entry>)
    requires SameButStamps(before, after) && Ordered(before)
    ensures Ordered(after) && forall i :: 0 <= i < |after| ==> after[i].before == before[i].before
  {
    assert forall i :: 0 <= i < |after| ==> after[i].createdAt == before[i].createdAt && after[i].id == before[i].id;
  }

  /** Moving the pointer and the stamps keeps the invariant, if the active entries still lead to the pointer. */
  lemma RestampedInv(lib: ParseDates.Strptime, s: State, origin: Path, path: Path, journal: seq<Entry>)
    requires Inv(lib, s, origin) && SameButStamps(s.journal, journal) && path in s.snapshots
    requires Chain(Active(journal), origin, path)
    ensures Inv(lib, State(PointAt(s.snapshots, path), journal, s.snapshots), origin)
  {
    StampsKeepSound(lib, s.snapshots, s.journal, journal);
    StampsKeepOrder(s.journal, journal);
  }

  /** The chain up to the entry at `m`, which is what undoing it leaves. */
  lemma ChainUpTo(journal: seq<Entry>, origin: Path, to: Path, m: nat)
    requires m < |journal| && IsActive(journal[m]) && Chain(Active(journal), origin, to)
    ensures Chain(Active(journal[..m]), origin, journal[m].before)
  {
    ActivePrefix(journal, m);
    ChainPrefix(Active(journal), origin, to, |Active(journal[..m])|);
  }

  lemma RewindChains(s: State, origin: Path, m: nat, now: int)
    requires Ordered(s.journal) && Chain(Active(s.journal), origin, s.copy.path)
    requires m < |s.journal| && IsActive(s.journal[m])
    ensures Chain(Active(StampFrom(s.journal, s.journal[m].createdAt, now)), origin, s.journal[m].before)
  {
    StampsSuffix(s.journal, m, now);
    ChainUpTo(s.journal, origin, s.copy.path, m);
  }

  lemma RewindPreserves(lib: ParseDates.Strptime, s: State, origin: Path, m: nat, now: int, journal: seq<Entry>)
    requires Inv(lib, s, origin) && m < |s.journal| && IsActive(s.journal[m])
    requires journal == StampFrom(s.journal, s.journal[m].createdAt, now)
    ensures Inv(lib, State(PointAt(s.snapshots, s.journal[m].before), journal, s.snapshots), origin)
  {
    RewindChains(s, origin, m, now);
    RestampedInv(lib, s, origin, s.journal[m].before, journal);
  }

  lemma UndoPreserves(lib: ParseDates.Strptime, s: State, origin: Path, id: nat, now: int)
    requires Inv(lib, s, origin) && Undo(s, id, now).Ok?
    ensures Inv(lib, Undo(s, id, now).value.0, origin) && Extends(s, Undo(s, id, now).value.0)
  {
    var m := FindEntry(s.journal, id);
    RewindPreserves(lib, s, origin, m, now, StampFrom(s.journal, s.journal[m].createdAt, now));
  }

  lemma {:induction false} SuffixStartsAt(journal: seq<Entry>, m: nat)
    requires m < |journal| && IsActive(journal[m])
    ensures Active(journal[m..]) != [] && Active(journal[m..])[0] == journal[m]
  {
    ActiveSplits(journal[m..], 1);
    assert journal[m..][..1] == [] + [journal[m]];
    ActiveOfAppend([], journal[m]);
  }

  /** With time increasing, the oldest active entry is the first active one. */
  lemma {:induction false} OldestIsFirst(journal: seq<Entry>)
    requires Ordered(journal)
    ensures Oldest(journal) == |journal| <==> Active(journal) == []
    ensures Oldest(journal) < |journal| ==> Active(journal)[0] == journal[Oldest(journal)]
    ensures forall i :: 0 <= i < Oldest(journal) ==> !IsActive(journal[i])
  {
    if journal != [] {
      OldestIsFirst(journal[..|journal| - 1]);
      assert forall i :: 0 <= i < |journal| - 1 ==> journal[..|journal| - 1][i] == journal[i];
    }
  }

  /** The active entries are stamped now, and every other entry is as before. */
  ghost predicate StampedNow(before: seq<Entry>, after: seq<Entry>, now: int) {
    && |after| == |before|
    && forall i :: 0 <= i < |before| ==>
         after[i] == if before[i].undoneAt.None? then before[i].(undoneAt := Some(now)) else before[i]
  }

  lemma ResetPreserves(lib: ParseDates.Strptime, s: State, origin: Path, now: int)
    requires Inv(lib, s, origin)
    ensures Inv(lib, Reset(s, now).0, origin) && Extends(s, Reset(s, now).0)
    ensures Reset(s, now).0.copy.path == origin && Active(Reset(s, now).0.journal) == []
  {
    OldestIsFirst(s.journal);
    if Active(s.journal) != [] {
      var journal := StampAll(s.journal, now);
      ChainStart(Active(s.journal), origin, s.copy.path);
      ActiveOfNone(journal);
      RestampedInv(lib, s, origin, origin, journal);
    }
  }

  /** A reset stamps every active entry with its own time, and no other. */
  lemma ResetStamps(s: State, now: int)
    requires Readable(s) && Ordered(s.journal)
    ensures StampedNow(s.journal, Reset(s, now).0.journal, now)
  {
    OldestIsFirst(s.journal);
    ActiveMembers(s.journal);
  }

  /** Entry `i` has this id and is active, or not. */
  ghost predicate EntryWith(journal: seq<Entry>, id: nat, active: bool, i: int) {
    0 <= i < |journal| && journal[i].id == id && (journal[i].undoneAt.None? <==> active)
  }

  lemma {:induction false} FindMissesEntry(journal: seq<Entry>, id: nat)
    ensures FindEntry(journal, id) == |journal| <==> forall i :: 0 <= i < |journal| ==> journal[i].id != id
  {
    if journal != [] {
      FindMissesEntry(journal[1..], id);
      assert forall i :: 0 < i < |journal| ==> journal[i] == journal[1..][i - 1];
    }
  }

  /** An undo passes if and only if an active entry has the id, and is refused by name otherwise. */
  lemma UndoAnswersIff(s: State, id: nat, now: int)
    requires Readable(s) && Ordered(s.journal)
    ensures var r := Undo(s, id, now);
            && (r.Ok? <==> exists i :: EntryWith(s.journal, id, true, i))
            && (r == Err(AlreadyUndone) <==> exists i :: EntryWith(s.journal, id, false, i))
            && (r == Err(EntryNotFound) <==> forall i :: 0 <= i < |s.journal| ==> s.journal[i].id != id)
  {
    FindMissesEntry(s.journal, id);
    forall i | 0 <= i < |s.journal| && s.journal[i].id == id ensures FindEntry(s.journal, id) == i {
      FindsEntry(s.journal, i);
    }
    var m := FindEntry(s.journal, id);
    if m < |s.journal| { assert EntryWith(s.journal, id, s.journal[m].undoneAt.None?, m); }
  }
}
