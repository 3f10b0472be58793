/** The working-copy service as an object: one dataset and user, its database rows and its snapshot files. */
module WorkingCopy {
  import opened Wrappers
  import opened Frames
  import opened Operations
  import opened Dispatcher
  import opened Journal
  import ParseDates

  /** Why the source dataset could not be read. */
  datatype SourceError = DatasetMissing | UnsupportedSource | NoPath

  class WorkingCopyService {
    const lib: ParseDates.Strptime
    /** The working-copy row; `None` until first use. */
    var copy: Option<Copy>
    var journal: seq<Entry>
    var snapshots: map<Path, Frame>
    ghost var origin: Path

    constructor (lib: ParseDates.Strptime)
      ensures this.lib == lib && copy == None && Valid()
    {
      this.lib := lib;
      copy, journal, snapshots, origin := None, [], map[], "";
    }

    ghost function Value(): State
      reads this
      requires copy.Some?
    {
      State(copy.value, journal, snapshots)
    }

    ghost predicate Valid()
      reads this
    {
      if copy.Some? then Inv(lib, Value(), origin)
      else journal == [] && forall p :: p in snapshots ==> snapshots[p].Valid()
    }

    /** First use snapshots the source; every later call finds the row that is there. */
    method GetOrCreate(source: Result<Frame, SourceError>, path: Path) returns (r: Result<Copy, SourceError>)
      requires Valid() && (source.Ok? ==> source.value.Valid())
      modifies this
      ensures Valid()
      ensures old(copy).Some? ==> unchanged(this) && r == Ok(copy.value)
      ensures old(copy).None? && source.Ok? ==>
                && copy.Some? && r == Ok(copy.value) && origin == path
                && CopiesSource(Value(), old(snapshots), source.value, path)
                && Value() == Materialise(old(snapshots), source.value, path)
      ensures old(copy).None? && source.Err? ==> unchanged(this) && r == Err(source.error)
    {
      if copy.Some? { return Ok(copy.value); }
      if source.Err? { return Err(source.error); }
      MaterialiseEstablishes(lib, snapshots, source.value, path);
      snapshots := snapshots[path := source.value];
      copy := Some(Copy(path, source.value.Height(), source.value.Width()));
      origin := path;
      return Ok(copy.value);
    }

    /** A transaction that does not commit: the rows are as they were, the files written since stay on disk. */
    method Rollback(copy: Option<Copy>, journal: seq<Entry>, ghost origin: Path)
      requires if copy.Some? then Inv(lib, State(copy.value, journal, snapshots), origin)
               else journal == [] && forall p :: p in snapshots ==> snapshots[p].Valid()
      modifies this
      ensures Valid() && snapshots == old(snapshots)
      ensures this.copy == copy && this.journal == journal && this.origin == origin
    {
      this.copy, this.journal, this.origin := copy, journal, origin;
    }

    /** Mutating operations write a snapshot, move the pointer and journal the change; inspections and failures do
        not. */
    method RunOperation(t: Ticket, op: string, args: OpArgs) returns (r: Outcome)
      requires Valid() && copy.Some?
      requires Fresh(Value(), t)
      modifies this
      ensures Valid() && copy.Some? && origin == old(origin)
      ensures r == RunOutcome(lib, old(Value()), op, args)
      ensures Value() == Run(lib, old(Value()), t, op, args)
    {
      RunPreserves(lib, Value(), origin, t, op, args);
      var frame := snapshots[copy.value.path];
      r := Dispatch(lib, op, args, frame);
      if r.Ok? && IsMutating(op) && r.value.frame.Some? {
        var newFrame := r.value.frame.value;
        var before, rowsBefore := copy.value.path, copy.value.rowCount;
        snapshots := snapshots[t.path := newFrame];
        copy := Some(Copy(t.path, newFrame.Height(), newFrame.Width()));
        journal := journal
          + [Entry(t.id, op, args, before, t.path, rowsBefore, newFrame.Height(), r.value.summary, t.now, None)];
      }
    }

    /** Roll back to the state before an operation, stamping it and every later active one. */
    method UndoOperation(id: nat, now: int) returns (r: Result<nat, WorkingCopyError>)
      requires Valid() && copy.Some?
      modifies this
      ensures Valid() && copy.Some? && origin == old(origin)
      ensures match Undo(old(Value()), id, now)
              case Err(e) => r == Err(e) && unchanged(this)
              case Ok((s, undone)) => r == Ok(undone) && Value() == s
    {
      if Undo(Value(), id, now).Ok? { UndoPreserves(lib, Value(), origin, id, now); }
      var m := FindEntry(journal, id);
      if m == |journal| { return Err(EntryNotFound); }
      if !IsActive(journal[m]) { return Err(AlreadyUndone); }
      var op := journal[m];
      var undone := Stamp(op.createdAt, now);
      copy := Some(Copy(op.before, snapshots[op.before].Height(), snapshots[op.before].Width()));
      return Ok(undone);
    }

    /** The loop that stamps `undone_at`, oldest to newest. */
    method Stamp(since: int, now: int) returns (undone: nat)
      modifies this`journal
      ensures journal == StampFrom(old(journal), since, now) && undone == CountActive(old(journal), since)
    {
      undone := 0;
      ghost var was := journal;
      for i := 0 to |journal|
        invariant |journal| == |was|
        invariant journal[..i] == StampFrom(was, since, now)[..i] && journal[i..] == was[i..]
        invariant undone == CountActive(was[..i], since)
      {
        assert journal[i] == journal[i..][0] == was[i];
        assert was[..i + 1][..i] == was[..i];
        if IsActive(journal[i]) && journal[i].createdAt >= since {
          journal := journal[i := journal[i].(undoneAt := Some(now))];
          undone := undone + 1;
        }
        assert journal[..i + 1] == StampFrom(was, since, now)[..i + 1];
        assert journal[i + 1..] == was[i + 1..];
      }
      assert was[..|was|] == was && journal[..|was|] == journal;
      assert StampFrom(was, since, now)[..|was|] == StampFrom(was, since, now);
    }

    /** Roll back to the original snapshot. */
    method ResetAll(now: int) returns (undone: nat)
      requires Valid() && copy.Some?
      modifies this
      ensures Valid() && copy.Some? && origin == old(origin)
      ensures (Value(), undone) == Reset(old(Value()), now)
    {
      ResetPreserves(lib, Value(), origin, now);
      OldestIsFirst(journal);
      var m := Oldest(journal);
      if m == |journal| { return 0; }
      undone := |Active(journal)|;
      var path := journal[m].before;
      StampEvery(now);
      copy := Some(Copy(path, snapshots[path].Height(), snapshots[path].Width()));
    }

    method StampEvery(now: int)
      modifies this`journal
      ensures journal == StampAll(old(journal), now)
    {
      ghost var was := journal;
      for i := 0 to |journal|
        invariant |journal| == |was|
        invariant journal[..i] == StampAll(was, now)[..i] && journal[i..] == was[i..]
      {
        assert journal[i] == journal[i..][0] == was[i];
        if IsActive(journal[i]) { journal := journal[i := journal[i].(undoneAt := Some(now))]; }
        assert journal[..i + 1] == StampAll(was, now)[..i + 1];
        assert journal[i + 1..] == was[i + 1..];
      }
      assert journal[..|was|] == journal && StampAll(was, now)[..|was|] == StampAll(was, now);
    }
  }
}
