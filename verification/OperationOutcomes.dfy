/** What an operation called by name returns, and what the journal's entries therefore record. */
module OperationOutcomes {
  import opened Wrappers
  import opened Frames
  import opened Operations
  import opened Dispatcher
  import opened Journal
  import ParseDates
  import Inspect
  import DedupeOutcome
  import FillnaOutcome
  import TextOutcome
  import DatesOutcome
  import NumericOutcome

  /** The column inspected: its rows and its nulls are counted, and nothing is returned. */
  ghost predicate CountsNulls(f: Frame, name: string, j: nat, r: Outcome)
    requires f.Valid() && j < |f.fields|
  {
    && f.fields[j].name == name
    && r == Ok(OperationResult(None, ColumnSummary(|f.rows|, |FillnaOutcome.NullsOf(f, j)|)))
  }

  /** What `inspect_column` answers. */
  ghost predicate InspectsColumn(f: Frame, args: OpArgs, r: Outcome)
    requires f.Valid()
  {
    if args.column.None? || !DedupeOutcome.IsThere(f, args.column.value) then r == Err(ColumnsMissing)
    else exists j :: 0 <= j < |f.fields| && CountsNulls(f, args.column.value, j, r)
  }

  lemma InspectInspects(f: Frame, args: OpArgs)
    requires f.Valid()
    ensures InspectsColumn(f, args, Inspect.InspectColumn(f, args))
  {
    if args.column.Some? {
      DedupeOutcome.HasIsThere(f, args.column.value);
      var j := Find(f.fields, args.column.value);
      if j < |f.fields| {
        FillnaOutcome.NullsAreCounted(f, j);
        assert CountsNulls(f, args.column.value, j, Inspect.InspectColumn(f, args));
      }
    }
  }

  /** By name: `dedupe` leaves the first or last of the rows that are the same, `fillna` fills or drops as its strategy
      names it, the three normalising operations change exactly the listed columns, the two inspections count, and any
      other name is unknown. A normalised dedupe is taken to find no column named like its transient ones. */
  ghost predicate Performs(lib: ParseDates.Strptime, op: string, args: OpArgs, f: Frame, r: Outcome)
    requires f.Valid()
  {
    match op
    case "dedupe" =>
      (args.columns.Listed? && args.normalizeText ==> DedupeOutcome.NoTransient(f, args.columns.items))
      ==> DedupeOutcome.Deduplicates(f, args, r)
    case "fillna" => FillnaOutcome.FillsOrDrops(f, args, r)
    case "normalize_text" => TextOutcome.CleansTexts(f, args, r)
    case "parse_dates" => DatesOutcome.ReadsDates(lib, f, args, r)
    case "normalize_numeric" => NumericOutcome.ReadsNumbers(f, args, r)
    case "inspect_column" => InspectsColumn(f, args, r)
    case "preview_duplicates" => DedupeOutcome.Announces(f, args, r)
    case _ => r == Err(UnknownOperation)
  }

  /** Whatever the name, the arguments and the frame, the outcome is the one the name promises. */
  lemma OutcomeByName(lib: ParseDates.Strptime, op: string, args: OpArgs, f: Frame)
    requires f.Valid()
    ensures Performs(lib, op, args, f, ApplyOperation(lib, op, args, f))
  {
    match op
    case "dedupe" =>
      if args.columns.Listed? && args.normalizeText ==> DedupeOutcome.NoTransient(f, args.columns.items) {
        DedupeOutcome.DedupeDeduplicates(f, args);
      }
    case "fillna" => FillnaOutcome.FillnaFillsOrDrops(f, args);
    case "normalize_text" => TextOutcome.NormalizeCleansTexts(f, args);
    case "parse_dates" => DatesOutcome.ParseReadsDates(lib, f, args);
    case "normalize_numeric" => NumericOutcome.NormalizeReadsNumbers(f, args);
    case "inspect_column" => InspectInspects(f, args);
    case "preview_duplicates" => DedupeOutcome.PreviewAnnounces(f, args);
    case _ =>
  }

  /** In every state a run reaches, each journal entry stands for what its name promises of the snapshot before it: the
      snapshot after it and the summary. */
  lemma EntryRecordsOutcome(lib: ParseDates.Strptime, s: State, origin: Path, i: nat)
    requires Inv(lib, s, origin) && i < |s.journal|
    ensures var e := s.journal[i];
            && e.before in s.snapshots && e.after in s.snapshots && s.snapshots[e.before].Valid()
            && Performs(lib, e.op, e.args, s.snapshots[e.before],
                        Ok(OperationResult(Some(s.snapshots[e.after]), e.summary)))
  {
    var e := s.journal[i];
    assert Sound(lib, s.snapshots, e);
    OutcomeByName(lib, e.op, e.args, s.snapshots[e.before]);
  }
}
