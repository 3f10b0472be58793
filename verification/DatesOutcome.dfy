/** What `parse_dates` returns, cell by cell. */
module DatesOutcome {
  import opened Wrappers
  import opened Frames
  import opened Operations
  import opened DedupeOutcome
  import ParseDates

  // ---- the choice of a format ---------------------------------------------

  /** A text this format reads. */
  predicate Reads(lib: ParseDates.Strptime, format: string, c: Cell) { c.Text? && lib.read(format, c.s).Some? }

  /** The cells a format reads, by position. */
  ghost function ReadBy(lib: ParseDates.Strptime, format: string, cells: seq<Cell>): set<nat> {
    set i: nat | i < |cells| && Reads(lib, format, cells[i])
  }

  /** Candidate `k` is used: it does not raise and reads something, as much as any other that does not raise, and more
      than those before it. */
  ghost predicate IsChosen(lib: ParseDates.Strptime, formats: seq<string>, cells: seq<Cell>, k: nat) {
    && k < |formats| && lib.accepts(formats[k]) && ReadBy(lib, formats[k], cells) != {}
    && (forall m :: 0 <= m < |formats| && lib.accepts(formats[m]) ==>
         |ReadBy(lib, formats[m], cells)| <= |ReadBy(lib, formats[k], cells)|)
    && (forall m :: 0 <= m < k && lib.accepts(formats[m]) ==>
         |ReadBy(lib, formats[m], cells)| < |ReadBy(lib, formats[k], cells)|)
  }

  /** No candidate reads anything. */
  ghost predicate NoneFits(lib: ParseDates.Strptime, formats: seq<string>, cells: seq<Cell>) {
    forall m :: 0 <= m < |formats| && lib.accepts(formats[m]) ==> ReadBy(lib, formats[m], cells) == {}
  }

  /** The candidates: those given, or these eight. */
  ghost predicate Candidates(arg: ListArg, formats: seq<string>) {
    if arg.Listed? && arg.items != [] then formats == arg.items
    else
      && |formats| == 8
      && formats[0] == "%Y-%m-%d" && formats[1] == "%Y-%m-%dT%H:%M:%S"
      && formats[2] == "%Y-%m-%d %H:%M:%S" && formats[3] == "%d/%m/%Y"
      && formats[4] == "%d-%m-%Y" && formats[5] == "%m/%d/%Y"
      && formats[6] == "%d/%m/%Y %H:%M" && formats[7] == "%d-%m-%Y %H:%M:%S"
  }

  // ---- what comes back ----------------------------------------------------

  /** A text becomes the time it reads as, and everything else becomes null. */
  predicate CellRead(lib: ParseDates.Strptime, format: string, a: Cell, b: Cell) {
    b == if Reads(lib, format, a) then Stamp(lib.read(format, a.s).value) else Null
  }

  ghost predicate SameShape(f: Frame, g: Frame) {
    && |g.fields| == |f.fields| && |g.rows| == |f.rows|
    && forall i :: 0 <= i < |f.rows| ==> |g.rows[i]| == |f.fields|
  }

  /** Column `j` is read under candidate `k`. */
  ghost predicate ReadUnder(lib: ParseDates.Strptime, f: Frame, formats: seq<string>, g: Frame, j: nat, k: nat)
    requires f.Valid() && SameShape(f, g) && j < |f.fields|
  {
    && IsChosen(lib, formats, f.Column(j), k) && g.fields[j] == Field(f.fields[j].name, Datetime)
    && forall i :: 0 <= i < |f.rows| ==> CellRead(lib, formats[k], f.rows[i][j], g.rows[i][j])
  }

  ghost predicate Untouched(f: Frame, g: Frame, j: nat)
    requires f.Valid() && SameShape(f, g) && j < |f.fields|
  {
    g.fields[j] == f.fields[j] && forall i :: 0 <= i < |f.rows| ==> g.rows[i][j] == f.rows[i][j]
  }

  /** A listed text column that some candidate fits is read under the chosen one; every other column stays. */
  ghost predicate ColumnDone(lib: ParseDates.Strptime, f: Frame, args: OpArgs, formats: seq<string>, g: Frame, j: nat)
    requires f.Valid() && args.columns.Listed? && SameShape(f, g) && j < |f.fields|
  {
    if f.fields[j].name in args.columns.items && f.fields[j].dtype == Utf8
       && !NoneFits(lib, formats, f.Column(j))
    then exists k: nat :: ReadUnder(lib, f, formats, g, j, k)
    else Untouched(f, g, j)
  }

  /** An entry of the report: a column of another type is named and skipped; otherwise the format used, if any, the
      texts it read and the values it did not. */
  ghost predicate EntryOf(lib: ParseDates.Strptime, f: Frame, formats: seq<string>, e: Parsed, j: nat)
    requires f.Valid() && j < |f.fields|
  {
    var cells := f.Column(j);
    && e.column == f.fields[j].name
    && if f.fields[j].dtype != Utf8 then
         e.skipped && e.matched == Typed(f.fields[j].dtype) && e.parsedCount == |NonNull(cells)| && e.failedCount == 0
       else if NoneFits(lib, formats, cells) then
         !e.skipped && e.matched == NoFormat && e.parsedCount == 0 && e.failedCount == |NonNull(cells)|
       else
         && !e.skipped && e.parsedCount + e.failedCount == |NonNull(cells)|
         && exists k: nat :: Used(lib, formats, cells, e, k)
  }

  ghost predicate Used(lib: ParseDates.Strptime, formats: seq<string>, cells: seq<Cell>, e: Parsed, k: nat) {
    && IsChosen(lib, formats, cells, k) && e.matched == Format(formats[k])
    && e.parsedCount == |ReadBy(lib, formats[k], cells)|
  }

  ghost predicate IsEntry(lib: ParseDates.Strptime, f: Frame, formats: seq<string>, col: string, e: Parsed)
    requires f.Valid()
  {
    exists j :: 0 <= j < |f.fields| && f.fields[j].name == col && EntryOf(lib, f, formats, e, j)
  }

  ghost predicate Reported(lib: ParseDates.Strptime, f: Frame, cols: seq<string>, formats: seq<string>,
                           done: seq<Parsed>)
    requires f.Valid()
  {
    |done| == |cols| && forall k :: 0 <= k < |done| ==> IsEntry(lib, f, formats, cols[k], done[k])
  }

  ghost predicate ReadsUnder(lib: ParseDates.Strptime, f: Frame, args: OpArgs, formats: seq<string>, r: OperationResult)
    requires f.Valid() && args.columns.Listed?
  {
    && Candidates(args.formats, formats) && r.frame.Some? && SameShape(f, r.frame.value)
    && (forall j :: 0 <= j < |f.fields| ==> ColumnDone(lib, f, args, formats, r.frame.value, j))
    && r.summary.DatesSummary? && r.summary.rowsBefore == r.summary.rowsAfter == |f.rows|
    && Reported(lib, f, args.columns.items, formats, r.summary.dates)
  }

  /** What `parse_dates` answers. */
  ghost predicate ReadsDates(lib: ParseDates.Strptime, f: Frame, args: OpArgs, r: Outcome)
    requires f.Valid()
  {
    if !ColumnsGiven(f, args.columns) then r.Err? && ColumnsRefused(f, args.columns, r.error)
    else if args.formats == NotAList then r == Err(BadFormats)
    else r.Ok? && exists formats :: ReadsUnder(lib, f, args, formats, r.value)
  }

  // ---- counting -----------------------------------------------------------

  lemma {:induction false} CountFrom(lib: ParseDates.Strptime, format: string, cells: seq<Cell>, n: nat)
    requires n <= |cells|
    ensures |NonNull(ParseDates.ReadCells(lib, format, cells[n..]))|
         == |set i: nat | n <= i < |cells| && Reads(lib, format, cells[i])|
    decreases |cells| - n
  {
    var here := set i: nat | n <= i < |cells| && Reads(lib, format, cells[i]);
    if n == |cells| {
      assert here == {};
    } else {
      CountFrom(lib, format, cells, n + 1);
      ReadCons(lib, format, cells[n..], cells[n + 1..]);
      var behind := set i: nat | n + 1 <= i < |cells| && Reads(lib, format, cells[i]);
      assert here == behind + if Reads(lib, format, cells[n]) then {n} else {};
    }
  }

  lemma ReadCons(lib: ParseDates.Strptime, format: string, cells: seq<Cell>, rest: seq<Cell>)
    requires cells != [] && cells[1..] == rest
    ensures |NonNull(ParseDates.ReadCells(lib, format, cells))|
         == |NonNull(ParseDates.ReadCells(lib, format, rest))| + if Reads(lib, format, cells[0]) then 1 else 0
  {
    assert ParseDates.ReadCells(lib, format, cells)[1..] == ParseDates.ReadCells(lib, format, rest);
  }

  /** What a format is judged by. */
  lemma ReadCountIs(lib: ParseDates.Strptime, format: string, cells: seq<Cell>)
    ensures ParseDates.ReadCount(lib, format, cells)
         == if lib.accepts(format) then |ReadBy(lib, format, cells)| else 0
    ensures |NonNull(ParseDates.ReadCells(lib, format, cells))| == |ReadBy(lib, format, cells)|
  {
    CountFrom(lib, format, cells, 0);
    assert cells[0..] == cells;
    assert ReadBy(lib, format, cells) == set i: nat | 0 <= i < |cells| && Reads(lib, format, cells[i]);
  }

  /** The search ends with the chosen candidate, if one fits. */
  lemma BestIsChosen(lib: ParseDates.Strptime, formats: seq<string>, cells: seq<Cell>)
    ensures var best := ParseDates.BestFormat(lib, formats, cells);
            match best.format
            case None => NoneFits(lib, formats, cells) && best.parsed == 0
            case Some(format) =>
              && !NoneFits(lib, formats, cells)
              && exists k: nat :: IsBest(lib, formats, cells, best, k)
  {
    var best := ParseDates.BestFormat(lib, formats, cells);
    ParseDates.BestFormatIsBest(lib, formats, cells);
    forall m | 0 <= m < |formats|
      ensures ParseDates.ReadCount(lib, formats[m], cells)
           == if lib.accepts(formats[m]) then |ReadBy(lib, formats[m], cells)| else 0
    {
      ReadCountIs(lib, formats[m], cells);
    }
    if best.format.Some? {
      var k :| 0 <= k < |formats| && ParseDates.FirstToReach(lib, formats, cells, best, k);
      assert ReadBy(lib, formats[k], cells) != {};
      assert IsBest(lib, formats, cells, best, k);
    } else {
      forall m | 0 <= m < |formats| && lib.accepts(formats[m]) ensures ReadBy(lib, formats[m], cells) == {} {
        assert |ReadBy(lib, formats[m], cells)| == 0;
      }
    }
  }

  ghost predicate IsBest(lib: ParseDates.Strptime, formats: seq<string>, cells: seq<Cell>, best: ParseDates.Best,
                         k: nat)
  {
    && IsChosen(lib, formats, cells, k) && best.format == Some(formats[k])
    && best.parsed == |ReadBy(lib, formats[k], cells)|
  }

  lemma DefaultFormats()
    ensures Candidates(Absent, ParseDates.DEFAULT_FORMATS)
  {
  }

  lemma FormatsAre(arg: ListArg)
    requires arg != NotAList
    ensures ParseDates.Formats(arg).Ok? && Candidates(arg, ParseDates.Formats(arg).value)
  {
    if !(arg.Listed? && arg.items != []) { DefaultFormats(); }
  }

  // ---- the operation ------------------------------------------------------

  lemma ColumnIsDone(lib: ParseDates.Strptime, f: Frame, args: OpArgs, formats: seq<string>, g: Frame, j: nat)
    requires f.Valid() && args.columns.Listed? && j < |f.fields|
    requires ParseDates.ReadsExactly(lib, f, args.columns.items, formats, g)
    ensures SameShape(f, g) && ColumnDone(lib, f, args, formats, g, j)
  {
    var cells := f.Column(j);
    forall i | 0 <= i < |f.rows| ensures g.Column(j)[i] == g.rows[i][j] && cells[i] == f.rows[i][j] {}
    BestIsChosen(lib, formats, cells);
    if f.fields[j].name in args.columns.items && ParseDates.Reads(lib, f, j, formats) {
      var best := ParseDates.BestFormat(lib, formats, cells);
      var k: nat :| IsBest(lib, formats, cells, best, k);
      assert g.Column(j) == ParseDates.ReadCells(lib, formats[k], cells);
      forall i | 0 <= i < |f.rows| ensures CellRead(lib, formats[k], f.rows[i][j], g.rows[i][j]) {
        assert g.Column(j)[i] == ParseDates.ReadCell(lib, formats[k], cells[i]);
      }
      assert ReadUnder(lib, f, formats, g, j, k);
    }
  }

  lemma FrameIsRead(lib: ParseDates.Strptime, f: Frame, args: OpArgs, formats: seq<string>)
    requires f.Valid() && args.columns.Listed?
    ensures var g := ParseDates.DatesLoop(lib, f, args.columns.items, formats).frame;
            SameShape(f, g) && forall j :: 0 <= j < |f.fields| ==> ColumnDone(lib, f, args, formats, g, j)
  {
    var g := ParseDates.DatesLoop(lib, f, args.columns.items, formats).frame;
    ParseDates.DatesLoopExactly(lib, f, args.columns.items, formats);
    forall j | 0 <= j < |f.fields| ensures ColumnDone(lib, f, args, formats, g, j) {
      ColumnIsDone(lib, f, args, formats, g, j);
    }
  }

  /** The entry the loop writes for a column. */
  lemma StepReports(lib: ParseDates.Strptime, f: Frame, p: ParseDates.Progress, col: string, formats: seq<string>)
    requires f.Valid() && p.frame.Valid() && p.frame.Names() == f.Names() && |p.frame.rows| == |f.rows| && Has(f, col)
    ensures var done := ParseDates.DatesStep(lib, f, p, col, ParseDates.ColumnBest(lib, f, col, formats)).done;
            && |done| == |p.done| + 1 && done[..|p.done|] == p.done
            && IsEntry(lib, f, formats, col, done[|p.done|])
  {
    var j := Find(f.fields, col);
    var best := ParseDates.ColumnBest(lib, f, col, formats);
    var e := ParseDates.DatesStep(lib, f, p, col, best).done[|p.done|];
    BestIsChosen(lib, formats, f.Column(j));
    ParseDates.CountsAddUp(lib, f, p, col, formats);
    if f.fields[j].dtype == Utf8 && best.format.Some? {
      var k: nat :| IsBest(lib, formats, f.Column(j), best, k);
      assert Used(lib, formats, f.Column(j), e, k);
    }
    assert EntryOf(lib, f, formats, e, j);
  }

  lemma {:induction false} ReportIsRight(lib: ParseDates.Strptime, f: Frame, cols: seq<string>, formats: seq<string>)
    requires f.Valid() && AllPresent(f, cols)
    ensures Reported(lib, f, cols, formats, ParseDates.DatesLoop(lib, f, cols, formats).done)
  {
    if cols != [] {
      var n := |cols| - 1;
      ReportIsRight(lib, f, cols[..n], formats);
      var p := ParseDates.DatesLoop(lib, f, cols[..n], formats);
      StepReports(lib, f, p, cols[n], formats);
      var done := ParseDates.DatesLoop(lib, f, cols, formats).done;
      forall k | 0 <= k < |done| ensures IsEntry(lib, f, formats, cols[k], done[k]) {
        if k < n { assert done[k] == done[..n][k] == p.done[k]; }
      }
    }
  }

  /** Whatever it is given, `parse_dates` refuses by name, or reads exactly the texts of the listed columns, each column
      under the candidate that reads most of it. */
  lemma ParseReadsDates(lib: ParseDates.Strptime, f: Frame, args: OpArgs)
    requires f.Valid()
    ensures ReadsDates(lib, f, args, ParseDates.Apply(lib, f, args))
  {
    RequiredColumnsIff(f, args.columns);
    if ColumnsGiven(f, args.columns) && args.formats != NotAList {
      var cols, formats := args.columns.items, ParseDates.Formats(args.formats).value;
      AllThereIff(f, cols);
      FormatsAre(args.formats);
      FrameIsRead(lib, f, args, formats);
      ReportIsRight(lib, f, cols, formats);
      assert ReadsUnder(lib, f, args, formats, ParseDates.Apply(lib, f, args).value);
    }
  }
}
