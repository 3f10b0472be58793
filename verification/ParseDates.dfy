/** `parse_dates`: replace a text column by its reading under the format that fits most values. */
module ParseDates {
  import opened Wrappers
  import opened Frames
  import opened Operations

  /** The date parser, taken as given: `accepts` is false for a format it raises on. */
  datatype Strptime = Strptime(accepts: string -> bool, read: (string, string) -> Option<int>)

  const DEFAULT_FORMATS: seq<string> := [
    "%Y-%m-%d", "%Y-%m-%dT%H:%M:%S", "%Y-%m-%d %H:%M:%S", "%d/%m/%Y",
    "%d-%m-%Y", "%m/%d/%Y", "%d/%m/%Y %H:%M", "%d-%m-%Y %H:%M:%S"]

  function ReadCell(lib: Strptime, format: string, c: Cell): Cell {
    if c.Text? then (match lib.read(format, c.s) case Some(t) => Stamp(t) case None => Null) else Null
  }

  function ReadCells(lib: Strptime, format: string, cells: seq<Cell>): (r: seq<Cell>)
    ensures |r| == |cells|
  {
    seq(|cells|, i requires 0 <= i < |cells| => ReadCell(lib, format, cells[i]))
  }

  /** How many values a format reads; a format that raises is skipped. */
  function ReadCount(lib: Strptime, format: string, cells: seq<Cell>): nat {
    if lib.accepts(format) then |NonNull(ReadCells(lib, format, cells))| else 0
  }

  datatype Best = Best(format: Option<string>, parsed: nat)

  function BestFormat(lib: Strptime, formats: seq<string>, cells: seq<Cell>): Best {
    if formats == [] then Best(None, 0) else
      var n := |formats| - 1;
      var best := BestFormat(lib, formats[..n], cells);
      if ReadCount(lib, formats[n], cells) > best.parsed
      then Best(Some(formats[n]), ReadCount(lib, formats[n], cells)) else best
  }

  datatype Progress = Progress(frame: Frame, done: seq<Parsed>)

  /** One column, given the best format found for it. */
  function DatesStep(lib: Strptime, f: Frame, p: Progress, col: string, best: Best): (r: Progress)
    requires f.Valid() && p.frame.Valid() && p.frame.Names() == f.Names() && |p.frame.rows| == |f.rows|
    ensures r.frame.Valid() && r.frame.Names() == f.Names() && |r.frame.rows| == |f.rows|
  {
    var j := Find(f.fields, col);
    if j == |f.fields| then p else
      var present := |NonNull(f.Column(j))|;
      if f.fields[j].dtype != Utf8 then p.(done := p.done + [Parsed(col, Typed(f.fields[j].dtype), present, 0, true)])
      else match best.format
        case None => p.(done := p.done + [Parsed(col, NoFormat, 0, present, false)])
        case Some(format) =>
          assert |p.frame.Names()| == |f.Names()|;
          var g := ReplaceColumn(p.frame, j, Datetime, ReadCells(lib, format, f.Column(j)));
          assert g.Names() == p.frame.Names();
          Progress(g, p.done + [Parsed(col, Format(format), best.parsed,
                                       if present >= best.parsed then present - best.parsed else 0, false)])
  }

  function ColumnBest(lib: Strptime, f: Frame, col: string, formats: seq<string>): Best
    requires f.Valid()
  {
    var j := Find(f.fields, col);
    if j == |f.fields| || f.fields[j].dtype != Utf8 then Best(None, 0) else BestFormat(lib, formats, f.Column(j))
  }

  function DatesLoop(lib: Strptime, f: Frame, cols: seq<string>, formats: seq<string>): (r: Progress)
    requires f.Valid()
    ensures r.frame.Valid() && r.frame.Names() == f.Names() && |r.frame.rows| == |f.rows|
  {
    if cols == [] then Progress(f, [])
    else
      var n := |cols| - 1;
      DatesStep(lib, f, DatesLoop(lib, f, cols[..n], formats), cols[n], ColumnBest(lib, f, cols[n], formats))
  }

  function Formats(arg: ListArg): Result<seq<string>, OperationError> {
    match arg
    case Absent => Ok(DEFAULT_FORMATS)
    case NotAList => Err(BadFormats)
    case Listed(items) => Ok(if items == [] then DEFAULT_FORMATS else items)
  }

  function Apply(lib: Strptime, f: Frame, args: OpArgs): Outcome
    requires f.Valid()
  {
    match RequiredColumns(f, args.columns)
    case Err(e) => Err(e)
    case Ok(cols) =>
      match Formats(args.formats)
      case Err(e) => Err(e)
      case Ok(formats) =>
        var p := DatesLoop(lib, f, cols, formats);
        Ok(OperationResult(Some(p.frame), DatesSummary(p.done, f.Height(), p.frame.Height())))
  }

  method RunParseDates(lib: Strptime, f: Frame, args: OpArgs) returns (r: Outcome)
    requires f.Valid()
    ensures r == Apply(lib, f, args)
  {
    var checked := RequiredColumns(f, args.columns);
    if checked.Err? { return Err(checked.error); }
    var cols := checked.value;
    var formats := Formats(args.formats);
    if formats.Err? { return Err(formats.error); }
    var p := Progress(f, []);
    for k := 0 to |cols|
      invariant p == DatesLoop(lib, f, cols[..k], formats.value)
    {
      assert cols[..k + 1][..k] == cols[..k];
      var j := Find(f.fields, cols[k]);
      var best := Best(None, 0);
      if j < |f.fields| && f.fields[j].dtype == Utf8 {
        best := SearchFormat(lib, formats.value, f.Column(j));
      }
      p := DatesStep(lib, f, p, cols[k], best);
    }
    assert cols[..|cols|] == cols;
    r := Ok(OperationResult(Some(p.frame), DatesSummary(p.done, f.Height(), p.frame.Height())));
  }

  /** The inner loop over candidate formats. */
  method SearchFormat(lib: Strptime, formats: seq<string>, cells: seq<Cell>) returns (best: Best)
    ensures best == BestFormat(lib, formats, cells)
  {
    best := Best(None, 0);
    for k := 0 to |formats|
      invariant best == BestFormat(lib, formats[..k], cells)
    {
      assert formats[..k + 1][..k] == formats[..k];
      if lib.accepts(formats[k]) {
        var parsed := |NonNull(ReadCells(lib, formats[k], cells))|;
        if parsed > best.parsed { best := Best(Some(formats[k]), parsed); }
      }
    }
    assert formats[..|formats|] == formats;
  }

  // ---- what it means ------------------------------------------------------

  /** Candidate `k` is the chosen one, and no earlier candidate reads as many values. */
  ghost predicate FirstToReach(lib: Strptime, formats: seq<string>, cells: seq<Cell>, best: Best, k: nat)
    requires k < |formats|
  {
    && best.format == Some(formats[k]) && lib.accepts(formats[k])
    && ReadCount(lib, formats[k], cells) == best.parsed
    && (forall m :: 0 <= m < k ==> ReadCount(lib, formats[m], cells) < best.parsed)
  }

  /** The chosen format reads as many values as any candidate, more than every earlier one, and is chosen when any
      reads one. */
  lemma {:induction false} BestFormatIsBest(lib: Strptime, formats: seq<string>, cells: seq<Cell>)
    ensures var best := BestFormat(lib, formats, cells);
            && (forall k :: 0 <= k < |formats| ==> ReadCount(lib, formats[k], cells) <= best.parsed)
            && (best.format.None? <==> best.parsed == 0)
            && (best.format.Some? ==> exists k :: 0 <= k < |formats| && FirstToReach(lib, formats, cells, best, k))
  {
    if formats != [] {
      var n := |formats| - 1;
      var front := formats[..n];
      BestFormatIsBest(lib, front, cells);
      var before := BestFormat(lib, front, cells);
      assert forall k :: 0 <= k < n ==> front[k] == formats[k];
      if ReadCount(lib, formats[n], cells) <= before.parsed && before.format.Some? {
        var k :| 0 <= k < n && FirstToReach(lib, front, cells, before, k);
        assert FirstToReach(lib, formats, cells, before, k);
      } else if ReadCount(lib, formats[n], cells) > before.parsed {
        assert FirstToReach(lib, formats, cells, BestFormat(lib, formats, cells), n);
      }
    }
  }

  lemma {:induction false} ReadingAddsNoValue(lib: Strptime, format: string, cells: seq<Cell>)
    ensures |NonNull(ReadCells(lib, format, cells))| <= |NonNull(cells)|
  {
    if cells != [] {
      ReadingAddsNoValue(lib, format, cells[1..]);
      assert ReadCells(lib, format, cells)[1..] == ReadCells(lib, format, cells[1..]);
    }
  }

  /** The counts of a parsed column add up to its values: the clamp on the failures is never used. */
  lemma CountsAddUp(lib: Strptime, f: Frame, p: Progress, col: string, formats: seq<string>)
    requires f.Valid() && p.frame.Valid() && p.frame.Names() == f.Names() && |p.frame.rows| == |f.rows| && Has(f, col)
    ensures var done := DatesStep(lib, f, p, col, ColumnBest(lib, f, col, formats)).done;
            |done| == |p.done| + 1
            && done[|p.done|].parsedCount + done[|p.done|].failedCount == |NonNull(f.Column(Find(f.fields, col)))|
  {
    var cells := f.Column(Find(f.fields, col));
    BestFormatIsBest(lib, formats, cells);
    var best := BestFormat(lib, formats, cells);
    if best.format.Some? { ReadingAddsNoValue(lib, best.format.value, cells); }
  }

  // ---- the frame and the report -------------------------------------------

  /** A text column some candidate format reads a value of. */
  predicate Reads(lib: Strptime, f: Frame, j: nat, formats: seq<string>)
    requires f.Valid() && j < |f.fields|
  {
    f.fields[j].dtype == Utf8 && BestFormat(lib, formats, f.Column(j)).format.Some?
  }

  /** The reading of the column under the best format, or the column. */
  function NewColumn(lib: Strptime, f: Frame, j: nat, formats: seq<string>): (r: seq<Cell>)
    requires f.Valid() && j < |f.fields|
    ensures |r| == |f.rows|
  {
    var cells := f.Column(j);
    if Reads(lib, f, j, formats) then ReadCells(lib, BestFormat(lib, formats, cells).format.value, cells) else cells
  }

  function NewField(lib: Strptime, f: Frame, j: nat, formats: seq<string>): Field
    requires f.Valid() && j < |f.fields|
  {
    Field(f.fields[j].name, if Reads(lib, f, j, formats) then Datetime else f.fields[j].dtype)
  }

  /** The named columns are new, every other is the original, and each is read from the original frame. */
  ghost predicate ReadsExactly(lib: Strptime, f: Frame, cols: seq<string>, formats: seq<string>, g: Frame)
    requires f.Valid()
  {
    && g.Valid() && |g.fields| == |f.fields| && |g.rows| == |f.rows|
    && (forall j :: 0 <= j < |f.fields| ==>
          g.fields[j] == if f.fields[j].name in cols then NewField(lib, f, j, formats) else f.fields[j])
    && (forall j :: 0 <= j < |f.fields| ==>
          g.Column(j) == if f.fields[j].name in cols then NewColumn(lib, f, j, formats) else f.Column(j))
  }

  lemma DatesStepExactly(lib: Strptime, f: Frame, cols: seq<string>, formats: seq<string>, p: Progress, col: string)
    requires f.Valid() && p.frame.Names() == f.Names() && ReadsExactly(lib, f, cols, formats, p.frame)
    ensures ReadsExactly(lib, f, cols + [col], formats,
            DatesStep(lib, f, p, col, ColumnBest(lib, f, col, formats)).frame)
  {
    var g, c := p.frame, Find(f.fields, col);
    var h := DatesStep(lib, f, p, col, ColumnBest(lib, f, col, formats)).frame;
    forall j | 0 <= j < |f.fields|
      ensures h.fields[j] == if f.fields[j].name in cols + [col] then NewField(lib, f, j, formats) else f.fields[j]
      ensures h.Column(j) == if f.fields[j].name in cols + [col] then NewColumn(lib, f, j, formats) else f.Column(j)
    {
      ListedOneMore(f, cols, col, j);
      if c < |f.fields| && Reads(lib, f, c, formats) {
        ColumnOfReplaced(g, c, Datetime, NewColumn(lib, f, c, formats), j);
      }
    }
  }

  lemma NothingRead(lib: Strptime, f: Frame, formats: seq<string>)
    requires f.Valid()
    ensures ReadsExactly(lib, f, [], formats, f)
  {
  }

  /** Each listed text column becomes its reading under the best format, if one reads anything; every other column
      stays. */
  lemma {:induction false} DatesLoopExactly(lib: Strptime, f: Frame, cols: seq<string>, formats: seq<string>)
    requires f.Valid()
    ensures ReadsExactly(lib, f, cols, formats, DatesLoop(lib, f, cols, formats).frame)
  {
    if cols == [] {
      NothingRead(lib, f, formats);
    } else {
      var front, last := cols[..|cols| - 1], cols[|cols| - 1];
      assert front + [last] == cols;
      DatesLoopExactly(lib, f, front, formats);
      DatesStepExactly(lib, f, front, formats, DatesLoop(lib, f, front, formats), last);
    }
  }

  /** What the report says of a column, every time it is listed: a column of another type is skipped whole; a text
      column's values are those its best format reads, and failures. */
  ghost predicate Describes(lib: Strptime, f: Frame, col: string, formats: seq<string>, e: Parsed)
    requires f.Valid()
  {
    var j := Find(f.fields, col);
    && j < |f.fields| && e.column == col && (e.skipped <==> f.fields[j].dtype != Utf8)
    && e.parsedCount + e.failedCount == |NonNull(f.Column(j))|
    && (e.skipped ==> e.failedCount == 0 && e.matched == Typed(f.fields[j].dtype))
    && (!e.skipped ==>
          && e.matched == (match BestFormat(lib, formats, f.Column(j)).format
                           case None => NoFormat
                           case Some(format) => Format(format))
          && e.parsedCount == if Reads(lib, f, j, formats) then |NonNull(NewColumn(lib, f, j, formats))| else 0)
  }

  lemma StepDescribes(lib: Strptime, f: Frame, p: Progress, col: string, formats: seq<string>) returns (e: Parsed)
    requires f.Valid() && p.frame.Valid() && p.frame.Names() == f.Names() && |p.frame.rows| == |f.rows| && Has(f, col)
    ensures DatesStep(lib, f, p, col, ColumnBest(lib, f, col, formats)).done == p.done + [e]
    ensures Describes(lib, f, col, formats, e)
  {
    CountsAddUp(lib, f, p, col, formats);
    e := DatesStep(lib, f, p, col, ColumnBest(lib, f, col, formats)).done[|p.done|];
    var cells := f.Column(Find(f.fields, col));
    BestFormatIsBest(lib, formats, cells);
    var best := BestFormat(lib, formats, cells);
    if best.format.Some? {
      var k :| 0 <= k < |formats| && FirstToReach(lib, formats, cells, best, k);
      assert best.parsed == |NonNull(ReadCells(lib, best.format.value, cells))|;
    }
  }

  /** One entry for every listed column, in order. */
  ghost predicate Reports(lib: Strptime, f: Frame, cols: seq<string>, formats: seq<string>, done: seq<Parsed>)
    requires f.Valid()
  {
    |done| == |cols| && forall k :: 0 <= k < |cols| ==> Describes(lib, f, cols[k], formats, done[k])
  }

  lemma ReportsOneMore(lib: Strptime, f: Frame, cols: seq<string>, formats: seq<string>, done: seq<Parsed>,
                       col: string, e: Parsed)
    requires f.Valid() && Reports(lib, f, cols, formats, done) && Describes(lib, f, col, formats, e)
    ensures Reports(lib, f, cols + [col], formats, done + [e])
  {
  }

  lemma {:induction false} DatesReport(lib: Strptime, f: Frame, cols: seq<string>, formats: seq<string>)
    requires f.Valid() && AllPresent(f, cols)
    ensures Reports(lib, f, cols, formats, DatesLoop(lib, f, cols, formats).done)
  {
    if cols != [] {
      var n := |cols| - 1;
      DatesReport(lib, f, cols[..n], formats);
      var p := DatesLoop(lib, f, cols[..n], formats);
      var e := StepDescribes(lib, f, p, cols[n], formats);
      ReportsOneMore(lib, f, cols[..n], formats, p.done, cols[n], e);
      assert cols[..n] + [cols[n]] == cols;
    }
  }
}
