/** What `normalize_numeric` returns, cell by cell. */
module NumericOutcome {
  import opened Wrappers
  import opened Frames
  import opened Operations
  import opened DedupeOutcome
  import Decimals
  import NormalizeNumeric

  /** A column of texts, with at least one. */
  ghost predicate Convertible(f: Frame, j: nat)
    requires f.Valid() && j < |f.fields|
  {
    f.fields[j].dtype == Utf8 && exists i :: 0 <= i < |f.rows| && f.rows[i][j].Text?
  }

  /** How often this character occurs in the texts of a column. */
  function Occurrences(c: char, cells: seq<Cell>): nat {
    if cells == [] then 0
    else (if cells[0].Text? then multiset(cells[0].s)[c] else 0) + Occurrences(c, cells[1..])
  }

  /** The mark by name; `auto` takes the point if there is no comma, the comma if there is no point, and otherwise the
      rarer, the point if they are as many. */
  ghost predicate IsMark(arg: string, cells: seq<Cell>, mark: char) {
    var commas, points := Occurrences(',', cells), Occurrences('.', cells);
    if arg == "," then mark == ','
    else if arg == "." then mark == '.'
    else mark == if commas == 0 || (points != 0 && points <= commas) then '.' else ','
  }

  /** A text that reads as a number becomes it, and everything else becomes null. */
  predicate CellRead(mark: char, a: Cell, b: Cell) {
    b == if a.Text? && Decimals.Coerce(a.s, mark).Some? then Num(Decimals.Coerce(a.s, mark).value) else Null
  }

  /** Column `j` of the result: read with one mark if it is listed and convertible, and otherwise as it was. */
  ghost predicate ColumnRead(f: Frame, args: OpArgs, g: Frame, j: nat, mark: char)
    requires f.Valid() && args.columns.Listed? && j < |f.fields| == |g.fields| && |g.rows| == |f.rows|
    requires forall i :: 0 <= i < |f.rows| ==> |g.rows[i]| == |f.fields|
  {
    if f.fields[j].name in args.columns.items && Convertible(f, j) then
      && g.fields[j] == Field(f.fields[j].name, Numeric) && IsMark(args.decimal, f.Column(j), mark)
      && forall i :: 0 <= i < |f.rows| ==> CellRead(mark, f.rows[i][j], g.rows[i][j])
    else g.fields[j] == f.fields[j] && forall i :: 0 <= i < |f.rows| ==> g.rows[i][j] == f.rows[i][j]
  }

  ghost predicate ReadsFrame(f: Frame, args: OpArgs, g: Frame)
    requires f.Valid() && args.columns.Listed?
  {
    && |g.fields| == |f.fields| && |g.rows| == |f.rows|
    && (forall i :: 0 <= i < |f.rows| ==> |g.rows[i]| == |f.fields|)
    && forall j :: 0 <= j < |f.fields| ==> ColumnDone(f, args, g, j)
  }

  ghost predicate ColumnDone(f: Frame, args: OpArgs, g: Frame, j: nat)
    requires f.Valid() && args.columns.Listed? && j < |f.fields| == |g.fields| && |g.rows| == |f.rows|
    requires forall i :: 0 <= i < |f.rows| ==> |g.rows[i]| == |f.fields|
  {
    exists mark :: ColumnRead(f, args, g, j, mark)
  }

  /** The texts of column `j`, by position. */
  ghost function TextsOf(f: Frame, j: nat): set<nat>
    requires f.Valid() && j < |f.fields|
  {
    set i: nat | i < |f.rows| && f.rows[i][j].Text?
  }

  /** Those that read as a number. */
  ghost function ReadOf(f: Frame, j: nat, mark: char): set<nat>
    requires f.Valid() && j < |f.fields|
  {
    set i: nat | i < |f.rows| && f.rows[i][j].Text? && Decimals.Coerce(f.rows[i][j].s, mark).Some?
  }

  /** An entry of the report says which mark was used, how many texts were read and how many were not; or that the
      column was left alone. */
  ghost predicate EntryOf(f: Frame, args: OpArgs, e: Converted, j: nat, mark: char)
    requires f.Valid() && j < |f.fields|
  {
    && e.column == f.fields[j].name && (e.skipped <==> !Convertible(f, j))
    && if e.skipped then e.convertedCount == e.failedCount == 0
       else
         && IsMark(args.decimal, f.Column(j), mark) && e.decimal == [mark]
         && e.convertedCount == |ReadOf(f, j, mark)| && e.failedCount == |TextsOf(f, j)| - |ReadOf(f, j, mark)|
  }

  ghost predicate IsEntry(f: Frame, args: OpArgs, col: string, e: Converted)
    requires f.Valid()
  {
    e.column == col && exists j, mark :: 0 <= j < |f.fields| && EntryOf(f, args, e, j, mark)
  }

  ghost predicate Reported(f: Frame, args: OpArgs, done: seq<Converted>)
    requires f.Valid() && args.columns.Listed?
  {
    && |done| == |args.columns.items|
    && forall k :: 0 <= k < |done| ==> IsEntry(f, args, args.columns.items[k], done[k])
  }

  predicate KnownDecimal(arg: string) { arg == "auto" || arg == "." || arg == "," }

  /** What `normalize_numeric` answers. */
  ghost predicate ReadsNumbers(f: Frame, args: OpArgs, r: Outcome)
    requires f.Valid()
  {
    if !ColumnsGiven(f, args.columns) then r.Err? && ColumnsRefused(f, args.columns, r.error)
    else if !KnownDecimal(args.decimal) then r == Err(BadDecimal)
    else
      && r.Ok? && r.value.frame.Some? && ReadsFrame(f, args, r.value.frame.value)
      && r.value.summary.NumericSummary? && r.value.summary.rowsBefore == r.value.summary.rowsAfter == |f.rows|
      && Reported(f, args, r.value.summary.results)
  }

  // ---- counting -----------------------------------------------------------

  lemma {:induction false} CharsCounted(c: char, s: string)
    ensures Decimals.CountChar(c, s) == multiset(s)[c]
  {
    if s != [] {
      CharsCounted(c, s[1..]);
      assert s == [s[0]] + s[1..];
    }
  }

  lemma {:induction false} TotalIsOccurrences(c: char, cells: seq<Cell>)
    ensures Decimals.Total(c, NormalizeNumeric.Strings(cells)) == Occurrences(c, cells)
  {
    if cells != [] {
      var rest := NormalizeNumeric.Strings(cells[1..]);
      TotalIsOccurrences(c, cells[1..]);
      if cells[0].Text? {
        assert ([cells[0].s] + rest)[1..] == rest;
        CharsCounted(c, cells[0].s);
      } else {
        assert [] + rest == rest;
      }
    }
  }

  /** The mark chosen is the one its argument names. */
  lemma ChosenIsMark(arg: string, cells: seq<Cell>)
    requires KnownDecimal(arg)
    ensures IsMark(arg, cells, NormalizeNumeric.ChooseDecimal(arg, NormalizeNumeric.Strings(cells)))
  {
    TotalIsOccurrences(',', cells);
    TotalIsOccurrences('.', cells);
  }

  lemma {:induction false} NoStrings(cells: seq<Cell>)
    ensures NormalizeNumeric.Strings(cells) == [] <==> forall i :: 0 <= i < |cells| ==> !cells[i].Text?
  {
    if cells != [] {
      NoStrings(cells[1..]);
      assert forall i :: 0 < i < |cells| ==> cells[i] == cells[1..][i - 1];
    }
  }

  lemma ConvertibleIff(f: Frame, j: nat)
    requires f.Valid() && j < |f.fields|
    ensures NormalizeNumeric.Skips(f, j) <==> !Convertible(f, j)
  {
    var cells := f.Column(j);
    NoStrings(cells);
    forall i | 0 <= i < |f.rows| ensures cells[i] == f.rows[i][j] {}
    if exists i :: 0 <= i < |cells| && cells[i].Text? {
      var i :| 0 <= i < |cells| && cells[i].Text?;
      assert f.rows[i][j].Text?;
    }
  }

  /** The texts from row `n` on. */
  lemma {:induction false} TextsCounted(f: Frame, j: nat, n: nat)
    requires f.Valid() && j < |f.fields| && n <= |f.rows|
    ensures |NormalizeNumeric.Strings(f.Column(j)[n..])| == |set i: nat | n <= i < |f.rows| && f.rows[i][j].Text?|
    decreases |f.rows| - n
  {
    var here := set i: nat | n <= i < |f.rows| && f.rows[i][j].Text?;
    if n == |f.rows| {
      assert here == {};
    } else {
      TextsCounted(f, j, n + 1);
      assert f.Column(j)[n..][1..] == f.Column(j)[n + 1..];
      var behind := set i: nat | n + 1 <= i < |f.rows| && f.rows[i][j].Text?;
      assert here == behind + if f.rows[n][j].Text? then {n} else {};
    }
  }

  predicate Reads(mark: char, c: Cell) { c.Text? && Decimals.Coerce(c.s, mark).Some? }

  /** Those from row `n` on that read. */
  lemma {:induction false} ReadCounted(f: Frame, j: nat, mark: char, n: nat)
    requires f.Valid() && j < |f.fields| && n <= |f.rows|
    ensures |NonNull(NormalizeNumeric.CoerceCells(mark, f.Column(j)[n..]))|
         == |set i: nat | n <= i < |f.rows| && Reads(mark, f.rows[i][j])|
    decreases |f.rows| - n
  {
    var here := set i: nat | n <= i < |f.rows| && Reads(mark, f.rows[i][j]);
    if n == |f.rows| {
      assert here == {};
    } else {
      ReadCounted(f, j, mark, n + 1);
      var cells, rest := f.Column(j)[n..], f.Column(j)[n + 1..];
      CoercedCons(mark, cells, rest);
      var behind := set i: nat | n + 1 <= i < |f.rows| && Reads(mark, f.rows[i][j]);
      assert here == behind + if Reads(mark, f.rows[n][j]) then {n} else {};
    }
  }

  lemma CoercedCons(mark: char, cells: seq<Cell>, rest: seq<Cell>)
    requires cells != [] && cells[1..] == rest
    ensures |NonNull(NormalizeNumeric.CoerceCells(mark, cells))|
         == |NonNull(NormalizeNumeric.CoerceCells(mark, rest))| + if Reads(mark, cells[0]) then 1 else 0
  {
    assert NormalizeNumeric.CoerceCells(mark, cells)[1..] == NormalizeNumeric.CoerceCells(mark, rest);
  }

  lemma AllTextsCounted(f: Frame, j: nat, mark: char)
    requires f.Valid() && j < |f.fields|
    ensures |NormalizeNumeric.Strings(f.Column(j))| == |TextsOf(f, j)|
    ensures |NonNull(NormalizeNumeric.CoerceCells(mark, f.Column(j)))| == |ReadOf(f, j, mark)|
  {
    TextsCounted(f, j, 0);
    ReadCounted(f, j, mark, 0);
    assert f.Column(j)[0..] == f.Column(j);
    assert TextsOf(f, j) == set i: nat | 0 <= i < |f.rows| && f.rows[i][j].Text?;
    assert ReadOf(f, j, mark) == set i: nat | 0 <= i < |f.rows| && Reads(mark, f.rows[i][j]);
  }

  // ---- the operation ------------------------------------------------------

  lemma ColumnIsRead(f: Frame, args: OpArgs, g: Frame, j: nat)
    requires f.Valid() && args.columns.Listed? && KnownDecimal(args.decimal) && j < |f.fields|
    requires NormalizeNumeric.ConvertsExactly(f, args.columns.items, args.decimal, g)
    ensures ColumnRead(f, args, g, j,
                       NormalizeNumeric.ChooseDecimal(args.decimal, NormalizeNumeric.Strings(f.Column(j))))
  {
    var mark := NormalizeNumeric.ChooseDecimal(args.decimal, NormalizeNumeric.Strings(f.Column(j)));
    ConvertibleIff(f, j);
    ChosenIsMark(args.decimal, f.Column(j));
    forall i | 0 <= i < |f.rows|
      ensures if f.fields[j].name in args.columns.items && Convertible(f, j)
              then CellRead(mark, f.rows[i][j], g.rows[i][j]) else g.rows[i][j] == f.rows[i][j]
    {
      assert g.Column(j)[i] == g.rows[i][j] && f.Column(j)[i] == f.rows[i][j];
    }
  }

  lemma EntryIsRight(f: Frame, args: OpArgs, cols: seq<string>, k: nat)
    requires f.Valid() && KnownDecimal(args.decimal) && AllPresent(f, cols) && k < |cols|
    requires k < |NormalizeNumeric.NumericLoop(f, cols, args.decimal).done|
    requires NormalizeNumeric.NumericLoop(f, cols, args.decimal).done[k] == EntryFor(f, args, cols[k])
    ensures IsEntry(f, args, cols[k], NormalizeNumeric.NumericLoop(f, cols, args.decimal).done[k])
  {
    var j := Find(f.fields, cols[k]);
    var mark := NormalizeNumeric.ChooseDecimal(args.decimal, NormalizeNumeric.Strings(f.Column(j)));
    ConvertibleIff(f, j);
    ChosenIsMark(args.decimal, f.Column(j));
    AllTextsCounted(f, j, mark);
    NormalizeNumeric.ConvertedPlusFailed(mark, f.Column(j));
    assert EntryOf(f, args, EntryFor(f, args, cols[k]), j, mark);
  }

  /** The entry the loop writes for a column. */
  function EntryFor(f: Frame, args: OpArgs, col: string): Converted
    requires f.Valid() && Has(f, col)
  {
    var j := Find(f.fields, col);
    var cells := f.Column(j);
    if NormalizeNumeric.Skips(f, j) then Converted(col, true, "", 0, 0)
    else
      var mark := NormalizeNumeric.ChooseDecimal(args.decimal, NormalizeNumeric.Strings(cells));
      Converted(col, false, [mark], |NonNull(NormalizeNumeric.CoerceCells(mark, cells))|,
                NormalizeNumeric.FailedCount(mark, cells))
  }

  lemma StepWrites(f: Frame, args: OpArgs, p: NormalizeNumeric.Progress, col: string)
    requires f.Valid() && p.frame.Valid() && p.frame.Names() == f.Names() && |p.frame.rows| == |f.rows| && Has(f, col)
    ensures NormalizeNumeric.NumericStep(f, p, col, args.decimal).done == p.done + [EntryFor(f, args, col)]
  {
  }

  lemma {:induction false} EntriesAre(f: Frame, args: OpArgs, cols: seq<string>)
    requires f.Valid() && AllPresent(f, cols)
    ensures var done := NormalizeNumeric.NumericLoop(f, cols, args.decimal).done;
            |done| == |cols| && forall k :: 0 <= k < |cols| ==> done[k] == EntryFor(f, args, cols[k])
  {
    if cols != [] {
      var n := |cols| - 1;
      EntriesAre(f, args, cols[..n]);
      StepWrites(f, args, NormalizeNumeric.NumericLoop(f, cols[..n], args.decimal), cols[n]);
    }
  }

  lemma FrameIsRead(f: Frame, args: OpArgs)
    requires f.Valid() && args.columns.Listed? && KnownDecimal(args.decimal)
    ensures ReadsFrame(f, args, NormalizeNumeric.NumericLoop(f, args.columns.items, args.decimal).frame)
  {
    var g := NormalizeNumeric.NumericLoop(f, args.columns.items, args.decimal).frame;
    NormalizeNumeric.NumericLoopExactly(f, args.columns.items, args.decimal);
    forall j | 0 <= j < |f.fields| ensures ColumnDone(f, args, g, j) { ColumnIsRead(f, args, g, j); }
  }

  lemma ReportIsRight(f: Frame, args: OpArgs)
    requires f.Valid() && args.columns.Listed? && AllPresent(f, args.columns.items) && KnownDecimal(args.decimal)
    ensures Reported(f, args, NormalizeNumeric.NumericLoop(f, args.columns.items, args.decimal).done)
  {
    var cols := args.columns.items;
    EntriesAre(f, args, cols);
    forall k | 0 <= k < |cols|
      ensures IsEntry(f, args, cols[k], NormalizeNumeric.NumericLoop(f, cols, args.decimal).done[k])
    {
      EntryIsRight(f, args, cols, k);
    }
  }

  /** Whatever it is given, `normalize_numeric` refuses by name, or reads exactly the texts of the listed columns with
      the mark its argument names. */
  lemma NormalizeReadsNumbers(f: Frame, args: OpArgs)
    requires f.Valid()
    ensures ReadsNumbers(f, args, NormalizeNumeric.Apply(f, args))
  {
    RequiredColumnsIff(f, args.columns);
    if ColumnsGiven(f, args.columns) && KnownDecimal(args.decimal) {
      AllThereIff(f, args.columns.items);
      FrameIsRead(f, args);
      ReportIsRight(f, args);
    }
  }
}
