/** `normalize_numeric`: turn text columns of written numbers into numeric columns. */
module NormalizeNumeric {
  import opened Wrappers
  import opened Frames
  import opened Operations
  import opened Decimals
  import DecimalsProperties

  /** The strings of a column, nulls left out. */
  function Strings(cells: seq<Cell>): seq<string> {
    if cells == [] then []
    else (if cells[0].Text? then [cells[0].s] else []) + Strings(cells[1..])
  }

  function CoerceCell(decimal: char, c: Cell): Cell {
    if c.Text? then (match Coerce(c.s, decimal) case Some(x) => Num(x) case None => Null) else Null
  }

  function CoerceCells(decimal: char, cells: seq<Cell>): (r: seq<Cell>)
    ensures |r| == |cells|
  {
    seq(|cells|, i requires 0 <= i < |cells| => CoerceCell(decimal, cells[i]))
  }

  /** Strings that did not convert. */
  function FailedCount(decimal: char, cells: seq<Cell>): nat {
    if cells == [] then 0
    else (if cells[0].Text? && CoerceCell(decimal, cells[0]).Null? then 1 else 0) + FailedCount(decimal, cells[1..])
  }

  function ChooseDecimal(arg: string, strings: seq<string>): char {
    if arg == "," then ',' else if arg == "." then '.' else DetectDecimal(strings)
  }

  datatype Progress = Progress(frame: Frame, done: seq<Converted>)

  function NumericStep(f: Frame, p: Progress, col: string, arg: string): (r: Progress)
    requires f.Valid() && p.frame.Valid() && p.frame.Names() == f.Names() && |p.frame.rows| == |f.rows|
    ensures r.frame.Valid() && r.frame.Names() == f.Names() && |r.frame.rows| == |f.rows|
  {
    var j := Find(f.fields, col);
    if j == |f.fields| then p else
      var cells := f.Column(j);
      var strings := Strings(cells);
      if f.fields[j].dtype != Utf8 || strings == [] then p.(done := p.done + [Converted(col, true, "", 0, 0)])
      else
        var decimal, coerced := ChooseDecimal(arg, strings), CoerceCells(ChooseDecimal(arg, strings), cells);
        assert |p.frame.Names()| == |f.Names()|;
        var g := ReplaceColumn(p.frame, j, Numeric, coerced);
        assert g.Names() == p.frame.Names();
        Progress(g, p.done + [Converted(col, false, [decimal], |NonNull(coerced)|, FailedCount(decimal, cells))])
  }

  function NumericLoop(f: Frame, cols: seq<string>, arg: string): (r: Progress)
    requires f.Valid()
    ensures r.frame.Valid() && r.frame.Names() == f.Names() && |r.frame.rows| == |f.rows|
  {
    if cols == [] then Progress(f, [])
    else NumericStep(f, NumericLoop(f, cols[..|cols| - 1], arg), cols[|cols| - 1], arg)
  }

  function Apply(f: Frame, args: OpArgs): Outcome
    requires f.Valid()
  {
    match RequiredColumns(f, args.columns)
    case Err(e) => Err(e)
    case Ok(cols) =>
      if args.decimal != "auto" && args.decimal != "." && args.decimal != "," then Err(BadDecimal)
      else
        var p := NumericLoop(f, cols, args.decimal);
        Ok(OperationResult(Some(p.frame), NumericSummary(p.done, f.Height(), p.frame.Height())))
  }

  method RunNormalizeNumeric(f: Frame, args: OpArgs) returns (r: Outcome)
    requires f.Valid()
    ensures r == Apply(f, args)
  {
    var checked := RequiredColumns(f, args.columns);
    if checked.Err? { return Err(checked.error); }
    var cols := checked.value;
    if args.decimal != "auto" && args.decimal != "." && args.decimal != "," { return Err(BadDecimal); }
    var p := Progress(f, []);
    for k := 0 to |cols|
      invariant p == NumericLoop(f, cols[..k], args.decimal)
    {
      assert cols[..k + 1][..k] == cols[..k];
      p := NumericStep(f, p, cols[k], args.decimal);
    }
    assert cols[..|cols|] == cols;
    r := Ok(OperationResult(Some(p.frame), NumericSummary(p.done, f.Height(), p.frame.Height())));
  }

  // ---- what it means ------------------------------------------------------

  /** Every string of a column is either converted or counted as failed. */
  lemma {:induction false} ConvertedPlusFailed(decimal: char, cells: seq<Cell>)
    ensures |NonNull(CoerceCells(decimal, cells))| + FailedCount(decimal, cells) == |Strings(cells)|
  {
    if cells != [] {
      ConvertedPlusFailed(decimal, cells[1..]);
      assert CoerceCells(decimal, cells)[1..] == CoerceCells(decimal, cells[1..]);
    }
  }

  /** The written numbers of a column, in order, nulls left out. */
  function Present(column: seq<Option<Written>>): seq<Written> {
    if column == [] then []
    else (if column[0].Some? then [column[0].value] else []) + Present(column[1..])
  }

  ghost predicate AllDecorated(column: seq<Option<Written>>) {
    forall i :: 0 <= i < |column| && column[i].Some? ==> column[i].value.Decorated()
  }

  /** No point or comma among the symbols. */
  ghost predicate AllValid(column: seq<Option<Written>>) {
    forall i :: 0 <= i < |column| && column[i].Some? ==> column[i].value.Valid()
  }

  function PrintCells(column: seq<Option<Written>>, locale: Locale): seq<Cell> {
    seq(|column|, i requires 0 <= i < |column| =>
      if column[i].Some? then Text(column[i].value.Print(locale)) else Null)
  }

  function ValueCells(column: seq<Option<Written>>): seq<Cell> {
    seq(|column|, i requires 0 <= i < |column| => if column[i].Some? then Num(column[i].value.Value()) else Null)
  }

  lemma {:induction false} StringsOfPrinted(column: seq<Option<Written>>, locale: Locale)
    ensures Strings(PrintCells(column, locale)) == DecimalsProperties.Texts(Present(column), locale)
  {
    if column != [] {
      StringsOfPrinted(column[1..], locale);
      assert PrintCells(column, locale)[1..] == PrintCells(column[1..], locale);
      if column[0].Some? { TextsCons(column[0].value, Present(column[1..]), locale); }
    }
  }

  lemma TextsCons(w: Written, rest: seq<Written>, locale: Locale)
    ensures DecimalsProperties.Texts([w] + rest, locale) == [w.Print(locale)] + DecimalsProperties.Texts(rest, locale)
  {
  }

  lemma {:induction false} PresentIsSome(column: seq<Option<Written>>)
    ensures forall i :: 0 <= i < |column| && column[i].Some? ==> column[i].value in Present(column)
    ensures forall w :: w in Present(column) ==> Some(w) in column
  {
    if column != [] {
      PresentIsSome(column[1..]);
      assert forall i :: 0 < i < |column| ==> column[i] == column[1..][i - 1];
    }
  }

  /** Coercing a printed column gives back its values exactly when each present number is read right. */
  lemma CoercedIffEachRead(column: seq<Option<Written>>, locale: Locale, decimal: char)
    ensures CoerceCells(decimal, PrintCells(column, locale)) == ValueCells(column) <==>
              forall w :: w in Present(column) ==> Coerce(w.Print(locale), decimal) == Some(w.Value())
  {
    PresentIsSome(column);
    var cells, values := CoerceCells(decimal, PrintCells(column, locale)), ValueCells(column);
    if cells == values {
      forall w | w in Present(column) ensures Coerce(w.Print(locale), decimal) == Some(w.Value()) {
        var i :| 0 <= i < |column| && column[i] == Some(w);
        assert cells[i] == values[i];
      }
    }
  }

  /** This mark reads each of the numbers: no exponent letter stands around it, and only harmless marks. */
  predicate AllRead(numbers: seq<Written>, locale: Locale, decimal: char) {
    forall i :: 0 <= i < |numbers| ==> numbers[i].Plain() && numbers[i].ReadsWith(locale, decimal)
  }

  /** Whether a printed column comes back: the mark given, or the one found by counting, reads each number. */
  predicate Readable(column: seq<Option<Written>>, locale: Locale, arg: string) {
    AllRead(Present(column), locale, ChooseDecimal(arg, Strings(PrintCells(column, locale))))
  }

  lemma EachReadIff(numbers: seq<Written>, locale: Locale, decimal: char)
    requires DecimalsProperties.IsMark(decimal) && forall i :: 0 <= i < |numbers| ==> numbers[i].Decorated()
    ensures (forall w :: w in numbers ==> Coerce(w.Print(locale), decimal) == Some(w.Value()))
       <==> AllRead(numbers, locale, decimal)
  {
    forall i | 0 <= i < |numbers|
      ensures Coerce(numbers[i].Print(locale), decimal) == Some(numbers[i].Value())
              <==> numbers[i].Plain() && numbers[i].ReadsWith(locale, decimal)
    {
      DecimalsProperties.CoerceReadsIff(numbers[i], locale, decimal);
    }
    if i :| 0 <= i < |numbers| && !(numbers[i].Plain() && numbers[i].ReadsWith(locale, decimal)) {
      assert numbers[i] in numbers;
    }
  }

  /** Whatever stands around its numbers, a printed column converts to its values exactly when it is readable. */
  lemma PrintedColumnConverts(column: seq<Option<Written>>, locale: Locale, arg: string)
    requires AllDecorated(column)
    ensures var cells := PrintCells(column, locale);
            CoerceCells(ChooseDecimal(arg, Strings(cells)), cells) == ValueCells(column) <==>
              Readable(column, locale, arg)
  {
    var present := Present(column);
    var decimal := ChooseDecimal(arg, Strings(PrintCells(column, locale)));
    PresentIsSome(column);
    forall i | 0 <= i < |present| ensures present[i].Decorated() { assert present[i] in present; }
    CoercedIffEachRead(column, locale, decimal);
    EachReadIff(present, locale, decimal);
  }

  /** Without points and commas among the symbols: no exponent letter, and the mark given or, by the counts of the
      column, found. */
  lemma ReadableByCounts(column: seq<Option<Written>>, locale: Locale, arg: string)
    requires AllValid(column) && arg in {"auto", [locale.Mark()]}
    ensures var strings := Strings(PrintCells(column, locale));
            Readable(column, locale, arg) <==>
              && (forall i :: 0 <= i < |Present(column)| ==> Present(column)[i].Plain())
              && (|| arg == [locale.Mark()]
                  || DecimalsProperties.MarkFound(locale, Total(locale.Mark(), strings),
                                                  Total(locale.Separator(), strings)))
  {
    var present := Present(column);
    PresentIsSome(column);
    StringsOfPrinted(column, locale);
    forall i | 0 <= i < |present| ensures present[i].Valid() { assert present[i] in present; }
    if arg == [locale.Mark()] {
      forall i | 0 <= i < |present| ensures present[i].ReadsWith(locale, locale.Mark()) {
        DecimalsProperties.UnmarkedCounts(present[i], locale.Mark());
      }
    } else {
      DecimalsProperties.AutoReadsIff(present, locale);
      DecimalsProperties.AutoRecoversIff(present, locale);
    }
  }

  // ---- the frame and the report -------------------------------------------

  predicate Skips(f: Frame, j: nat)
    requires f.Valid() && j < |f.fields|
  {
    f.fields[j].dtype != Utf8 || Strings(f.Column(j)) == []
  }

  function NewColumn(f: Frame, j: nat, arg: string): (r: seq<Cell>)
    requires f.Valid() && j < |f.fields|
    ensures |r| == |f.rows|
  {
    var cells := f.Column(j);
    if Skips(f, j) then cells else CoerceCells(ChooseDecimal(arg, Strings(cells)), cells)
  }

  function NewField(f: Frame, j: nat): Field
    requires f.Valid() && j < |f.fields|
  {
    Field(f.fields[j].name, if Skips(f, j) then f.fields[j].dtype else Numeric)
  }

  /** The named columns are new, every other is the original, and each is computed from the original frame. */
  ghost predicate ConvertsExactly(f: Frame, cols: seq<string>, arg: string, g: Frame)
    requires f.Valid()
  {
    && g.Valid() && |g.fields| == |f.fields| && |g.rows| == |f.rows|
    && (forall j :: 0 <= j < |f.fields| ==>
          g.fields[j] == if f.fields[j].name in cols then NewField(f, j) else f.fields[j])
    && (forall j :: 0 <= j < |f.fields| ==>
          g.Column(j) == if f.fields[j].name in cols then NewColumn(f, j, arg) else f.Column(j))
  }

  lemma NumericStepExactly(f: Frame, cols: seq<string>, arg: string, p: Progress, col: string)
    requires f.Valid() && p.frame.Names() == f.Names() && ConvertsExactly(f, cols, arg, p.frame)
    ensures ConvertsExactly(f, cols + [col], arg, NumericStep(f, p, col, arg).frame)
  {
    var g, h, c := p.frame, NumericStep(f, p, col, arg).frame, Find(f.fields, col);
    forall j | 0 <= j < |f.fields|
      ensures h.fields[j] == if f.fields[j].name in cols + [col] then NewField(f, j) else f.fields[j]
      ensures h.Column(j) == if f.fields[j].name in cols + [col] then NewColumn(f, j, arg) else f.Column(j)
    {
      ListedOneMore(f, cols, col, j);
      if c < |f.fields| && !Skips(f, c) { ColumnOfReplaced(g, c, Numeric, NewColumn(f, c, arg), j); }
    }
  }

  lemma {:induction false} NumericLoopExactly(f: Frame, cols: seq<string>, arg: string)
    requires f.Valid()
    ensures ConvertsExactly(f, cols, arg, NumericLoop(f, cols, arg).frame)
  {
    if cols == [] {
      NothingConverted(f, arg);
    } else {
      var front, last := cols[..|cols| - 1], cols[|cols| - 1];
      assert front + [last] == cols;
      NumericLoopExactly(f, front, arg);
      NumericStepExactly(f, front, arg, NumericLoop(f, front, arg), last);
    }
  }

  lemma NothingConverted(f: Frame, arg: string)
    requires f.Valid()
    ensures ConvertsExactly(f, [], arg, f)
  {
  }

  /** What the report says of a column, every time it is listed. */
  ghost predicate Describes(f: Frame, col: string, arg: string, e: Converted)
    requires f.Valid()
  {
    var j := Find(f.fields, col);
    && j < |f.fields| && e.column == col && e.skipped == Skips(f, j)
    && (e.skipped ==> e.convertedCount == e.failedCount == 0)
    && (!e.skipped ==>
          && e.convertedCount == |NonNull(NewColumn(f, j, arg))|
          && e.convertedCount + e.failedCount == |Strings(f.Column(j))|)
  }

  /** One entry for every listed column, in order. */
  ghost predicate Reports(f: Frame, cols: seq<string>, arg: string, done: seq<Converted>)
    requires f.Valid()
  {
    |done| == |cols| && forall k :: 0 <= k < |cols| ==> Describes(f, cols[k], arg, done[k])
  }

  lemma ReportsOneMore(f: Frame, cols: seq<string>, arg: string, done: seq<Converted>, col: string, e: Converted)
    requires f.Valid() && Reports(f, cols, arg, done) && Describes(f, col, arg, e)
    ensures Reports(f, cols + [col], arg, done + [e])
  {
  }

  lemma StepDescribes(f: Frame, p: Progress, col: string, arg: string) returns (e: Converted)
    requires f.Valid() && p.frame.Valid() && p.frame.Names() == f.Names() && |p.frame.rows| == |f.rows| && Has(f, col)
    ensures NumericStep(f, p, col, arg).done == p.done + [e] && Describes(f, col, arg, e)
  {
    var cells := f.Column(Find(f.fields, col));
    ConvertedPlusFailed(ChooseDecimal(arg, Strings(cells)), cells);
    e := NumericStep(f, p, col, arg).done[|p.done|];
  }

  lemma {:induction false} NumericReport(f: Frame, cols: seq<string>, arg: string)
    requires f.Valid() && AllPresent(f, cols)
    ensures Reports(f, cols, arg, NumericLoop(f, cols, arg).done)
  {
    if cols != [] {
      var n := |cols| - 1;
      NumericReport(f, cols[..n], arg);
      var p := NumericLoop(f, cols[..n], arg);
      var e := StepDescribes(f, p, cols[n], arg);
      ReportsOneMore(f, cols[..n], arg, p.done, cols[n], e);
      assert cols[..n] + [cols[n]] == cols;
    }
  }

  lemma {:induction false} AllNumbersStay(column: seq<Option<Written>>, locale: Locale)
    ensures |NonNull(ValueCells(column))| == |Strings(PrintCells(column, locale))|
  {
    if column != [] {
      AllNumbersStay(column[1..], locale);
      assert ValueCells(column)[1..] == ValueCells(column[1..]);
      assert PrintCells(column, locale)[1..] == PrintCells(column[1..], locale);
    }
  }

  /** A printed column among the listed ones comes back as its numbers exactly when it is readable, whatever else is
      listed, and then the report counts each of them as converted and none as failed. */
  lemma NormalizeNumericConverts(f: Frame, args: OpArgs, k: nat, column: seq<Option<Written>>, locale: Locale)
    requires f.Valid() && RequiredColumns(f, args.columns).Ok? && k < |args.columns.items|
    requires args.decimal in {"auto", ".", ","}
    requires var j := Find(f.fields, args.columns.items[k]);
             f.fields[j].dtype == Utf8 && f.Column(j) == PrintCells(column, locale)
    requires Present(column) != [] && AllDecorated(column)
    ensures Apply(f, args).Ok?
    ensures var r, j := Apply(f, args).value, Find(f.fields, args.columns.items[k]);
            var g, n := r.frame.value, |Present(column)|;
            && g.Valid() && g.Names() == f.Names() && j < |g.fields| && g.fields[j].dtype == Numeric
            && (g.Column(j) == ValueCells(column) <==> Readable(column, locale, args.decimal))
            && k < |r.summary.results|
            && r.summary.results[k].convertedCount + r.summary.results[k].failedCount == n
            && (Readable(column, locale, args.decimal) ==> r.summary.results[k].failedCount == 0)
  {
    var cols := args.columns.items;
    var j := Find(f.fields, cols[k]);
    NumericLoopExactly(f, cols, args.decimal);
    NumericReport(f, cols, args.decimal);
    PrintedColumnConverts(column, locale, args.decimal);
    StringsOfPrinted(column, locale);
    AllNumbersStay(column, locale);
    assert f.fields[j].name == cols[k];
    assert NumericLoop(f, cols, args.decimal).frame.Column(j) == NewColumn(f, j, args.decimal);
    assert Describes(f, cols[k], args.decimal, NumericLoop(f, cols, args.decimal).done[k]);
  }
}
