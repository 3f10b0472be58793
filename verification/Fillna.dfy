/** `fillna`: fill the nulls of some columns with a statistic or a constant, or drop very empty rows. */
module Fillna {
  import opened Wrappers
  import opened Frames
  import opened Operations
  import opened Stats

  // ---- the value a column is filled with ----------------------------------

  function AsReal(c: Cell): real { if c.Num? then c.x else 0.0 }

  function Numbers(cells: seq<Cell>): (r: seq<real>)
    ensures |r| == |cells|
  {
    seq(|cells|, i requires 0 <= i < |cells| => AsReal(cells[i]))
  }

  function EffectiveStrategy(dtype: DType, strategy: Strategy): Strategy {
    if strategy.Auto? then (if dtype.Numeric? then Median else Mode) else strategy
  }

  /** `Null` when the column has nothing to compute a value from, and for a null constant. */
  function FillValue(dtype: DType, cells: seq<Cell>, strategy: Strategy, constant: Cell): Result<Cell, OperationError> {
    var nonNull := NonNull(cells);
    if nonNull == [] then Ok(if strategy.Constant? then constant else Null)
    else match strategy
      case Median =>
        Ok(if dtype.Numeric? then Num(Stats.Median(Numbers(nonNull))) else FirstMode(nonNull))
      case Mean =>
        Ok(if dtype.Numeric? then Num(Stats.Mean(Numbers(nonNull))) else FirstMode(nonNull))
      case Mode => Ok(FirstMode(nonNull))
      case Constant => Ok(constant)
      case _ => Err(UnknownStrategy)
  }

  function FillNull(cells: seq<Cell>, v: Cell): (r: seq<Cell>)
    ensures |r| == |cells|
  {
    seq(|cells|, i requires 0 <= i < |cells| => if cells[i].Null? then v else cells[i])
  }

  // ---- the loop over columns ----------------------------------------------

  /** What the loop does with column `j` of the original frame: `Ok(Null)` leaves it alone. */
  function ColumnFill(f: Frame, j: nat, args: OpArgs): Result<Cell, OperationError>
    requires f.Valid() && j < |f.fields|
  {
    if NullCount(f.Column(j)) == 0 then Ok(Null)
    else FillValue(f.fields[j].dtype, f.Column(j), EffectiveStrategy(f.fields[j].dtype, args.strategy), args.constant)
  }

  datatype Progress = Progress(frame: Frame, done: seq<Filled>)

  function FillStep(f: Frame, p: Progress, col: string, args: OpArgs): (r: Result<Progress, OperationError>)
    requires f.Valid() && p.frame.Valid() && p.frame.fields == f.fields && |p.frame.rows| == |f.rows|
    ensures r.Ok? ==> r.value.frame.Valid() && r.value.frame.fields == f.fields && |r.value.frame.rows| == |f.rows|
  {
    var j := Find(f.fields, col);
    if j == |f.fields| then Ok(p) else
      match ColumnFill(f, j, args)
      case Err(e) => Err(e)
      case Ok(v) =>
        if v.Null? then Ok(p)
        else Ok(Progress(ReplaceColumn(p.frame, j, f.fields[j].dtype, FillNull(p.frame.Column(j), v)),
                         p.done + [Filled(col, v, NullCount(f.Column(j)))]))
  }

  function FillLoop(f: Frame, cols: seq<string>, args: OpArgs): (r: Result<Progress, OperationError>)
    requires f.Valid()
    ensures r.Ok? ==> r.value.frame.Valid() && r.value.frame.fields == f.fields && |r.value.frame.rows| == |f.rows|
  {
    if cols == [] then Ok(Progress(f, [])) else
      match FillLoop(f, cols[..|cols| - 1], args)
      case Err(e) => Err(e)
      case Ok(p) => FillStep(f, p, cols[|cols| - 1], args)
  }

  function TotalFilled(done: seq<Filled>): nat {
    if done == [] then 0 else TotalFilled(done[..|done| - 1]) + done[|done| - 1].filledCount
  }

  // ---- dropping rows ------------------------------------------------------

  /** Python's `round`: to the nearest integer, halves to the even one. */
  function Round(x: real): int {
    var low := x.Floor;
    var part := x - low as real;
    if part < 0.5 then low else if part > 0.5 then low + 1 else if low % 2 == 0 then low else low + 1
  }

  function DropThreshold(minPct: real, columnCount: nat): int {
    var r := Round(minPct * columnCount as real);
    if r > 1 then r else 1
  }

  function RowNulls(row: Row, idx: seq<nat>): nat {
    if idx == [] then 0 else
      var j := idx[|idx| - 1];
      RowNulls(row, idx[..|idx| - 1]) + if j < |row| && row[j].Null? then 1 else 0
  }

  /** Few enough nulls among these columns to stay. */
  function Dense(idx: seq<nat>, threshold: int): Row -> bool {
    (row: Row) => RowNulls(row, idx) < threshold
  }

  function FilterRows(rows: seq<Row>, keep: Row -> bool): seq<Row> {
    if rows == [] then [] else
      var row, front := rows[|rows| - 1], FilterRows(rows[..|rows| - 1], keep);
      if keep(row) then front + [row] else front
  }

  // ---- the operation ------------------------------------------------------

  /** Columns with nulls, in frame order: the default target. */
  function ColumnsWithNulls(f: Frame, n: nat): seq<string>
    requires f.Valid() && n <= |f.fields|
  {
    if n == 0 then []
    else ColumnsWithNulls(f, n - 1) + if NullCount(f.Column(n - 1)) > 0 then [f.fields[n - 1].name] else []
  }

  function TargetColumns(f: Frame, columns: ListArg): Result<seq<string>, OperationError>
    requires f.Valid()
  {
    match columns
    case Absent => Ok(ColumnsWithNulls(f, |f.fields|))
    case NotAList => Err(ColumnsNotAList)
    case Listed(items) =>
      if items == [] then Err(ColumnsNotAList)
      else if AllPresent(f, items) then Ok(items) else Err(ColumnsMissing)
  }

  function Apply(f: Frame, args: OpArgs): Outcome
    requires f.Valid()
  {
    match TargetColumns(f, args.columns)
    case Err(e) => Err(e)
    case Ok(cols) =>
      if cols == [] then Ok(OperationResult(Some(f), FillSummary([], 0, f.Height(), f.Height())))
      else if args.strategy.DropRow? then
        var kept := FilterRows(f.rows, Dense(Indices(f, cols), DropThreshold(args.minPctToDrop, |cols|)));
        Ok(OperationResult(Some(Frame(f.fields, kept)), DropSummary(f.Height(), |kept|, f.Height() - |kept|)))
      else
        match FillLoop(f, cols, args)
        case Err(e) => Err(e)
        case Ok(p) =>
          Ok(OperationResult(Some(p.frame), FillSummary(p.done, TotalFilled(p.done), f.Height(), p.frame.Height())))
  }

  method RunFillna(f: Frame, args: OpArgs) returns (r: Outcome)
    requires f.Valid()
    ensures r == Apply(f, args)
  {
    var cols: seq<string> := [];
    if args.columns == NotAList || args.columns == Listed([]) {
      return Err(ColumnsNotAList);
    } else if args.columns == Absent {
      for j := 0 to |f.fields|
        invariant cols == ColumnsWithNulls(f, j)
      {
        if NullCount(f.Column(j)) > 0 { cols := cols + [f.fields[j].name]; }
      }
    } else {
      if !AllPresent(f, args.columns.items) { return Err(ColumnsMissing); }
      cols := args.columns.items;
    }
    if cols == [] {
      return Ok(OperationResult(Some(f), FillSummary([], 0, f.Height(), f.Height())));
    }
    if args.strategy == DropRow {
      var kept := Filter(f.rows, Dense(Indices(f, cols), DropThreshold(args.minPctToDrop, |cols|)));
      return Ok(OperationResult(Some(Frame(f.fields, kept)), DropSummary(f.Height(), |kept|, f.Height() - |kept|)));
    }
    r := FillColumns(f, cols, args);
  }

  method Filter(rows: seq<Row>, keep: Row -> bool) returns (kept: seq<Row>)
    ensures kept == FilterRows(rows, keep)
  {
    kept := [];
    for i := 0 to |rows|
      invariant kept == FilterRows(rows[..i], keep)
    {
      assert rows[..i + 1][..i] == rows[..i];
      if keep(rows[i]) { kept := kept + [rows[i]]; }
    }
    assert rows[..|rows|] == rows;
  }

  /** The per-column loop: statistics come from the frame as it was, fills go into the new one. */
  method FillColumns(f: Frame, cols: seq<string>, args: OpArgs) returns (r: Outcome)
    requires f.Valid()
    ensures r == match FillLoop(f, cols, args)
                 case Err(e) => Err(e)
                 case Ok(p) => Ok(OperationResult(Some(p.frame),
                                 FillSummary(p.done, TotalFilled(p.done), f.Height(), p.frame.Height())))
  {
    var newFrame := f;
    var perColumn: seq<Filled> := [];
    var totalFilled := 0;
    for k := 0 to |cols|
      invariant newFrame.Valid() && newFrame.fields == f.fields && |newFrame.rows| == |f.rows|
      invariant FillLoop(f, cols[..k], args) == Ok(Progress(newFrame, perColumn))
      invariant totalFilled == TotalFilled(perColumn)
    {
      FillLoopStops(f, cols, k, args, Progress(newFrame, perColumn));
      var step := FillStep(f, Progress(newFrame, perColumn), cols[k], args);
      if step.Err? { return Err(step.error); }
      if |step.value.done| > |perColumn| {
        totalFilled := totalFilled + step.value.done[|perColumn|].filledCount;
      }
      newFrame, perColumn := step.value.frame, step.value.done;
    }
    assert cols[..|cols|] == cols;
    r := Ok(OperationResult(Some(newFrame), FillSummary(perColumn, totalFilled, f.Height(), newFrame.Height())));
  }

  /** One column further: the counts grow by what it reports, and an error ends the loop. */
  lemma FillLoopStops(f: Frame, cols: seq<string>, k: nat, args: OpArgs, p: Progress)
    requires f.Valid() && k < |cols| && FillLoop(f, cols[..k], args) == Ok(p)
    ensures FillLoop(f, cols[..k + 1], args) == FillStep(f, p, cols[k], args)
    ensures match FillStep(f, p, cols[k], args)
            case Err(e) => FillLoop(f, cols, args) == Err(e)
            case Ok(q) => q.done == p.done || (|q.done| == |p.done| + 1
                                               && TotalFilled(q.done) ==
                                                    TotalFilled(p.done) + q.done[|p.done|].filledCount)
  {
    assert cols[..k + 1][..k] == cols[..k];
    FillLoopPrefix(f, cols, k + 1, args);
    var step := FillStep(f, p, cols[k], args);
    if step.Ok? && step.value.done != p.done { assert step.value.done[..|p.done|] == p.done; }
  }

  /** The first error ends the loop. */
  lemma {:induction false} FillLoopPrefix(f: Frame, cols: seq<string>, k: nat, args: OpArgs)
    requires f.Valid() && k <= |cols|
    ensures FillLoop(f, cols[..k], args).Err? ==> FillLoop(f, cols, args) == FillLoop(f, cols[..k], args)
    decreases |cols| - k
  {
    if k < |cols| {
      FillLoopPrefix(f, cols, k + 1, args);
      assert cols[..k + 1][..k] == cols[..k];
    } else {
      assert cols[..k] == cols;
    }
  }

  // ---- what the fill path does to a frame ---------------------------------

  /** A null of a targeted column becomes the column's fill value; every other cell stays. */
  function FilledCell(f: Frame, cols: seq<string>, args: OpArgs, i: nat, j: nat): Cell
    requires f.Valid() && i < |f.rows| && j < |f.fields|
  {
    if f.fields[j].name in cols && f.rows[i][j].Null? && ColumnFill(f, j, args).Ok? then ColumnFill(f, j, args).value
    else f.rows[i][j]
  }

  ghost predicate FillsExactly(f: Frame, cols: seq<string>, args: OpArgs, g: Frame)
    requires f.Valid()
  {
    && g.Valid() && g.fields == f.fields && |g.rows| == |f.rows|
    && (forall j :: 0 <= j < |f.fields| && f.fields[j].name in cols ==> ColumnFill(f, j, args).Ok?)
    && (forall i, j :: 0 <= i < |f.rows| && 0 <= j < |f.fields| ==> g.rows[i][j] == FilledCell(f, cols, args, i, j))
  }

  lemma FillStepExactly(f: Frame, cols: seq<string>, args: OpArgs, p: Progress, col: string)
    requires f.Valid() && FillsExactly(f, cols, args, p.frame) && FillStep(f, p, col, args).Ok?
    ensures FillsExactly(f, cols + [col], args, FillStep(f, p, col, args).value.frame)
  {
    var g, h, c := p.frame, FillStep(f, p, col, args).value.frame, Find(f.fields, col);
    FindMisses(f.fields, col);
    forall j | 0 <= j < |f.fields| ensures f.fields[j].name in cols + [col] <==> f.fields[j].name in cols || j == c {
      if f.fields[j].name == col { FindFinds(f.fields, j); }
    }
    forall i, j | 0 <= i < |f.rows| && 0 <= j < |f.fields|
      ensures h.rows[i][j] == FilledCell(f, cols + [col], args, i, j)
    {
      assert g.rows[i][j] == FilledCell(f, cols, args, i, j);
      if j == c && f.rows[i][j].Null? {
        NullIsCounted(f.Column(j), i);
      }
    }
  }

  lemma {:induction false} NullIsCounted(cells: seq<Cell>, i: nat)
    requires i < |cells| && cells[i].Null?
    ensures NullCount(cells) > 0
  {
    if i > 0 { NullIsCounted(cells[1..], i - 1); }
  }

  lemma {:induction false} FillLoopExactly(f: Frame, cols: seq<string>, args: OpArgs)
    requires f.Valid() && FillLoop(f, cols, args).Ok?
    ensures FillsExactly(f, cols, args, FillLoop(f, cols, args).value.frame)
  {
    if cols != [] {
      var n := |cols| - 1;
      FillLoopExactly(f, cols[..n], args);
      FillStepExactly(f, cols[..n], args, FillLoop(f, cols[..n], args).value, cols[n]);
      assert cols[..n] + [cols[n]] == cols;
    }
  }

  /** Column by column: a targeted column is `fill_null` of the original, any other is the original. */
  lemma FilledColumn(f: Frame, cols: seq<string>, args: OpArgs, g: Frame, j: nat)
    requires f.Valid() && FillsExactly(f, cols, args, g) && j < |f.fields|
    ensures g.Column(j)
         == if f.fields[j].name in cols then FillNull(f.Column(j), ColumnFill(f, j, args).value) else f.Column(j)
  {
    forall i | 0 <= i < |f.rows|
      ensures g.Column(j)[i]
           == (if f.fields[j].name in cols then FillNull(f.Column(j), ColumnFill(f, j, args).value) else f.Column(j))[i]
    {
      assert g.rows[i][j] == FilledCell(f, cols, args, i, j);
    }
  }

  lemma {:induction false} FillLeavesNoNull(cells: seq<Cell>, v: Cell)
    requires !v.Null?
    ensures NullCount(FillNull(cells, v)) == 0
  {
    if cells != [] {
      FillLeavesNoNull(cells[1..], v);
      assert FillNull(cells, v)[1..] == FillNull(cells[1..], v);
    }
  }

  lemma FillWithNull(cells: seq<Cell>)
    ensures FillNull(cells, Null) == cells
  {
  }

  // ---- counting nulls -----------------------------------------------------

  /** Nulls in the first `n` columns. */
  function FrameNulls(f: Frame, n: nat): nat
    requires f.Valid() && n <= |f.fields|
  {
    if n == 0 then 0 else FrameNulls(f, n - 1) + NullCount(f.Column(n - 1))
  }

  lemma {:induction false} FrameNullsReplaced(g: Frame, h: Frame, j: nat, n: nat)
    requires g.Valid() && h.Valid() && |g.fields| == |h.fields| && j < |g.fields| && n <= |g.fields|
    requires forall k :: 0 <= k < |g.fields| && k != j ==> h.Column(k) == g.Column(k)
    ensures FrameNulls(g, n) - FrameNulls(h, n) == if j < n then NullCount(g.Column(j)) - NullCount(h.Column(j)) else 0
  {
    if n > 0 { FrameNullsReplaced(g, h, j, n - 1); }
  }

  /** Nulls that the report counts again: those of a filled column listed before. */
  function Recounted(f: Frame, cols: seq<string>, args: OpArgs): nat
    requires f.Valid()
  {
    if cols == [] then 0 else
      var n := |cols| - 1;
      Recounted(f, cols[..n], args) + if cols[n] in cols[..n] then Reported(f, cols[n], args) else 0
  }

  /** What one listing of a column adds to the report: its nulls, if it is filled. */
  function Reported(f: Frame, col: string, args: OpArgs): nat
    requires f.Valid()
  {
    var j := Find(f.fields, col);
    if j < |f.fields| && ColumnFill(f, j, args).Ok? && !ColumnFill(f, j, args).value.Null?
      then NullCount(f.Column(j)) else 0
  }

  /** The reported counts add up to the nulls that disappeared, plus those counted again. */
  lemma {:induction false} FillLoopCounts(f: Frame, cols: seq<string>, args: OpArgs)
    requires f.Valid() && FillLoop(f, cols, args).Ok?
    ensures var p, w := FillLoop(f, cols, args).value, |f.fields|;
            TotalFilled(p.done) == FrameNulls(f, w) - FrameNulls(p.frame, w) + Recounted(f, cols, args)
  {
    if cols != [] {
      var n := |cols| - 1;
      FillLoopCounts(f, cols[..n], args);
      FillStepCounts(f, cols, args);
    }
  }

  lemma FillStepCounts(f: Frame, cols: seq<string>, args: OpArgs)
    requires f.Valid() && cols != [] && FillLoop(f, cols, args).Ok?
    ensures var n, w := |cols| - 1, |f.fields|;
            var p, q := FillLoop(f, cols[..n], args).value, FillLoop(f, cols, args).value;
            TotalFilled(q.done) - TotalFilled(p.done)
            == FrameNulls(p.frame, w) - FrameNulls(q.frame, w)
              + if cols[n] in cols[..n] then Reported(f, cols[n], args) else 0
  {
    var n := |cols| - 1;
    var front, col := cols[..n], cols[n];
    var p, q := FillLoop(f, front, args).value, FillLoop(f, cols, args).value;
    FillLoopExactly(f, front, args);
    var j := Find(f.fields, col);
    if |q.done| > |p.done| {
      var v := ColumnFill(f, j, args).value;
      assert q.done[..|p.done|] == p.done;
      FilledColumn(f, front, args, p.frame, j);
      assert q.frame.Column(j) == FillNull(p.frame.Column(j), v);
      FillLeavesNoNull(p.frame.Column(j), v);
      FillLeavesNoNull(f.Column(j), v);
      assert forall k :: 0 <= k < |f.fields| && k != j ==> q.frame.Column(k) == p.frame.Column(k);
      FrameNullsReplaced(p.frame, q.frame, j, |f.fields|);
    }
  }

  /** No column that is filled is listed a second time. */
  ghost predicate ReportsOnce(f: Frame, cols: seq<string>, args: OpArgs)
    requires f.Valid()
  {
    forall b :: 0 <= b < |cols| && cols[b] in cols[..b] ==> Reported(f, cols[b], args) == 0
  }

  lemma {:induction false} NothingRecounted(f: Frame, cols: seq<string>, args: OpArgs)
    requires f.Valid()
    ensures Recounted(f, cols, args) == 0 <==> ReportsOnce(f, cols, args)
  {
    if cols != [] {
      var n := |cols| - 1;
      NothingRecounted(f, cols[..n], args);
      assert forall b :: 0 <= b < n ==> cols[..n][b] == cols[b] && cols[..n][..b] == cols[..b];
    }
  }

  // ---- default targets ----------------------------------------------------

  lemma {:induction false} ColumnsWithNullsAre(f: Frame, n: nat)
    requires f.Valid() && n <= |f.fields|
    ensures forall c :: c in ColumnsWithNulls(f, n) ==> exists j :: 0 <= j < n && f.fields[j].name == c
    ensures forall j :: 0 <= j < n ==> (f.fields[j].name in ColumnsWithNulls(f, n) <==> NullCount(f.Column(j)) > 0)
    ensures NoRepeats(ColumnsWithNulls(f, n))
  {
    if n > 0 {
      ColumnsWithNullsAre(f, n - 1);
      var front := ColumnsWithNulls(f, n - 1);
      assert f.fields[n - 1].name !in front;
    }
  }
}
