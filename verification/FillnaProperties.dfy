/** What filling and dropping promise about the data. */
module FillnaProperties {
  import opened Wrappers
  import opened Frames
  import opened Operations
  import opened Stats
  import opened Fillna

  // ---- filling keeps the statistic it fills with --------------------------

  lemma {:induction false} FilledHasNoNull(cells: seq<Cell>, v: Cell)
    requires !v.Null?
    ensures NonNull(FillNull(cells, v)) == FillNull(cells, v)
  {
    if cells != [] {
      FilledHasNoNull(cells[1..], v);
      assert FillNull(cells, v) == [FillNull(cells, v)[0]] + FillNull(cells[1..], v);
    }
  }

  lemma {:induction false} FillAddsNothingAside(cells: seq<Cell>, m: real)
    ensures CountBelow(Numbers(FillNull(cells, Num(m))), m) == CountBelow(Numbers(NonNull(cells)), m)
    ensures CountAbove(Numbers(FillNull(cells, Num(m))), m) == CountAbove(Numbers(NonNull(cells)), m)
  {
    if cells != [] {
      FillAddsNothingAside(cells[1..], m);
      assert Numbers(FillNull(cells, Num(m)))[1..] == Numbers(FillNull(cells[1..], Num(m)));
      if !cells[0].Null? {
        assert Numbers(NonNull(cells))[1..] == Numbers(NonNull(cells[1..]));
      }
    }
  }

  /** Filling with the median leaves the median where it was. */
  lemma MedianFillKeepsMedian(cells: seq<Cell>)
    requires NonNull(cells) != []
    ensures var m := Stats.Median(Numbers(NonNull(cells)));
            var filled := FillNull(cells, Num(m));
            NonNull(filled) == filled && filled != [] && Stats.Median(Numbers(filled)) == m
  {
    var m := Stats.Median(Numbers(NonNull(cells)));
    FilledHasNoNull(cells, Num(m));
    if NullCount(cells) == 0 {
      AllNonNull(cells);
      assert FillNull(cells, Num(m)) == cells;
    } else {
      FillAddsNothingAside(cells, m);
      MedianBalances(Numbers(NonNull(cells)));
      StrictBalanceIsMedian(Numbers(FillNull(cells, Num(m))), m);
    }
  }

  lemma {:induction false} AllNonNull(cells: seq<Cell>)
    requires NullCount(cells) == 0
    ensures NonNull(cells) == cells && forall i :: 0 <= i < |cells| ==> !cells[i].Null?
  {
    if cells != [] { AllNonNull(cells[1..]); }
  }

  /** A null filled with `m` is at no distance from it. */
  lemma {:induction false} FillAddsNoDistance(cells: seq<Cell>, m: real)
    ensures Sum(Distances(Numbers(FillNull(cells, Num(m))), m)) == Sum(Distances(Numbers(NonNull(cells)), m))
  {
    if cells != [] {
      FillAddsNoDistance(cells[1..], m);
      var filled := Numbers(FillNull(cells, Num(m)));
      assert filled[1..] == Numbers(FillNull(cells[1..], Num(m)));
      assert Distances(filled, m)[1..] == Distances(filled[1..], m);
      if !cells[0].Null? {
        var given := Numbers(NonNull(cells));
        assert given[1..] == Numbers(NonNull(cells[1..]));
        assert Distances(given, m)[1..] == Distances(given[1..], m);
      }
    }
  }

  /** Filling with the mean leaves the mean where it was. */
  lemma MeanFillKeepsMean(cells: seq<Cell>, m: real)
    requires IsMean(Numbers(NonNull(cells)), m)
    ensures var filled := FillNull(cells, Num(m)); NonNull(filled) == filled && IsMean(Numbers(filled), m)
  {
    FilledHasNoNull(cells, Num(m));
    FillAddsNoDistance(cells, m);
  }

  lemma {:induction false} FillCounts(cells: seq<Cell>, v: Cell, u: Cell)
    requires !v.Null? && !u.Null?
    ensures CountOf(FillNull(cells, v), u) == CountOf(NonNull(cells), u) + if u == v then NullCount(cells) else 0
  {
    if cells != [] {
      FillCounts(cells[1..], v, u);
      assert FillNull(cells, v)[1..] == FillNull(cells[1..], v);
    }
  }

  /** Whichever mode is used, filling at least one null with it makes it the strictly most frequent value. */
  lemma ModeFillIsStrictMode(cells: seq<Cell>, v: Cell, u: Cell)
    requires IsMode(NonNull(cells), v) && NullCount(cells) > 0 && u != v
    ensures CountOf(FillNull(cells, v), u) < CountOf(FillNull(cells, v), v)
  {
    NonNullHasNoNull(cells);
    var filled := FillNull(cells, v);
    if u.Null? {
      FilledHasNoNull(cells, v);
      NonNullHasNoNull(filled);
      CountOfMember(filled, u);
    } else {
      FillCounts(cells, v, u);
      CountOfMember(NonNull(cells), u);
    }
    FillCounts(cells, v, v);
  }

  lemma {:induction false} NonNullHasNoNull(cells: seq<Cell>)
    ensures Null !in NonNull(cells)
  {
    if cells != [] { NonNullHasNoNull(cells[1..]); }
  }

  /** By strategy: the median of a numeric column stays where it was, or its mean, or a most frequent value becomes
      strictly the most frequent. */
  ghost predicate KeepsStatistic(dtype: DType, strategy: Strategy, before: seq<Cell>, after: seq<Cell>) {
    && (dtype.Numeric? && (strategy.Median? || strategy.Auto?) ==>
          exists m :: IsMedian(Numbers(before), m) && IsMedian(Numbers(after), m))
    && (dtype.Numeric? && strategy.Mean? ==> exists m :: IsMean(Numbers(before), m) && IsMean(Numbers(after), m))
    && (strategy.Mode? || (!dtype.Numeric? && (strategy.Auto? || strategy.Median? || strategy.Mean?)) ==>
          exists v :: BecomesStrictMode(before, after, v))
  }

  ghost predicate BecomesStrictMode(before: seq<Cell>, after: seq<Cell>, v: Cell) {
    IsMode(before, v) && forall u :: u != v ==> CountOf(after, u) < CountOf(after, v)
  }

  lemma MedianKept(cells: seq<Cell>)
    requires NonNull(cells) != []
    ensures var m := Stats.Median(Numbers(NonNull(cells)));
            IsMedian(Numbers(NonNull(cells)), m) && IsMedian(Numbers(FillNull(cells, Num(m))), m)
  {
    var m := Stats.Median(Numbers(NonNull(cells)));
    MedianFillKeepsMedian(cells);
    MedianIsMiddle(Numbers(NonNull(cells)));
    MedianIsMiddle(Numbers(FillNull(cells, Num(m))));
  }

  lemma ModeKept(cells: seq<Cell>)
    requires NonNull(cells) != [] && NullCount(cells) > 0
    ensures var v := FirstMode(NonNull(cells)); BecomesStrictMode(NonNull(cells), FillNull(cells, v), v)
  {
    var v := FirstMode(NonNull(cells));
    forall u | u != v ensures CountOf(FillNull(cells, v), u) < CountOf(FillNull(cells, v), v) {
      ModeFillIsStrictMode(cells, v, u);
    }
  }

  lemma MeanKept(cells: seq<Cell>)
    requires NonNull(cells) != []
    ensures var m := Stats.Mean(Numbers(NonNull(cells)));
            IsMean(Numbers(NonNull(cells)), m) && IsMean(Numbers(FillNull(cells, Num(m))), m)
  {
    var m := Stats.Mean(Numbers(NonNull(cells)));
    MeanBalances(Numbers(NonNull(cells)), m);
    MeanFillKeepsMean(cells, m);
  }

  /** The column-level laws hold for the columns of the frame `fillna` returns. */
  lemma FillnaKeepsStatistic(f: Frame, args: OpArgs, j: nat)
    requires f.Valid() && Apply(f, args).Ok? && j < |f.fields|
          && f.fields[j].name in TargetColumns(f, args.columns).value
    requires args.strategy != DropRow && NonNull(f.Column(j)) != [] && NullCount(f.Column(j)) > 0
    ensures var g := Apply(f, args).value.frame.value;
            KeepsStatistic(f.fields[j].dtype, args.strategy, NonNull(f.Column(j)), g.Column(j))
  {
    var cols := TargetColumns(f, args.columns).value;
    var g, cells := FillLoop(f, cols, args).value.frame, f.Column(j);
    FillLoopExactly(f, cols, args);
    FilledColumn(f, cols, args, g, j);
    MedianKept(cells);
    MeanKept(cells);
    ModeKept(cells);
  }

  // ---- what the fill path leaves alone ------------------------------------

  /** No column is added, no row lost, no value overwritten, nothing outside the targets touched;
      no null is left where a fill value exists; and the total is what disappeared exactly when no column that
      is filled was listed twice. */
  lemma FillnaFills(f: Frame, args: OpArgs)
    requires f.Valid() && Apply(f, args).Ok? && args.strategy != DropRow
    ensures var cols, g, w := TargetColumns(f, args.columns).value, Apply(f, args).value.frame.value, |f.fields|;
            && g.Valid() && g.fields == f.fields && |g.rows| == |f.rows|
            && (forall i, j :: 0 <= i < |f.rows| && 0 <= j < w && (!f.rows[i][j].Null? || f.fields[j].name !in cols) ==>
                  g.rows[i][j] == f.rows[i][j])
            && (forall j :: 0 <= j < w && f.fields[j].name in cols && ColumnFill(f, j, args) != Ok(Null) ==>
                  NullCount(g.Column(j)) == 0)
            && Apply(f, args).value.summary.totalFilled >= FrameNulls(f, w) - FrameNulls(g, w)
            && (Apply(f, args).value.summary.totalFilled == FrameNulls(f, w) - FrameNulls(g, w) <==>
                  ReportsOnce(f, cols, args))
  {
    var cols := TargetColumns(f, args.columns).value;
    FillLoopExactly(f, cols, args);
    FillLoopCounts(f, cols, args);
    NothingRecounted(f, cols, args);
    var g := FillLoop(f, cols, args).value.frame;
    forall i, j | 0 <= i < |f.rows| && 0 <= j < |f.fields| ensures g.rows[i][j] == FilledCell(f, cols, args, i, j) {}
    forall j | 0 <= j < |f.fields| && f.fields[j].name in cols && ColumnFill(f, j, args) != Ok(Null)
      ensures NullCount(g.Column(j)) == 0
    {
      FilledColumn(f, cols, args, g, j);
      FillLeavesNoNull(f.Column(j), ColumnFill(f, j, args).value);
    }
  }

  /** A column that still has nulls was left alone, and would be left alone again. */
  lemma StillNull(f: Frame, cols: seq<string>, args: OpArgs, g: Frame, j: nat)
    requires f.Valid() && FillsExactly(f, cols, args, g) && j < |f.fields| && f.fields[j].name in cols
    ensures ColumnFill(g, j, args) == Ok(Null)
  {
    FilledColumn(f, cols, args, g, j);
    var v := ColumnFill(f, j, args).value;
    if v.Null? {
      FillWithNull(f.Column(j));
    } else {
      FillLeavesNoNull(f.Column(j), v);
    }
  }

  lemma {:induction false} NothingToFill(g: Frame, cols: seq<string>, args: OpArgs)
    requires g.Valid()
    requires forall k :: 0 <= k < |cols| ==> Has(g, cols[k]) && ColumnFill(g, Find(g.fields, cols[k]), args) == Ok(Null)
    ensures FillLoop(g, cols, args) == Ok(Progress(g, []))
  {
    if cols != [] { NothingToFill(g, cols[..|cols| - 1], args); }
  }

  /** What is a target after filling was a target before. */
  lemma TargetsStay(f: Frame, args: OpArgs, g: Frame, c: string)
    requires f.Valid() && TargetColumns(f, args.columns).Ok?
    requires FillsExactly(f, TargetColumns(f, args.columns).value, args, g)
    requires TargetColumns(g, args.columns).Ok? && c in TargetColumns(g, args.columns).value
    ensures Has(g, c) && c in TargetColumns(f, args.columns).value
  {
    FindMisses(g.fields, c);
    if args.columns.Absent? {
      ColumnsWithNullsAre(f, |f.fields|);
      ColumnsWithNullsAre(g, |g.fields|);
      FilledColumn(f, TargetColumns(f, args.columns).value, args, g, Find(g.fields, c));
    }
  }

  lemma AgainNothingToFill(f: Frame, args: OpArgs, g: Frame, c: string)
    requires f.Valid() && TargetColumns(f, args.columns).Ok?
    requires FillsExactly(f, TargetColumns(f, args.columns).value, args, g)
    requires TargetColumns(g, args.columns).Ok? && c in TargetColumns(g, args.columns).value
    ensures Has(g, c) && ColumnFill(g, Find(g.fields, c), args) == Ok(Null)
  {
    TargetsStay(f, args, g, c);
    StillNull(f, TargetColumns(f, args.columns).value, args, g, Find(g.fields, c));
  }

  /** Filling twice is filling once, whether the columns are listed or detected. */
  lemma FillnaIdempotent(f: Frame, args: OpArgs)
    requires f.Valid() && Apply(f, args).Ok? && args.strategy != DropRow
    ensures var g := Apply(f, args).value.frame.value;
            && g.Valid() && Apply(g, args).Ok?
            && Apply(g, args).value == OperationResult(Some(g), FillSummary([], 0, g.Height(), g.Height()))
  {
    var cols := TargetColumns(f, args.columns).value;
    if cols != [] {
      FillLoopExactly(f, cols, args);
      var g := FillLoop(f, cols, args).value.frame;
      var again := TargetColumns(g, args.columns).value;
      forall k | 0 <= k < |again|
        ensures Has(g, again[k]) && ColumnFill(g, Find(g.fields, again[k]), args) == Ok(Null)
      {
        AgainNothingToFill(f, args, g, again[k]);
      }
      NothingToFill(g, again, args);
    }
  }

  // ---- the drop path ------------------------------------------------------

  lemma RoundIsNearest(x: real)
    ensures var d := Round(x) as real - x; -0.5 <= d <= 0.5
    ensures (Round(x) as real - x == 0.5 || Round(x) as real - x == -0.5) ==> Round(x) % 2 == 0
  {
  }

  /** These positions, in order, are those of the rows that pass; `result` holds their rows. */
  ghost predicate Passing(kept: seq<nat>, rows: seq<Row>, keep: Row -> bool, result: seq<Row>) {
    && |kept| == |result| <= |rows|
    && (forall a, b :: 0 <= a < b < |kept| ==> kept[a] < kept[b])
    && (forall a :: 0 <= a < |kept| ==> kept[a] < |rows| && result[a] == rows[kept[a]])
    && (forall i :: 0 <= i < |rows| ==> (i in kept <==> keep(rows[i])))
  }

  /** Filtering keeps exactly the rows that pass, in their order. */
  lemma {:induction false} FilterKeeps(rows: seq<Row>, keep: Row -> bool) returns (kept: seq<nat>)
    ensures Passing(kept, rows, keep, FilterRows(rows, keep))
  {
    if rows == [] {
      kept := [];
    } else {
      var n := |rows| - 1;
      kept := FilterKeeps(rows[..n], keep);
      assert rows[..n] + [rows[n]] == rows;
      OneMoreRow(kept, rows[..n], keep, FilterRows(rows[..n], keep), rows[n]);
      if keep(rows[n]) { kept := kept + [n]; }
    }
  }

  lemma OneMoreRow(kept: seq<nat>, rows: seq<Row>, keep: Row -> bool, result: seq<Row>, row: Row)
    requires Passing(kept, rows, keep, result)
    ensures if keep(row) then Passing(kept + [|rows|], rows + [row], keep, result + [row])
            else Passing(kept, rows + [row], keep, result)
  {
  }

  lemma DropShape(f: Frame, args: OpArgs)
    requires f.Valid() && Apply(f, args).Ok? && args.strategy == DropRow
    ensures var g := Apply(f, args).value.frame.value;
            g.Valid() && g.fields == f.fields && |g.rows| <= |f.rows|
  {
    var cols := TargetColumns(f, args.columns).value;
    if cols != [] {
      var kept := FilterKeeps(f.rows, Dense(Indices(f, cols), DropThreshold(args.minPctToDrop, |cols|)));
    }
  }

  lemma ApplyReturnsFrame(f: Frame, args: OpArgs)
    requires f.Valid() && Apply(f, args).Ok?
    ensures Apply(f, args).value.frame.Some? && Apply(f, args).value.frame.value.Valid()
  {
    if args.strategy == DropRow { DropShape(f, args); }
  }

  lemma {:induction false} FilterTwice(rows: seq<Row>, keep: Row -> bool)
    ensures FilterRows(FilterRows(rows, keep), keep) == FilterRows(rows, keep)
  {
    if rows != [] {
      var n := |rows| - 1;
      FilterTwice(rows[..n], keep);
      var kept := FilterRows(rows[..n], keep);
      if keep(rows[n]) {
        assert (kept + [rows[n]])[..|kept|] == kept;
      } else {
        assert FilterRows(rows, keep) == kept;
      }
    }
  }

  /** With the columns listed, dropping twice drops nothing more. */
  lemma ListedDropIdempotent(f: Frame, args: OpArgs)
    requires f.Valid() && Apply(f, args).Ok? && args.strategy == DropRow && args.columns.Listed?
    ensures var g := Apply(f, args).value.frame.value;
            g.Valid() && Apply(g, args).Ok? && Apply(g, args).value.frame == Some(g)
  {
    DropShape(f, args);
    var cols := args.columns.items;
    FilterTwice(f.rows, Dense(Indices(f, cols), DropThreshold(args.minPctToDrop, |cols|)));
  }

  lemma {:induction false} FilterKeepsAllIff(rows: seq<Row>, keep: Row -> bool)
    ensures |FilterRows(rows, keep)| <= |rows|
    ensures FilterRows(rows, keep) == rows <==> forall i :: 0 <= i < |rows| ==> keep(rows[i])
  {
    if rows != [] {
      var n := |rows| - 1;
      FilterKeepsAllIff(rows[..n], keep);
      assert rows == rows[..n] + [rows[n]];
      assert forall i :: 0 <= i < n ==> rows[..n][i] == rows[i];
    }
  }

  // ---- dropping twice, with the columns detected --------------------------

  predicate NullCell(row: Row, j: int) { 0 <= j < |row| && row[j].Null? }

  /** The null cells among the first `w` of a row, by position. */
  ghost function NullCells(row: Row, w: nat): set<int> { set j: int | 0 <= j < w && NullCell(row, j) }

  /** Fewer nulls than the limit. */
  ghost predicate Under(row: Row, limit: int) { |NullCells(row, |row|)| < limit }

  ghost predicate HasNull(rows: seq<Row>, j: int) { exists i :: 0 <= i < |rows| && NullCell(rows[i], j) }

  /** The columns with a null, among the first `w`. */
  ghost function NullColumns(rows: seq<Row>, w: nat): set<int> { set j: int | 0 <= j < w && HasNull(rows, j) }

  /** Some row under the limit is null in column `j`. */
  ghost predicate NullUnder(rows: seq<Row>, limit: int, j: int) {
    exists i :: 0 <= i < |rows| && Under(rows[i], limit) && NullCell(rows[i], j)
  }

  /** The columns that are null in some row under the limit. */
  ghost function NullColumnsUnder(rows: seq<Row>, limit: int, w: nat): set<int> {
    set j: int | 0 <= j < w && NullUnder(rows, limit, j)
  }

  lemma {:induction false} NullCountPositive(cells: seq<Cell>)
    ensures NullCount(cells) > 0 <==> exists i :: 0 <= i < |cells| && cells[i].Null?
  {
    if cells != [] {
      NullCountPositive(cells[1..]);
      assert forall i :: 0 < i < |cells| ==> cells[i] == cells[1..][i - 1];
    }
  }

  lemma ColumnHasNull(f: Frame, j: nat)
    requires f.Valid() && j < |f.fields|
    ensures NullCount(f.Column(j)) > 0 <==> HasNull(f.rows, j)
  {
    NullCountPositive(f.Column(j));
    assert forall i :: 0 <= i < |f.rows| ==> f.Column(j)[i] == f.rows[i][j];
  }

  lemma OneMoreColumn(rows: seq<Row>, w: nat)
    ensures |NullColumns(rows, w + 1)| == |NullColumns(rows, w)| + if HasNull(rows, w) then 1 else 0
  {
    assert NullColumns(rows, w + 1) == NullColumns(rows, w) + if HasNull(rows, w) then {w} else {};
  }

  /** The detected columns are as many as the columns with a null. */
  lemma {:induction false} DetectedCount(f: Frame, w: nat)
    requires f.Valid() && w <= |f.fields|
    ensures |ColumnsWithNulls(f, w)| == |NullColumns(f.rows, w)|
  {
    if w == 0 {
      assert NullColumns(f.rows, 0) == {};
    } else {
      DetectedCount(f, w - 1);
      OneMoreColumn(f.rows, w - 1);
      ColumnHasNull(f, w - 1);
    }
  }

  lemma OneMoreCell(row: Row, w: nat)
    ensures |NullCells(row, w + 1)| == |NullCells(row, w)| + if NullCell(row, w) then 1 else 0
  {
    assert NullCells(row, w + 1) == NullCells(row, w) + if NullCell(row, w) then {w} else {};
  }

  lemma DetectedOneMore(f: Frame, w: nat)
    requires f.Valid() && w < |f.fields|
    ensures var front := ColumnsWithNulls(f, w);
            Indices(f, ColumnsWithNulls(f, w + 1))
            == if NullCount(f.Column(w)) > 0 then Indices(f, front) + [w] else Indices(f, front)
  {
    var front := ColumnsWithNulls(f, w);
    FindFinds(f.fields, w);
    if NullCount(f.Column(w)) > 0 {
      assert Indices(f, front + [f.fields[w].name]) == Indices(f, front) + [w];
    } else {
      assert ColumnsWithNulls(f, w + 1) == front;
    }
  }

  lemma DetectedNullsStep(f: Frame, i: nat, w: nat)
    requires f.Valid() && i < |f.rows| && w < |f.fields|
    ensures RowNulls(f.rows[i], Indices(f, ColumnsWithNulls(f, w + 1)))
         == RowNulls(f.rows[i], Indices(f, ColumnsWithNulls(f, w))) + if NullCell(f.rows[i], w) then 1 else 0
  {
    ColumnHasNull(f, w);
    DetectedOneMore(f, w);
    OneMoreNull(f.rows[i], Indices(f, ColumnsWithNulls(f, w)), w);
  }

  /** The nulls of a row of the frame are all in detected columns. */
  lemma {:induction false} DetectedNulls(f: Frame, i: nat, w: nat)
    requires f.Valid() && i < |f.rows| && w <= |f.fields|
    ensures RowNulls(f.rows[i], Indices(f, ColumnsWithNulls(f, w))) == |NullCells(f.rows[i], w)|
  {
    if w == 0 {
      assert NullCells(f.rows[i], 0) == {};
    } else {
      DetectedNulls(f, i, w - 1);
      OneMoreCell(f.rows[i], w - 1);
      DetectedNullsStep(f, i, w - 1);
    }
  }

  lemma OneMoreNull(row: Row, idx: seq<nat>, j: nat)
    ensures RowNulls(row, idx + [j]) == RowNulls(row, idx) + if j < |row| && row[j].Null? then 1 else 0
  {
    assert (idx + [j])[..|idx|] == idx;
  }

  /** What a detected drop does to the rows of a frame: none goes if no column has a null, else those not under the
      limit. */
  lemma DetectedDrop(f: Frame, args: OpArgs) returns (kept: seq<nat>)
    requires f.Valid() && args.columns.Absent? && args.strategy == DropRow
    ensures Apply(f, args).Ok? && Apply(f, args).value.frame.Some?
         && Apply(f, args).value.frame.value.fields == f.fields
    ensures var limit := DropThreshold(args.minPctToDrop, |NullColumns(f.rows, |f.fields|)|);
            KeptUnder(kept, f.rows, limit, Apply(f, args).value.frame.value.rows)
  {
    var cols := ColumnsWithNulls(f, |f.fields|);
    var limit := DropThreshold(args.minPctToDrop, |cols|);
    DetectedCount(f, |f.fields|);
    forall i | 0 <= i < |f.rows| ensures Dense(Indices(f, cols), limit)(f.rows[i]) <==> Under(f.rows[i], limit) {
      DetectedNulls(f, i, |f.fields|);
    }
    if cols == [] {
      kept := seq(|f.rows|, i => i);
    } else {
      kept := FilterKeeps(f.rows, Dense(Indices(f, cols), limit));
    }
  }

  /** These positions, in order, are those of the rows under the limit; `result` holds their rows. */
  ghost predicate KeptUnder(kept: seq<nat>, rows: seq<Row>, limit: int, result: seq<Row>) {
    && |kept| == |result| <= |rows|
    && (forall a :: 0 <= a < |kept| ==> kept[a] < |rows| && result[a] == rows[kept[a]])
    && (forall i :: 0 <= i < |rows| ==> (i in kept <==> Under(rows[i], limit)))
  }

  lemma NullsLeft(kept: seq<nat>, rows: seq<Row>, limit: int, result: seq<Row>, w: nat)
    requires KeptUnder(kept, rows, limit, result)
    ensures NullColumns(result, w) == NullColumnsUnder(rows, limit, w)
  {
    forall j | 0 <= j < w ensures HasNull(result, j) <==> NullUnder(rows, limit, j) {
      if a :| 0 <= a < |result| && NullCell(result[a], j) {
        assert kept[a] in kept && NullCell(rows[kept[a]], j);
      }
      if i :| 0 <= i < |rows| && Under(rows[i], limit) && NullCell(rows[i], j) {
        var a :| 0 <= a < |kept| && kept[a] == i;
        assert NullCell(result[a], j);
      }
    }
  }

  lemma AllLeftUnder(kept: seq<nat>, rows: seq<Row>, limit: int, result: seq<Row>, again: int)
    requires KeptUnder(kept, rows, limit, result)
    ensures (forall a :: 0 <= a < |result| ==> Under(result[a], again))
       <==> (forall i :: 0 <= i < |rows| && Under(rows[i], limit) ==> Under(rows[i], again))
  {
    if forall a :: 0 <= a < |result| ==> Under(result[a], again) {
      forall i | 0 <= i < |rows| && Under(rows[i], limit) ensures Under(rows[i], again) {
        var a :| 0 <= a < |kept| && kept[a] == i;
        assert Under(result[a], again);
      }
    } else {
      var a :| 0 <= a < |result| && !Under(result[a], again);
      assert kept[a] in kept;
    }
  }

  /** A detected drop changes nothing exactly when every row is under the limit. */
  lemma DetectedKeepsAllIff(f: Frame, args: OpArgs)
    requires f.Valid() && args.columns.Absent? && args.strategy == DropRow
    ensures Apply(f, args).Ok?
    ensures var limit := DropThreshold(args.minPctToDrop, |NullColumns(f.rows, |f.fields|)|);
            Apply(f, args).value.frame == Some(f) <==> forall i :: 0 <= i < |f.rows| ==> Under(f.rows[i], limit)
  {
    var cols := ColumnsWithNulls(f, |f.fields|);
    var keep := Dense(Indices(f, cols), DropThreshold(args.minPctToDrop, |cols|));
    DetectedCount(f, |f.fields|);
    forall i | 0 <= i < |f.rows| ensures RowNulls(f.rows[i], Indices(f, cols)) == |NullCells(f.rows[i], |f.rows[i]|)| {
      DetectedNulls(f, i, |f.fields|);
    }
    if cols != [] { FilterKeepsAllIff(f.rows, keep); }
  }

  /** With the columns detected, a second drop changes nothing exactly when every row that the first leaves (those under
      the limit for the columns with a null) is under the limit for the columns that are null in such a row. */
  lemma DetectedDropIdempotentIff(f: Frame, args: OpArgs)
    requires f.Valid() && args.columns.Absent? && args.strategy == DropRow
    ensures Apply(f, args).Ok? && Apply(f, args).value.frame.Some?
    ensures var g, w := Apply(f, args).value.frame.value, |f.fields|;
            var limit := DropThreshold(args.minPctToDrop, |NullColumns(f.rows, w)|);
            var again := DropThreshold(args.minPctToDrop, |NullColumnsUnder(f.rows, limit, w)|);
            && g.Valid() && Apply(g, args).Ok?
            && (Apply(g, args).value.frame == Some(g) <==>
                  forall i :: 0 <= i < |f.rows| && Under(f.rows[i], limit) ==> Under(f.rows[i], again))
  {
    var w := |f.fields|;
    var limit := DropThreshold(args.minPctToDrop, |NullColumns(f.rows, w)|);
    var kept := DetectedDrop(f, args);
    var g := Apply(f, args).value.frame.value;
    DropShape(f, args);
    NullsLeft(kept, f.rows, limit, g.rows, w);
    AllLeftUnder(kept, f.rows, limit, g.rows, DropThreshold(args.minPctToDrop, |NullColumnsUnder(f.rows, limit, w)|));
    DetectedKeepsAllIff(g, args);
  }

  /** Two columns, both null in the first row and one in the second. */
  const RAGGED: Frame := Frame([Field("a", Numeric), Field("b", Numeric)], [[Null, Null], [Null, Num(0.0)]])

  const ONE_LEFT: Frame := Frame([Field("a", Numeric), Field("b", Numeric)], [[Null, Num(0.0)]])

  lemma RaggedTargets()
    ensures RAGGED.Valid() && ColumnsWithNulls(RAGGED, 2) == ["a", "b"] && Indices(RAGGED, ["a", "b"]) == [0, 1]
  {
    assert RAGGED.Column(0) == [Null, Null] && RAGGED.Column(1) == [Null, Num(0.0)];
    assert ["a"] + ["b"] == ["a", "b"];
    assert "a" != "b";
  }

  lemma OneLeftTargets()
    ensures ONE_LEFT.Valid() && ColumnsWithNulls(ONE_LEFT, 2) == ["a"] && Indices(ONE_LEFT, ["a"]) == [0]
  {
    assert ONE_LEFT.Column(0) == [Null] && ONE_LEFT.Column(1) == [Num(0.0)];
    assert "a" != "b";
  }

  /** With the columns detected, the limit of the first drop is for two columns and that of the second for one:
      the second drop takes a row that the first left. */
  lemma DetectedDropRepeats(args: OpArgs)
    requires args.columns.Absent? && args.strategy == DropRow && args.minPctToDrop == 0.75
    ensures RAGGED.Valid() && Apply(RAGGED, args).Ok? && Apply(RAGGED, args).value.frame == Some(ONE_LEFT)
    ensures ONE_LEFT.Valid() && Apply(ONE_LEFT, args).Ok? && Apply(ONE_LEFT, args).value.frame.value.rows == []
  {
    RaggedTargets();
    OneLeftTargets();
    assert DropThreshold(0.75, 2) == 2 by { assert (1.5).Floor == 1; }
    assert DropThreshold(0.75, 1) == 1 by { assert (0.75).Floor == 0; }
    RaggedRows();
  }

  lemma RaggedRows()
    ensures FilterRows(RAGGED.rows, Dense([0, 1], 2)) == ONE_LEFT.rows
    ensures FilterRows(ONE_LEFT.rows, Dense([0], 1)) == []
  {
    assert [0, 1][..1] == [0] && [0][..0] == [];
    assert RAGGED.rows[..1] == [[Null, Null]] && RAGGED.rows[..1][..0] == [] && ONE_LEFT.rows[..0] == [];
    assert RowNulls([Null, Null], [0, 1]) == 2 && RowNulls([Null, Num(0.0)], [0, 1]) == 1;
    assert RowNulls([Null, Num(0.0)], [0]) == 1;
  }

  // ---- which rows are dropped ---------------------------------------------

  predicate NullAt(f: Frame, row: Row, col: string) {
    var j := Find(f.fields, col);
    j < |row| && row[j].Null?
  }

  /** The listed columns that are null in a row, by position in the list. */
  ghost function NullPositions(f: Frame, row: Row, cols: seq<string>): set<nat> {
    set k: nat | k < |cols| && NullAt(f, row, cols[k])
  }

  lemma {:induction false} RowNullsAreNulls(f: Frame, row: Row, cols: seq<string>)
    ensures RowNulls(row, Indices(f, cols)) == |NullPositions(f, row, cols)|
  {
    if cols == [] {
      assert NullPositions(f, row, cols) == {};
    } else {
      var n := |cols| - 1;
      RowNullsAreNulls(f, row, cols[..n]);
      assert Indices(f, cols)[..n] == Indices(f, cols[..n]);
      LastPosition(f, row, cols);
    }
  }

  lemma LastPosition(f: Frame, row: Row, cols: seq<string>)
    requires cols != []
    ensures var n := |cols| - 1;
            |NullPositions(f, row, cols)|
              == |NullPositions(f, row, cols[..n])| + if NullAt(f, row, cols[n]) then 1 else 0
  {
    var n := |cols| - 1;
    assert NullPositions(f, row, cols)
        == NullPositions(f, row, cols[..n]) + if NullAt(f, row, cols[n]) then {n} else {};
  }

  /** The rows missing from the result are exactly those with as many listed nulls as the rounded limit. */
  lemma DroppedRowsAre(f: Frame, args: OpArgs, i: nat)
    requires f.Valid() && Apply(f, args).Ok? && args.strategy == DropRow && i < |f.rows|
    ensures var cols := TargetColumns(f, args.columns).value;
            f.rows[i] !in Apply(f, args).value.frame.value.rows
            <==> cols != [] && |NullPositions(f, f.rows[i], cols)| >= DropThreshold(args.minPctToDrop, |cols|)
  {
    var cols := TargetColumns(f, args.columns).value;
    if cols != [] {
      var keep := Dense(Indices(f, cols), DropThreshold(args.minPctToDrop, |cols|));
      var kept := FilterKeeps(f.rows, keep);
      RowNullsAreNulls(f, f.rows[i], cols);
      var rows := FilterRows(f.rows, keep);
      if keep(f.rows[i]) {
        var a :| 0 <= a < |kept| && kept[a] == i;
        assert rows[a] == f.rows[i];
      }
    }
  }

  /** The documented rule: a row goes only when at least the given fraction of its listed columns is null. */
  ghost predicate DropsOnlySparse(f: Frame, args: OpArgs)
    requires f.Valid() && Apply(f, args).Ok?
  {
    var cols := TargetColumns(f, args.columns).value;
    forall i :: 0 <= i < |f.rows| && f.rows[i] !in Apply(f, args).value.frame.value.rows ==>
      AtLeast(|NullPositions(f, f.rows[i], cols)|, args.minPctToDrop, |cols|)
  }

  /** At least this fraction of `n` columns. */
  predicate AtLeast(nulls: nat, minPct: real, n: nat) { nulls as real >= minPct * n as real }

  /** A drop over `n` columns at this fraction. */
  ghost predicate IsDrop(f: Frame, args: OpArgs, minPct: real, n: nat) {
    && f.Valid() && args.strategy == DropRow && args.minPctToDrop == minPct
    && Apply(f, args).Ok? && |TargetColumns(f, args.columns).value| == n
  }

  /** Rounding does not lower the limit, or nothing reaches it. */
  predicate LimitNotLowered(minPct: real, n: nat) {
    var x := minPct * n as real;
    var part := x - x.Floor as real;
    || n == 0 || x <= 1.0 || x.Floor > n
    || part == 0.0 || part > 0.5 || (part == 0.5 && x.Floor % 2 == 1)
  }

  /** The rule holds of every frame exactly when rounding does not lower the limit. */
  lemma DropRuleHoldsIff(minPct: real, n: nat)
    ensures (forall f: Frame, args: OpArgs :: IsDrop(f, args, minPct, n) ==> DropsOnlySparse(f, args))
       <==> LimitNotLowered(minPct, n)
  {
    if LimitNotLowered(minPct, n) {
      forall f: Frame, args: OpArgs | IsDrop(f, args, minPct, n) ensures DropsOnlySparse(f, args) {
        SparseWhenFair(f, args);
      }
    } else {
      RuleBroken(minPct, n);
    }
  }

  lemma RuleBroken(minPct: real, n: nat)
    requires !LimitNotLowered(minPct, n)
    ensures exists f: Frame, args: OpArgs :: IsDrop(f, args, minPct, n) && !DropsOnlySparse(f, args)
  {
    var x := minPct * n as real;
    LoweredLimit(minPct, n);
    var f, args := SparseFrame(n, x.Floor), DropArgs(n, minPct);
    SparseFrameDrops(n, x.Floor, minPct);
    assert IsDrop(f, args, minPct, n);
    assert !DropsOnlySparse(f, args) by {
      assert !AtLeast(|NullPositions(f, f.rows[0], AllLetters(n))|, minPct, n);
    }
  }

  lemma SparseWhenFair(f: Frame, args: OpArgs)
    requires f.Valid() && Apply(f, args).Ok? && args.strategy == DropRow
    requires LimitNotLowered(args.minPctToDrop, |TargetColumns(f, args.columns).value|)
    ensures DropsOnlySparse(f, args)
  {
    var cols := TargetColumns(f, args.columns).value;
    forall i | 0 <= i < |f.rows| && f.rows[i] !in Apply(f, args).value.frame.value.rows
      ensures AtLeast(|NullPositions(f, f.rows[i], cols)|, args.minPctToDrop, |cols|)
    {
      DroppedRowsAre(f, args, i);
      NullsAreFew(f, f.rows[i], cols);
      FairLimit(args.minPctToDrop, |cols|, |NullPositions(f, f.rows[i], cols)|);
    }
  }

  lemma NullsAreFew(f: Frame, row: Row, cols: seq<string>)
    ensures |NullPositions(f, row, cols)| <= |cols|
  {
    AtMost(NullPositions(f, row, cols), |cols|);
  }

  lemma {:induction false} AtMost(s: set<nat>, n: nat)
    requires forall k :: k in s ==> k < n
    ensures |s| <= n
  {
    if n == 0 {
      assert s == {};
    } else {
      AtMost(s - {n - 1}, n - 1);
    }
  }

  lemma FairLimit(minPct: real, n: nat, nulls: nat)
    requires LimitNotLowered(minPct, n) && DropThreshold(minPct, n) <= nulls <= n
    ensures AtLeast(nulls, minPct, n)
  {
  }

  lemma LoweredLimit(minPct: real, n: nat)
    requires !LimitNotLowered(minPct, n)
    ensures var x := minPct * n as real;
            DropThreshold(minPct, n) == x.Floor && 1 <= x.Floor <= n && (x.Floor as real) < x
  {
  }

  /** `n` columns, and one row that is null in the first `nulls` of them. */
  function SparseFrame(n: nat, nulls: nat): Frame {
    Frame(seq(n, j requires 0 <= j < n => Field(Letters(j), Numeric)),
          [seq(n, j requires 0 <= j < n => if j < nulls then Null else Num(0.0))])
  }

  function Letters(j: nat): (s: string)
    ensures |s| == j
  {
    seq(j, _ => 'c')
  }

  function AllLetters(n: nat): seq<string> { seq(n, j requires 0 <= j < n => Letters(j)) }

  function DropArgs(n: nat, minPct: real): OpArgs {
    OpArgs(Listed(AllLetters(n)), None, "first", false, DropRow, Null, minPct, "title", true, true, "auto", Absent)
  }

  function Below(n: nat): (s: set<nat>)
    ensures |s| == n && forall k: nat :: k in s <==> k < n
  {
    if n == 0 then {} else Below(n - 1) + {n - 1}
  }

  /** At this fraction the row of the sparse frame is dropped, though it has fewer nulls. */
  lemma SparseFrameDrops(n: nat, nulls: nat, minPct: real)
    requires 1 <= nulls <= n && DropThreshold(minPct, n) == nulls
    ensures var f, args := SparseFrame(n, nulls), DropArgs(n, minPct);
            && f.Valid() && Apply(f, args).Ok? && TargetColumns(f, args.columns).value == AllLetters(n)
            && |NullPositions(f, f.rows[0], AllLetters(n))| == nulls
            && f.rows[0] !in Apply(f, args).value.frame.value.rows
  {
    SparseFrameFinds(n, nulls);
    SparseNulls(n, nulls);
    DroppedRowsAre(SparseFrame(n, nulls), DropArgs(n, minPct), 0);
  }

  lemma SparseFrameFinds(n: nat, nulls: nat)
    ensures var f := SparseFrame(n, nulls);
            f.Valid() && forall k :: 0 <= k < n ==> Find(f.fields, AllLetters(n)[k]) == k
  {
    var f := SparseFrame(n, nulls);
    forall a, b | 0 <= a < b < n ensures f.fields[a].name != f.fields[b].name { assert |Letters(a)| != |Letters(b)|; }
    forall k | 0 <= k < n ensures Find(f.fields, AllLetters(n)[k]) == k { FindFinds(f.fields, k); }
  }

  lemma SparseNulls(n: nat, nulls: nat)
    requires nulls <= n
    ensures |NullPositions(SparseFrame(n, nulls), SparseFrame(n, nulls).rows[0], AllLetters(n))| == nulls
  {
    var f := SparseFrame(n, nulls);
    SparseFrameFinds(n, nulls);
    assert forall k :: 0 <= k < n ==> (f.rows[0][k].Null? <==> k < nulls);
    assert NullPositions(f, f.rows[0], AllLetters(n)) == Below(nulls);
  }

  /** Half of five columns rounds down to two: a row with two nulls of five is dropped at fraction one half. */
  lemma DropRuleFails()
    ensures var f, args := SparseFrame(5, 2), DropArgs(5, 0.5);
            && IsDrop(f, args, 0.5, 5) && |NullPositions(f, f.rows[0], AllLetters(5))| == 2
            && f.rows[0] !in Apply(f, args).value.frame.value.rows
            && !DropsOnlySparse(f, args)
  {
    assert (2.5).Floor == 2;
    SparseFrameDrops(5, 2, 0.5);
  }

  /** Filling fails only for a strategy that does not exist. */
  lemma {:induction false} LoopFailsOnStrategy(f: Frame, cols: seq<string>, args: OpArgs)
    requires f.Valid()
    ensures FillLoop(f, cols, args).Err? ==>
              FillLoop(f, cols, args).error == UnknownStrategy && (args.strategy.Unknown? || args.strategy.DropRow?)
  {
    if cols != [] { LoopFailsOnStrategy(f, cols[..|cols| - 1], args); }
  }

  lemma ApplyKnowsItself(f: Frame, args: OpArgs)
    requires f.Valid()
    ensures Apply(f, args) != Err(UnknownOperation)
  {
    if TargetColumns(f, args.columns).Ok? { LoopFailsOnStrategy(f, TargetColumns(f, args.columns).value, args); }
  }
}
