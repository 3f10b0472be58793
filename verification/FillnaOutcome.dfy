/** What `fillna` returns, strategy by strategy, said of the cells given and nothing else. */
module FillnaOutcome {
  import opened Wrappers
  import opened Frames
  import opened Operations
  import opened DedupeOutcome
  import Fillna
  import P = FillnaProperties
  import Stats

  // ---- the statistics -----------------------------------------------------

  /** The numbers a column holds, nulls left out. */
  function Given(cells: seq<Cell>): seq<real> { Fillna.Numbers(NonNull(cells)) }

  /** A value that occurs, and none occurs more often. */
  ghost predicate MostFrequent(cells: seq<Cell>, v: Cell) {
    && v in cells && !v.Null?
    && forall u :: u in cells && !u.Null? ==> multiset(cells)[u] <= multiset(cells)[v]
  }

  lemma {:induction false} CountIsMultiplicity(cells: seq<Cell>, v: Cell)
    ensures Stats.CountOf(cells, v) == multiset(cells)[v]
  {
    if cells != [] {
      CountIsMultiplicity(cells[1..], v);
      assert cells == [cells[0]] + cells[1..];
    }
  }

  lemma {:induction false} NonNullMultiplicity(cells: seq<Cell>, v: Cell)
    requires !v.Null?
    ensures multiset(NonNull(cells))[v] == multiset(cells)[v]
  {
    if cells != [] {
      NonNullMultiplicity(cells[1..], v);
      assert cells == [cells[0]] + cells[1..];
    }
  }

  lemma ModeIsMostFrequent(cells: seq<Cell>, v: Cell)
    requires Stats.IsMode(NonNull(cells), v)
    ensures MostFrequent(cells, v)
  {
    var rest := NonNull(cells);
    P.NonNullHasNoNull(cells);
    NonNullMultiplicity(cells, v);
    CountIsMultiplicity(rest, v);
    assert multiset(cells)[v] > 0;
    forall u | u in cells && !u.Null? ensures multiset(cells)[u] <= multiset(cells)[v] {
      NonNullMultiplicity(cells, u);
      CountIsMultiplicity(rest, u);
      assert multiset(rest)[u] > 0;
    }
  }

  /** What a column holds: the numbers of its cells, each as often as it is there. */
  lemma GivenIsNumbers(cells: seq<Cell>)
    ensures Null !in NonNull(cells) && forall v: Cell :: !v.Null? ==> multiset(NonNull(cells))[v] == multiset(cells)[v]
    ensures |Given(cells)| == |NonNull(cells)|
    ensures forall i :: 0 <= i < |Given(cells)| && NonNull(cells)[i].Num? ==> Given(cells)[i] == NonNull(cells)[i].x
  {
    P.NonNullHasNoNull(cells);
    forall v: Cell | !v.Null? ensures multiset(NonNull(cells))[v] == multiset(cells)[v] {
      NonNullMultiplicity(cells, v);
    }
  }

  // ---- what a column is filled with ---------------------------------------

  ghost predicate HasNull(cells: seq<Cell>) { exists i :: 0 <= i < |cells| && cells[i].Null? }

  ghost predicate HasValue(cells: seq<Cell>) { exists i :: 0 <= i < |cells| && !cells[i].Null? }

  /** By name: a constant as given; nothing for a column without values; otherwise the middle or the mean of a numeric
      column, and a most frequent value for `mode` and for every other column. `auto` is `median`. */
  ghost predicate FillsWith(dtype: DType, cells: seq<Cell>, strategy: Strategy, constant: Cell, v: Cell) {
    if strategy.Constant? then v == constant
    else if !HasValue(cells) then v == Null
    else if dtype.Numeric? && (strategy.Median? || strategy.Auto?) then
      v.Num? && Stats.IsMedian(Given(cells), v.x)
    else if dtype.Numeric? && strategy.Mean? then
      v.Num? && Stats.IsMean(Given(cells), v.x)
    else MostFrequent(cells, v)
  }

  lemma HasNullIff(cells: seq<Cell>)
    ensures NullCount(cells) > 0 <==> HasNull(cells)
  {
    P.NullCountPositive(cells);
  }

  lemma {:induction false} HasValueIff(cells: seq<Cell>)
    ensures NonNull(cells) != [] <==> HasValue(cells)
  {
    if cells != [] {
      HasValueIff(cells[1..]);
      if HasValue(cells[1..]) {
        var i :| 0 <= i < |cells[1..]| && !cells[1..][i].Null?;
        assert !cells[i + 1].Null?;
      }
      assert forall i :: 0 < i < |cells| ==> cells[i] == cells[1..][i - 1];
    }
  }

  lemma StatisticsAre(cells: seq<Cell>)
    requires NonNull(cells) != []
    ensures Stats.IsMedian(Given(cells), Stats.Median(Given(cells)))
    ensures Stats.IsMean(Given(cells), Stats.Mean(Given(cells)))
    ensures MostFrequent(cells, Stats.FirstMode(NonNull(cells)))
  {
    Stats.MedianIsMiddle(Given(cells));
    Stats.MeanBalances(Given(cells), Stats.Mean(Given(cells)));
    ModeIsMostFrequent(cells, Stats.FirstMode(NonNull(cells)));
  }

  lemma FillValueByStrategy(dtype: DType, cells: seq<Cell>, strategy: Strategy, constant: Cell)
    requires !strategy.DropRow?
    ensures match Fillna.FillValue(dtype, cells, Fillna.EffectiveStrategy(dtype, strategy), constant)
            case Ok(v) => FillsWith(dtype, cells, strategy, constant, v) && !(strategy.Unknown? && HasValue(cells))
            case Err(e) => e == UnknownStrategy && strategy.Unknown? && HasValue(cells)
  {
    HasValueIff(cells);
    if NonNull(cells) != [] { StatisticsAre(cells); }
  }

  /** The value computed for a column with a null is the one its strategy names. */
  lemma ValueByStrategy(f: Frame, j: nat, args: OpArgs)
    requires f.Valid() && j < |f.fields| && HasNull(f.Column(j)) && !args.strategy.DropRow?
    ensures var cells := f.Column(j);
            match Fillna.ColumnFill(f, j, args)
            case Ok(v) => FillsWith(f.fields[j].dtype, cells, args.strategy, args.constant, v)
                          && !(args.strategy.Unknown? && HasValue(cells))
            case Err(e) => e == UnknownStrategy && args.strategy.Unknown? && HasValue(cells)
  {
    HasNullIff(f.Column(j));
    FillValueByStrategy(f.fields[j].dtype, f.Column(j), args.strategy, args.constant);
  }

  // ---- the fill path ------------------------------------------------------

  /** Column `j` is to be filled: it is listed, or, without a list, it has a null. */
  ghost predicate IsTarget(f: Frame, columns: ListArg, j: nat)
    requires f.Valid() && j < |f.fields|
  {
    match columns
    case Absent => HasNull(f.Column(j))
    case NotAList => false
    case Listed(items) => f.fields[j].name in items
  }

  /** The cell of a target that is null holds the target's value; every other cell is as before. */
  ghost predicate FilledWith(f: Frame, columns: ListArg, values: seq<Cell>, g: Frame)
    requires f.Valid()
  {
    && |values| == |f.fields| && g.fields == f.fields && |g.rows| == |f.rows|
    && forall i :: 0 <= i < |f.rows| ==> |g.rows[i]| == |f.fields| && forall j :: 0 <= j < |f.fields| ==>
         g.rows[i][j] == if IsTarget(f, columns, j) && f.rows[i][j].Null? then values[j] else f.rows[i][j]
  }

  ghost predicate ValuesByStrategy(f: Frame, args: OpArgs, values: seq<Cell>)
    requires f.Valid()
  {
    && |values| == |f.fields|
    && forall j :: 0 <= j < |f.fields| && IsTarget(f, args.columns, j) && HasNull(f.Column(j)) ==>
         FillsWith(f.fields[j].dtype, f.Column(j), args.strategy, args.constant, values[j])
  }

  /** The positions of the nulls of column `j`. */
  ghost function NullsOf(f: Frame, j: nat): set<nat>
    requires f.Valid() && j < |f.fields|
  {
    set i: nat | i < |f.rows| && f.rows[i][j].Null?
  }

  /** An entry of the report names a target, the value it was filled with and the nulls it had. */
  ghost predicate EntryOf(f: Frame, columns: ListArg, values: seq<Cell>, e: Filled, j: nat)
    requires f.Valid() && j < |f.fields| == |values|
  {
    && IsTarget(f, columns, j) && e.column == f.fields[j].name && e.value == values[j]
    && e.filledCount == |NullsOf(f, j)|
  }

  ghost predicate Fills(f: Frame, args: OpArgs, values: seq<Cell>, r: OperationResult)
    requires f.Valid()
  {
    && r.frame.Some? && FilledWith(f, args.columns, values, r.frame.value) && ValuesByStrategy(f, args, values)
    && r.summary.FillSummary? && r.summary.rowsBefore == r.summary.rowsAfter == |f.rows|
    && Reported(f, args.columns, values, r.summary.filled)
  }

  ghost predicate Reported(f: Frame, columns: ListArg, values: seq<Cell>, done: seq<Filled>)
    requires f.Valid()
  {
    |values| == |f.fields| && forall k :: 0 <= k < |done| ==> IsEntry(f, columns, values, done[k])
  }

  ghost predicate IsEntry(f: Frame, columns: ListArg, values: seq<Cell>, e: Filled)
    requires f.Valid() && |values| == |f.fields|
  {
    exists j :: 0 <= j < |f.fields| && EntryOf(f, columns, values, e, j)
  }

  /** An unknown strategy fails as soon as a target has both nulls and values. */
  ghost predicate StrategyMissing(f: Frame, args: OpArgs)
    requires f.Valid()
  {
    && args.strategy.Unknown?
    && exists j :: 0 <= j < |f.fields| && IsTarget(f, args.columns, j) && HasNull(f.Column(j)) && HasValue(f.Column(j))
  }

  function Values(f: Frame, args: OpArgs): (values: seq<Cell>)
    requires f.Valid()
    ensures |values| == |f.fields|
  {
    seq(|f.fields|, j requires 0 <= j < |f.fields| =>
      match Fillna.ColumnFill(f, j, args) case Ok(v) => v case Err(_) => Null)
  }

  lemma TargetIff(f: Frame, columns: ListArg, j: nat)
    requires f.Valid() && j < |f.fields| && Fillna.TargetColumns(f, columns).Ok?
    ensures f.fields[j].name in Fillna.TargetColumns(f, columns).value <==> IsTarget(f, columns, j)
  {
    Fillna.ColumnsWithNullsAre(f, |f.fields|);
    HasNullIff(f.Column(j));
  }

  lemma {:induction false} FailsAtColumn(f: Frame, cols: seq<string>, args: OpArgs) returns (j: nat)
    requires f.Valid() && Fillna.FillLoop(f, cols, args).Err?
    ensures j < |f.fields| && f.fields[j].name in cols && Fillna.ColumnFill(f, j, args).Err?
  {
    var n := |cols| - 1;
    if Fillna.FillLoop(f, cols[..n], args).Err? {
      j := FailsAtColumn(f, cols[..n], args);
    } else {
      j := Find(f.fields, cols[n]);
    }
  }

  lemma {:induction false} NullCountIs(f: Frame, j: nat, n: nat)
    requires f.Valid() && j < |f.fields| && n <= |f.rows|
    ensures NullCount(f.Column(j)[n..]) == |set i: nat | n <= i < |f.rows| && f.rows[i][j].Null?|
    decreases |f.rows| - n
  {
    var here := set i: nat | n <= i < |f.rows| && f.rows[i][j].Null?;
    if n == |f.rows| {
      assert here == {};
    } else {
      NullCountIs(f, j, n + 1);
      var cells := f.Column(j)[n..];
      assert cells[1..] == f.Column(j)[n + 1..];
      var behind := set i: nat | n + 1 <= i < |f.rows| && f.rows[i][j].Null?;
      assert here == behind + if f.rows[n][j].Null? then {n} else {};
    }
  }

  lemma NullsAreCounted(f: Frame, j: nat)
    requires f.Valid() && j < |f.fields|
    ensures NullCount(f.Column(j)) == |NullsOf(f, j)|
  {
    NullCountIs(f, j, 0);
    assert f.Column(j)[0..] == f.Column(j);
    assert NullsOf(f, j) == set i: nat | 0 <= i < |f.rows| && f.rows[i][j].Null?;
  }

  /** Every entry of the report was made by filling its column. */
  lemma {:induction false} EntriesAre(f: Frame, cols: seq<string>, args: OpArgs, k: nat) returns (j: nat)
    requires f.Valid() && Fillna.FillLoop(f, cols, args).Ok? && k < |Fillna.FillLoop(f, cols, args).value.done|
    ensures var e := Fillna.FillLoop(f, cols, args).value.done[k];
            && j < |f.fields| && f.fields[j].name in cols && e.column == f.fields[j].name
            && Fillna.ColumnFill(f, j, args) == Ok(e.value) && e.filledCount == NullCount(f.Column(j))
  {
    var n := |cols| - 1;
    var before := Fillna.FillLoop(f, cols[..n], args).value;
    if k < |before.done| {
      j := EntriesAre(f, cols[..n], args, k);
    } else {
      j := Find(f.fields, cols[n]);
    }
  }

  /** The fill path puts in every null of a target the value its strategy names. */
  lemma LoopFills(f: Frame, args: OpArgs)
    requires f.Valid() && Fillna.TargetColumns(f, args.columns).Ok? && !args.strategy.DropRow?
    requires Fillna.FillLoop(f, Fillna.TargetColumns(f, args.columns).value, args).Ok?
    ensures var p := Fillna.FillLoop(f, Fillna.TargetColumns(f, args.columns).value, args).value;
            && FilledWith(f, args.columns, Values(f, args), p.frame) && ValuesByStrategy(f, args, Values(f, args))
            && !StrategyMissing(f, args)
  {
    var cols := Fillna.TargetColumns(f, args.columns).value;
    var g := Fillna.FillLoop(f, cols, args).value.frame;
    Fillna.FillLoopExactly(f, cols, args);
    forall j | 0 <= j < |f.fields|
      ensures f.fields[j].name in cols <==> IsTarget(f, args.columns, j)
      ensures IsTarget(f, args.columns, j) && HasNull(f.Column(j)) ==>
                && Fillna.ColumnFill(f, j, args).Ok?
                && FillsWith(f.fields[j].dtype, f.Column(j), args.strategy, args.constant, Values(f, args)[j])
                && !(args.strategy.Unknown? && HasValue(f.Column(j)))
    {
      TargetIff(f, args.columns, j);
      if HasNull(f.Column(j)) { ValueByStrategy(f, j, args); }
    }
    forall i | 0 <= i < |f.rows|
      ensures |g.rows[i]| == |f.fields| && forall j :: 0 <= j < |f.fields| ==>
                g.rows[i][j] == if IsTarget(f, args.columns, j) && f.rows[i][j].Null? then Values(f, args)[j]
                                else f.rows[i][j]
    {
      forall j | 0 <= j < |f.fields|
        ensures g.rows[i][j] == if IsTarget(f, args.columns, j) && f.rows[i][j].Null? then Values(f, args)[j]
                                else f.rows[i][j]
      {
        assert g.rows[i][j] == Fillna.FilledCell(f, cols, args, i, j);
        if f.rows[i][j].Null? { assert f.Column(j)[i].Null?; }
      }
    }
  }

  lemma LoopReports(f: Frame, args: OpArgs)
    requires f.Valid() && Fillna.TargetColumns(f, args.columns).Ok? && !args.strategy.DropRow?
    requires Fillna.FillLoop(f, Fillna.TargetColumns(f, args.columns).value, args).Ok?
    ensures Reported(f, args.columns, Values(f, args),
            Fillna.FillLoop(f, Fillna.TargetColumns(f, args.columns).value, args).value.done)
  {
    var cols := Fillna.TargetColumns(f, args.columns).value;
    var done := Fillna.FillLoop(f, cols, args).value.done;
    forall k | 0 <= k < |done| ensures IsEntry(f, args.columns, Values(f, args), done[k]) {
      var j := EntriesAre(f, cols, args, k);
      TargetIff(f, args.columns, j);
      NullsAreCounted(f, j);
      assert EntryOf(f, args.columns, Values(f, args), done[k], j);
    }
  }

  lemma LoopFails(f: Frame, args: OpArgs)
    requires f.Valid() && Fillna.TargetColumns(f, args.columns).Ok? && !args.strategy.DropRow?
    requires Fillna.FillLoop(f, Fillna.TargetColumns(f, args.columns).value, args).Err?
    ensures Fillna.FillLoop(f, Fillna.TargetColumns(f, args.columns).value, args) == Err(UnknownStrategy)
    ensures StrategyMissing(f, args)
  {
    var cols := Fillna.TargetColumns(f, args.columns).value;
    var j := FailsAtColumn(f, cols, args);
    P.LoopFailsOnStrategy(f, cols, args);
    TargetIff(f, args.columns, j);
    HasNullIff(f.Column(j));
    ValueByStrategy(f, j, args);
  }

  // ---- the drop path ------------------------------------------------------

  /** The nearest integer, the even one of two. */
  ghost predicate Nearest(x: real, n: int) {
    && -0.5 <= n as real - x <= 0.5
    && ((n as real - x == 0.5 || n as real - x == -0.5) ==> n % 2 == 0)
  }

  /** The nulls that count for row `i`: one for each listed column; without a list, all of them. */
  ghost function Missing(f: Frame, columns: ListArg, i: nat): nat
    requires f.Valid() && i < |f.rows|
  {
    match columns
    case Listed(items) => |P.NullPositions(f, f.rows[i], items)|
    case _ => |P.NullCells(f.rows[i], |f.fields|)|
  }

  /** The columns considered: those listed; without a list, those with a null. */
  ghost function Considered(f: Frame, columns: ListArg): nat {
    match columns
    case Listed(items) => |items|
    case _ => |P.NullColumns(f.rows, |f.fields|)|
  }

  /** The fraction of the columns considered, rounded. */
  ghost predicate IsShare(f: Frame, args: OpArgs, share: int) {
    ShareOf(args.minPctToDrop, Considered(f, args.columns), share)
  }

  ghost predicate ShareOf(minPct: real, n: nat, share: int) { Nearest(minPct * n as real, share) }

  /** A row stays unless its nulls reach the limit: the fraction of the columns, rounded, and at least one. */
  ghost predicate Drops(f: Frame, args: OpArgs, share: int, idx: seq<nat>, r: OperationResult)
    requires f.Valid()
  {
    && IsShare(f, args, share) && r.frame.Some? && r.frame.value.fields == f.fields
    && RowsAt(idx, f.rows, r.frame.value.rows)
    && (forall i :: 0 <= i < |f.rows| ==>
          (i in idx <==> !(Missing(f, args.columns, i) >= share && Missing(f, args.columns, i) >= 1)))
    && r.summary == DropSummary(|f.rows|, |idx|, |f.rows| - |idx|)
  }

  lemma LimitReached(f: Frame, args: OpArgs, cols: seq<string>, i: nat)
    requires f.Valid() && i < |f.rows| && Fillna.TargetColumns(f, args.columns) == Ok(cols)
    ensures |cols| == Considered(f, args.columns)
    ensures Fillna.RowNulls(f.rows[i], Indices(f, cols)) == Missing(f, args.columns, i)
  {
    ConsideredAre(f, args, cols);
    match args.columns
    case Listed(items) => P.RowNullsAreNulls(f, f.rows[i], items);
    case Absent => P.DetectedNulls(f, i, |f.fields|);
    case NotAList =>
  }

  lemma ConsideredAre(f: Frame, args: OpArgs, cols: seq<string>)
    requires f.Valid() && Fillna.TargetColumns(f, args.columns) == Ok(cols)
    ensures |cols| == Considered(f, args.columns)
  {
    if args.columns.Absent? { P.DetectedCount(f, |f.fields|); }
  }

  lemma StaysUnder(f: Frame, args: OpArgs, cols: seq<string>, share: int, limit: int, i: nat)
    requires f.Valid() && i < |f.rows| && Fillna.TargetColumns(f, args.columns) == Ok(cols)
    requires limit == if share > 1 then share else 1
    ensures Fillna.Dense(Indices(f, cols), limit)(f.rows[i])
       <==> !(Missing(f, args.columns, i) >= share && Missing(f, args.columns, i) >= 1)
  {
    LimitReached(f, args, cols, i);
  }

  lemma RoundNear(x: real)
    ensures Nearest(x, Fillna.Round(x))
  {
    P.RoundIsNearest(x);
  }

  lemma ThresholdOf(minPct: real, n: nat)
    ensures var r := Fillna.Round(minPct * n as real); Fillna.DropThreshold(minPct, n) == if r > 1 then r else 1
  {
  }

  lemma SharedBy(minPct: real, n: nat) returns (share: int, limit: int)
    ensures ShareOf(minPct, n, share)
    ensures limit == (if share > 1 then share else 1) && limit == Fillna.DropThreshold(minPct, n)
  {
    share := Fillna.Round(minPct * n as real);
    RoundNear(minPct * n as real);
    ThresholdOf(minPct, n);
    limit := Fillna.DropThreshold(minPct, n);
  }

  lemma Limits(f: Frame, args: OpArgs, cols: seq<string>) returns (share: int, limit: int)
    requires f.Valid() && Fillna.TargetColumns(f, args.columns) == Ok(cols)
    ensures IsShare(f, args, share) && limit == (if share > 1 then share else 1)
    ensures limit == Fillna.DropThreshold(args.minPctToDrop, |cols|)
  {
    ConsideredAre(f, args, cols);
    share, limit := SharedBy(args.minPctToDrop, |cols|);
  }

  lemma KeepsUnder(f: Frame, args: OpArgs, cols: seq<string>, share: int, limit: int) returns (idx: seq<nat>)
    requires f.Valid() && Fillna.TargetColumns(f, args.columns) == Ok(cols)
    requires limit == if share > 1 then share else 1
    ensures RowsAt(idx, f.rows, Fillna.FilterRows(f.rows, Fillna.Dense(Indices(f, cols), limit)))
    ensures forall i :: 0 <= i < |f.rows| ==>
              (i in idx <==> !(Missing(f, args.columns, i) >= share && Missing(f, args.columns, i) >= 1))
  {
    idx := P.FilterKeeps(f.rows, Fillna.Dense(Indices(f, cols), limit));
    forall i | 0 <= i < |f.rows|
      ensures Fillna.Dense(Indices(f, cols), limit)(f.rows[i])
              <==> !(Missing(f, args.columns, i) >= share && Missing(f, args.columns, i) >= 1)
    {
      StaysUnder(f, args, cols, share, limit, i);
    }
  }

  lemma DropDrops(f: Frame, args: OpArgs, cols: seq<string>) returns (share: int, idx: seq<nat>)
    requires f.Valid() && Fillna.TargetColumns(f, args.columns) == Ok(cols) && cols != [] && args.strategy.DropRow?
    ensures Fillna.Apply(f, args).Ok? && Drops(f, args, share, idx, Fillna.Apply(f, args).value)
  {
    var limit;
    share, limit := Limits(f, args, cols);
    idx := KeepsUnder(f, args, cols, share, limit);
  }

  // ---- the operation ------------------------------------------------------

  ghost predicate NothingToDo(f: Frame, columns: ListArg)
    requires f.Valid()
  {
    columns.Absent? && forall j :: 0 <= j < |f.fields| ==> !HasNull(f.Column(j))
  }

  /** What `fillna` answers. */
  ghost predicate FillsOrDrops(f: Frame, args: OpArgs, r: Outcome)
    requires f.Valid()
  {
    if args.columns == NotAList || args.columns == Listed([]) then r == Err(ColumnsNotAList)
    else if args.columns.Listed? && !AllThere(f, args.columns.items) then r == Err(ColumnsMissing)
    else if NothingToDo(f, args.columns) then
      r == Ok(OperationResult(Some(f), FillSummary([], 0, |f.rows|, |f.rows|)))
    else if args.strategy.DropRow? then r.Ok? && exists share, idx :: Drops(f, args, share, idx, r.value)
    else if StrategyMissing(f, args) then r == Err(UnknownStrategy)
    else r.Ok? && exists values :: Fills(f, args, values, r.value)
  }

  lemma NothingDetected(f: Frame)
    requires f.Valid()
    ensures Fillna.ColumnsWithNulls(f, |f.fields|) == [] <==> NothingToDo(f, Absent)
  {
    Fillna.ColumnsWithNullsAre(f, |f.fields|);
    var cols := Fillna.ColumnsWithNulls(f, |f.fields|);
    forall j | 0 <= j < |f.fields| ensures f.fields[j].name in cols <==> HasNull(f.Column(j)) {
      HasNullIff(f.Column(j));
    }
    if cols != [] { assert cols[0] in cols; }
  }

  /** Whatever it is given, `fillna` refuses by name, drops the rows with too many nulls, or puts in every null of its
      targets the value the strategy names, and leaves everything else. */
  lemma FillnaFillsOrDrops(f: Frame, args: OpArgs)
    requires f.Valid()
    ensures FillsOrDrops(f, args, Fillna.Apply(f, args))
  {
    if args.columns.Listed? { AllThereIff(f, args.columns.items); }
    NothingDetected(f);
    var targets := Fillna.TargetColumns(f, args.columns);
    if targets.Ok? && targets.value != [] {
      if args.strategy.DropRow? {
        var share, idx := DropDrops(f, args, targets.value);
      } else if Fillna.FillLoop(f, targets.value, args).Err? {
        LoopFails(f, args);
      } else {
        LoopFills(f, args);
        LoopReports(f, args);
        assert Fills(f, args, Values(f, args), Fillna.Apply(f, args).value);
      }
    }
  }
}
