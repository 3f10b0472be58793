/** `normalize_text`: strip, collapse and case the text columns named, and count the spellings that fell together. */
module NormalizeText {
  import opened Wrappers
  import opened Frames
  import opened Operations
  import opened Texts

  function CaseOf(name: string): Option<Case> {
    if name == "lower" then Some(LowerCase)
    else if name == "upper" then Some(UpperCase)
    else if name == "title" then Some(TitleCase)
    else if name == "preserve" then Some(Preserve)
    else None
  }

  function CleanCell(o: CleanOptions, c: Cell): Cell {
    if c.Text? then Text(Clean(o, c.s)) else c
  }

  function CleanCells(o: CleanOptions, cells: seq<Cell>): (r: seq<Cell>)
    ensures |r| == |cells|
  {
    seq(|cells|, i requires 0 <= i < |cells| => CleanCell(o, cells[i]))
  }

  /** `n_unique`, which counts null as a value. */
  function DistinctCount(cells: seq<Cell>): nat {
    |set i | 0 <= i < |cells| :: cells[i]|
  }

  function CollapsedVariants(before: nat, after: nat): nat {
    if before >= after then before - after else 0
  }

  datatype Progress = Progress(frame: Frame, done: seq<Cleaned>)

  function TextStep(f: Frame, p: Progress, col: string, o: CleanOptions): (r: Progress)
    requires f.Valid() && p.frame.Valid() && p.frame.fields == f.fields && |p.frame.rows| == |f.rows|
    ensures r.frame.Valid() && r.frame.fields == f.fields && |r.frame.rows| == |f.rows|
  {
    var j := Find(f.fields, col);
    if j == |f.fields| || f.fields[j].dtype != Utf8 then p else
      var cells := CleanCells(o, p.frame.Column(j));
      var before, after := DistinctCount(f.Column(j)), DistinctCount(cells);
      Progress(ReplaceColumn(p.frame, j, Utf8, cells),
               p.done + [Cleaned(col, before, after, CollapsedVariants(before, after))])
  }

  function TextLoop(f: Frame, cols: seq<string>, o: CleanOptions): (r: Progress)
    requires f.Valid()
    ensures r.frame.Valid() && r.frame.fields == f.fields && |r.frame.rows| == |f.rows|
  {
    if cols == [] then Progress(f, [])
    else TextStep(f, TextLoop(f, cols[..|cols| - 1], o), cols[|cols| - 1], o)
  }

  function Apply(f: Frame, args: OpArgs): Outcome
    requires f.Valid()
  {
    match RequiredColumns(f, args.columns)
    case Err(e) => Err(e)
    case Ok(cols) =>
      match CaseOf(args.casing)
      case None => Err(BadCase)
      case Some(c) =>
        var p := TextLoop(f, cols, CleanOptions(args.strip, args.collapseSpaces, c));
        Ok(OperationResult(Some(p.frame), TextSummary(p.done, f.Height(), p.frame.Height())))
  }

  method RunNormalizeText(f: Frame, args: OpArgs) returns (r: Outcome)
    requires f.Valid()
    ensures r == Apply(f, args)
  {
    var checked := RequiredColumns(f, args.columns);
    if checked.Err? { return Err(checked.error); }
    var cols := checked.value;
    var c := CaseOf(args.casing);
    if c.None? { return Err(BadCase); }
    var o := CleanOptions(args.strip, args.collapseSpaces, c.value);
    var newFrame := f;
    var perColumn: seq<Cleaned> := [];
    for k := 0 to |cols|
      invariant newFrame.Valid() && newFrame.fields == f.fields && |newFrame.rows| == |f.rows|
      invariant TextLoop(f, cols[..k], o) == Progress(newFrame, perColumn)
    {
      assert cols[..k + 1][..k] == cols[..k];
      var j := Find(f.fields, cols[k]);
      if j < |f.fields| && f.fields[j].dtype == Utf8 {
        var cells := CleanCells(o, newFrame.Column(j));
        var before, after := DistinctCount(f.Column(j)), DistinctCount(cells);
        newFrame := ReplaceColumn(newFrame, j, Utf8, cells);
        perColumn := perColumn + [Cleaned(cols[k], before, after, CollapsedVariants(before, after))];
      }
    }
    assert cols[..|cols|] == cols;
    r := Ok(OperationResult(Some(newFrame), TextSummary(perColumn, f.Height(), newFrame.Height())));
  }

  // ---- what it means ------------------------------------------------------

  /** The cells of the named text columns are cleaned; every other cell stays. */
  ghost predicate CleansExactly(f: Frame, cols: seq<string>, o: CleanOptions, g: Frame)
    requires f.Valid()
  {
    && g.Valid() && g.fields == f.fields && |g.rows| == |f.rows|
    && (forall i, j :: 0 <= i < |f.rows| && 0 <= j < |f.fields| ==>
          g.rows[i][j] == if f.fields[j].name in cols && f.fields[j].dtype == Utf8
                          then CleanCell(o, f.rows[i][j]) else f.rows[i][j])
  }

  lemma CleanCellIdempotent(o: CleanOptions, c: Cell)
    ensures CleanCell(o, CleanCell(o, c)) == CleanCell(o, c)
  {
    if c.Text? { CleanIdempotent(o, c.s); }
  }

  lemma TextStepExactly(f: Frame, cols: seq<string>, o: CleanOptions, p: Progress, col: string)
    requires f.Valid() && CleansExactly(f, cols, o, p.frame)
    ensures CleansExactly(f, cols + [col], o, TextStep(f, p, col, o).frame)
  {
    var g, h, c := p.frame, TextStep(f, p, col, o).frame, Find(f.fields, col);
    FindMisses(f.fields, col);
    forall j | 0 <= j < |f.fields| ensures f.fields[j].name in cols + [col] <==> f.fields[j].name in cols || j == c {
      if f.fields[j].name == col { FindFinds(f.fields, j); }
    }
    forall i, j | 0 <= i < |f.rows| && 0 <= j < |f.fields|
      ensures h.rows[i][j] == if f.fields[j].name in cols + [col] && f.fields[j].dtype == Utf8
                              then CleanCell(o, f.rows[i][j]) else f.rows[i][j]
    {
      CleanCellIdempotent(o, f.rows[i][j]);
      if j == c && f.fields[j].dtype == Utf8 {
        assert h.rows[i][j] == CleanCell(o, g.rows[i][j]);
      } else {
        assert h.rows[i][j] == g.rows[i][j];
      }
    }
  }

  lemma {:induction false} TextLoopExactly(f: Frame, cols: seq<string>, o: CleanOptions)
    requires f.Valid()
    ensures CleansExactly(f, cols, o, TextLoop(f, cols, o).frame)
  {
    if cols != [] {
      var n := |cols| - 1;
      TextLoopExactly(f, cols[..n], o);
      TextStepExactly(f, cols[..n], o, TextLoop(f, cols[..n], o), cols[n]);
      assert cols[..n] + [cols[n]] == cols;
    }
  }

  lemma {:induction false} ImageIsNoLarger<S, T>(s: set<S>, h: S -> T, t: set<T>)
    requires forall y :: y in t ==> exists x :: x in s && h(x) == y
    ensures |t| <= |s|
    decreases |s|
  {
    if t != {} {
      var y :| y in t;
      var x :| x in s && h(x) == y;
      ImageIsNoLarger(s - {x}, h, t - {y});
    }
  }

  /** Cleaning never makes two spellings out of one. */
  lemma CleaningNeverSplits(o: CleanOptions, cells: seq<Cell>)
    ensures DistinctCount(CleanCells(o, cells)) <= DistinctCount(cells)
  {
    var s := set i | 0 <= i < |cells| :: cells[i];
    var t := set i | 0 <= i < |cells| :: CleanCells(o, cells)[i];
    forall y | y in t ensures exists x :: x in s && CleanCell(o, x) == y {
      var i :| 0 <= i < |cells| && CleanCells(o, cells)[i] == y;
      assert cells[i] in s;
    }
    ImageIsNoLarger(s, (c: Cell) => CleanCell(o, c), t);
    assert t == set i | 0 <= i < |CleanCells(o, cells)| :: CleanCells(o, cells)[i];
  }

  /** The reported variants are before minus after, for every option combination: the clamp at zero is never used. */
  lemma {:induction false} ClampNeverUsed(f: Frame, cols: seq<string>, o: CleanOptions)
    requires f.Valid()
    ensures forall e :: e in TextLoop(f, cols, o).done ==>
              e.distinctAfter <= e.distinctBefore && e.collapsedVariants == e.distinctBefore - e.distinctAfter
  {
    if cols != [] {
      var n := |cols| - 1;
      ClampNeverUsed(f, cols[..n], o);
      var j := Find(f.fields, cols[n]);
      if j < |f.fields| && f.fields[j].dtype == Utf8 {
        TextLoopExactly(f, cols, o);
        var g := TextLoop(f, cols, o).frame;
        assert f.fields[j].name == cols[n];
        assert g.Column(j) == CleanCells(o, f.Column(j)) by {
          forall i | 0 <= i < |f.rows| ensures g.Column(j)[i] == CleanCell(o, f.Column(j)[i]) {
            assert g.rows[i][j] == CleanCell(o, f.rows[i][j]);
          }
        }
        var p := TextLoop(f, cols[..n], o);
        assert g.Column(j) == CleanCells(o, p.frame.Column(j));
        CleaningNeverSplits(o, f.Column(j));
      }
    }
  }

  /** Normalising twice is normalising once, for every option combination. */
  lemma NormalizeTextIdempotent(f: Frame, args: OpArgs)
    requires f.Valid() && Apply(f, args).Ok?
    ensures var g := Apply(f, args).value.frame.value;
            g.Valid() && Apply(g, args).Ok? && Apply(g, args).value.frame == Some(g)
  {
    var cols, o := args.columns.items, CleanOptions(args.strip, args.collapseSpaces, CaseOf(args.casing).value);
    var g := TextLoop(f, cols, o).frame;
    var h := TextLoop(g, cols, o).frame;
    TextLoopExactly(f, cols, o);
    TextLoopExactly(g, cols, o);
    forall i | 0 <= i < |g.rows| ensures h.rows[i] == g.rows[i] {
      forall j | 0 <= j < |g.fields| ensures h.rows[i][j] == g.rows[i][j] {
        CleanCellIdempotent(o, f.rows[i][j]);
        assert g.rows[i][j] == if f.fields[j].name in cols && f.fields[j].dtype == Utf8
                               then CleanCell(o, f.rows[i][j]) else f.rows[i][j];
      }
    }
    assert h.rows == g.rows && h == g;
    assert RequiredColumns(g, args.columns) == Ok(cols);
  }
}
