/** `dedupe`: remove duplicate rows by the values, or the normalised values, of some columns. */
module Dedupe {
  import opened Wrappers
  import opened Frames
  import opened Operations
  import Distinct
  import Texts

  // ---- the operation as the code computes it ------------------------------

  function SentinelName(col: string): string { "__norm_" + col + "__" }

  function Sentinels(cols: seq<string>): (r: seq<string>)
    ensures |r| == |cols|
  {
    seq(|cols|, k requires 0 <= k < |cols| => SentinelName(cols[k]))
  }

  /** Text columns are compared stripped and lower-cased; other columns as they are. */
  function KeyCell(dtype: DType, c: Cell): Cell {
    if dtype.Utf8? && c.Text? then Text(Texts.Lower(Texts.Strip(c.s))) else c
  }

  function KeyColumn(f: Frame, j: nat): (cells: seq<Cell>)
    requires f.Valid() && j < |f.fields|
    ensures |cells| == |f.rows|
  {
    seq(|f.rows|, i requires 0 <= i < |f.rows| => KeyCell(f.fields[j].dtype, f.rows[i][j]))
  }

  function WithSentinel(f: Frame, col: string): (g: Frame)
    requires f.Valid()
    ensures g.Valid() && |g.rows| == |f.rows|
  {
    var j := Find(f.fields, col);
    if j < |f.fields| then WithColumn(f, SentinelName(col), f.fields[j].dtype, KeyColumn(f, j)) else f
  }

  /** The frame after the loop has added one transient key column per name. */
  function WithSentinels(f: Frame, cols: seq<string>): (g: Frame)
    requires f.Valid()
    ensures g.Valid() && |g.rows| == |f.rows|
  {
    if cols == [] then f else WithSentinel(WithSentinels(f, cols[..|cols| - 1]), cols[|cols| - 1])
  }

  function Pick(row: Row, idx: seq<nat>): Row {
    seq(|idx|, k requires 0 <= k < |idx| => if idx[k] < |row| then row[idx[k]] else Null)
  }

  function SubsetKey(idx: seq<nat>): Row -> Row {
    (row: Row) => Pick(row, idx)
  }

  function UniqueBy(rule: Distinct.Rule, f: Frame, subset: seq<string>): Frame {
    Frame(f.fields, Distinct.Keep(rule, f.rows, SubsetKey(Indices(f, subset))))
  }

  /** Positions of the columns that stay when `names` are dropped. */
  function StayIndices(fields: seq<Field>, names: seq<string>): (idx: seq<nat>)
    ensures forall k :: 0 <= k < |idx| ==> idx[k] < |fields| && fields[idx[k]].name !in names
  {
    if fields == [] then [] else
      var n := |fields| - 1;
      StayIndices(fields[..n], names) + if fields[n].name in names then [] else [n]
  }

  function DropColumns(f: Frame, names: seq<string>): Frame {
    var idx := StayIndices(f.fields, names);
    Frame(seq(|idx|, k requires 0 <= k < |idx| => f.fields[idx[k]]),
          seq(|f.rows|, i requires 0 <= i < |f.rows| => Pick(f.rows[i], idx)))
  }

  function DedupedFrame(f: Frame, cols: seq<string>, rule: Distinct.Rule, normalizeText: bool): Frame
    requires f.Valid()
  {
    if normalizeText then
      DropColumns(UniqueBy(rule, WithSentinels(f, cols), Sentinels(cols)), Sentinels(cols))
    else UniqueBy(rule, f, cols)
  }

  function KeepRule(keep: string): Option<Distinct.Rule> {
    if keep == "first" then Some(Distinct.First) else if keep == "last" then Some(Distinct.Last) else None
  }

  function Apply(f: Frame, args: OpArgs): Outcome
    requires f.Valid()
  {
    match RequiredColumns(f, args.columns)
    case Err(e) => Err(e)
    case Ok(cols) =>
      match KeepRule(args.keep)
      case None => Err(BadKeep)
      case Some(rule) =>
        var g := DedupedFrame(f, cols, rule, args.normalizeText);
        Ok(OperationResult(Some(g), DedupeSummary(f.Height(), g.Height(), f.Height() - g.Height())))
  }

  method RunDedupe(f: Frame, args: OpArgs) returns (r: Outcome)
    requires f.Valid()
    ensures r == Apply(f, args)
  {
    var checked := RequiredColumns(f, args.columns);
    if checked.Err? { return Err(checked.error); }
    var cols := checked.value;
    if args.keep != "first" && args.keep != "last" { return Err(BadKeep); }
    var rule := if args.keep == "first" then Distinct.First else Distinct.Last;
    var newFrame: Frame;
    if args.normalizeText {
      newFrame := UniqueNormalised(f, cols, rule);
    } else {
      var kept := Distinct.Unique(rule, f.rows, SubsetKey(Indices(f, cols)));
      newFrame := Frame(f.fields, kept);
    }
    r := Ok(OperationResult(Some(newFrame),
                            DedupeSummary(f.Height(), newFrame.Height(), f.Height() - newFrame.Height())));
  }

  /** The branch that adds the transient key columns, dedupes by them and drops them. */
  method UniqueNormalised(f: Frame, cols: seq<string>, rule: Distinct.Rule) returns (r: Frame)
    requires f.Valid()
    ensures r == DedupedFrame(f, cols, rule, true)
  {
    var sentinelCols: seq<string> := [];
    var g := f;
    for k := 0 to |cols|
      invariant g == WithSentinels(f, cols[..k])
      invariant sentinelCols == Sentinels(cols[..k])
    {
      assert cols[..k + 1][..k] == cols[..k];
      g := WithSentinel(g, cols[k]);
      sentinelCols := sentinelCols + [SentinelName(cols[k])];
    }
    assert cols[..|cols|] == cols;
    var kept := Distinct.Unique(rule, g.rows, SubsetKey(Indices(g, sentinelCols)));
    r := DropColumns(Frame(g.fields, kept), sentinelCols);
  }

  // ---- what it means ------------------------------------------------------

  /** No column of the frame carries the name of a transient key column. */
  ghost predicate NoSentinels(f: Frame, cols: seq<string>) {
    forall k :: 0 <= k < |cols| ==> !Has(f, SentinelName(cols[k]))
  }

  /** What the normalised branch takes for granted: no column named like a transient one. */
  ghost predicate Untangled(f: Frame, cols: seq<string>, normalizeText: bool) {
    normalizeText ==> NoSentinels(f, cols)
  }

  function KeyAt(fields: seq<Field>, j: nat, normalizeText: bool, row: Row): Cell {
    if j < |row| && j < |fields| then
      if normalizeText then KeyCell(fields[j].dtype, row[j]) else row[j]
    else Null
  }

  /** The key two rows are compared by, read off the original row. */
  function RowKey(f: Frame, cols: seq<string>, normalizeText: bool): Row -> Row {
    (row: Row) => seq(|cols|,
        k requires 0 <= k < |cols| => KeyAt(f.fields, Find(f.fields, cols[k]), normalizeText, row))
  }

  lemma SentinelInjective(a: string, b: string)
    requires SentinelName(a) == SentinelName(b)
    ensures a == b
  {
    assert SentinelName(a)[7..|a| + 7] == a;
    assert SentinelName(b)[7..|b| + 7] == b;
  }

  /** The names of a list, each once, where it comes first. */
  function Once(cols: seq<string>): (r: seq<string>)
    ensures forall c :: c in r <==> c in cols
  {
    if cols == [] then [] else
      var front, last := cols[..|cols| - 1], cols[|cols| - 1];
      assert cols == front + [last];
      if last in front then Once(front) else Once(front) + [last]
  }

  /** `g` is `f` with the transient columns of `cols` on the right. */
  ghost predicate Extended(f: Frame, cols: seq<string>, g: Frame) {
    var w := |f.fields|;
    && |g.fields| == w + |cols|
    && g.fields[..w] == f.fields
    && (forall k :: 0 <= k < |cols| ==> IsSentinelOf(f, cols[k], g.fields[w + k]))
    && |g.rows| == |f.rows|
    && (forall i :: 0 <= i < |f.rows| ==> g.rows[i] == f.rows[i] + RowKey(f, cols, true)(f.rows[i]))
  }

  ghost predicate IsSentinelOf(f: Frame, col: string, field: Field) {
    Has(f, col) && field == Field(SentinelName(col), f.fields[Find(f.fields, col)].dtype)
  }

  lemma ExtendedFinds(f: Frame, cols: seq<string>, col: string, g: Frame)
    requires f.Valid() && Has(f, col) && g.Valid() && Extended(f, cols, g)
    ensures var j := Find(f.fields, col); Find(g.fields, col) == j && g.fields[j] == f.fields[j]
    ensures forall i :: 0 <= i < |f.rows| ==> g.rows[i][Find(f.fields, col)] == f.rows[i][Find(f.fields, col)]
  {
    var w, j := |f.fields|, Find(f.fields, col);
    assert g.fields[j] == g.fields[..w][j] == f.fields[j];
    FindFinds(g.fields, j);
  }

  lemma ExtendedStep(f: Frame, cols: seq<string>, col: string, g: Frame)
    requires f.Valid() && Has(f, col) && g.Valid() && Extended(f, cols, g)
    requires !Has(f, SentinelName(col)) && col !in cols
    ensures Extended(f, cols + [col], WithSentinel(g, col))
  {
    var w, j := |f.fields|, Find(f.fields, col);
    ExtendedFinds(f, cols, col, g);
    FindMisses(f.fields, SentinelName(col));
    forall k | 0 <= k < |g.fields| ensures g.fields[k].name != SentinelName(col) {
      if k < w {
        assert g.fields[k] == g.fields[..w][k];
      } else {
        assert IsSentinelOf(f, cols[k - w], g.fields[w + (k - w)]);
        if SentinelName(cols[k - w]) == SentinelName(col) { SentinelInjective(cols[k - w], col); }
      }
    }
    FindMisses(g.fields, SentinelName(col));
    var r := WithSentinel(g, col);
    assert r.fields == g.fields + [Field(SentinelName(col), g.fields[j].dtype)];
    assert r.fields[..w] == g.fields[..w];
    forall i | 0 <= i < |f.rows| ensures r.rows[i] == f.rows[i] + RowKey(f, cols + [col], true)(f.rows[i]) {
      assert g.rows[i][j] == f.rows[i][j];
      assert RowKey(f, cols + [col], true)(f.rows[i])
          == RowKey(f, cols, true)(f.rows[i]) + [KeyCell(f.fields[j].dtype, f.rows[i][j])];
    }
  }

  /** Where a transient column is, and what it holds. */
  lemma SentinelAt(f: Frame, cols: seq<string>, k: nat, g: Frame)
    requires f.Valid() && g.Valid() && Extended(f, cols, g) && k < |cols|
    ensures Find(g.fields, SentinelName(cols[k])) == |f.fields| + k < |g.fields|
    ensures forall i :: 0 <= i < |f.rows| ==>
              g.rows[i][|f.fields| + k] == KeyAt(f.fields, Find(f.fields, cols[k]), true, f.rows[i])
  {
    assert IsSentinelOf(f, cols[k], g.fields[|f.fields| + k]);
    FindFinds(g.fields, |f.fields| + k);
    forall i | 0 <= i < |f.rows|
      ensures g.rows[i][|f.fields| + k] == KeyAt(f.fields, Find(f.fields, cols[k]), true, f.rows[i])
    {
      assert g.rows[i] == f.rows[i] + RowKey(f, cols, true)(f.rows[i]);
    }
  }

  /** A column listed again rewrites its transient column with what it holds. */
  lemma ListedAgain(f: Frame, cols: seq<string>, col: string, g: Frame)
    requires f.Valid() && Has(f, col) && g.Valid() && Extended(f, cols, g) && col in cols
    ensures WithSentinel(g, col) == g
  {
    var k :| 0 <= k < |cols| && cols[k] == col;
    var j, c := Find(f.fields, col), |f.fields| + k;
    ExtendedFinds(f, cols, col, g);
    SentinelAt(f, cols, k, g);
    assert IsSentinelOf(f, col, g.fields[c]);
    var r := WithSentinel(g, col);
    assert r == ReplaceColumn(g, c, f.fields[j].dtype, KeyColumn(g, j));
    assert r.fields == g.fields;
    forall i | 0 <= i < |g.rows| ensures r.rows[i] == g.rows[i] {
      assert KeyColumn(g, j)[i] == KeyCell(f.fields[j].dtype, f.rows[i][j]) == g.rows[i][c];
    }
    assert r.rows == g.rows;
  }

  /** The transient columns sit to the right of the originals, which are unchanged. */
  lemma {:induction false} SentinelLayout(f: Frame, cols: seq<string>)
    requires f.Valid() && AllPresent(f, cols) && NoSentinels(f, cols)
    ensures Extended(f, Once(cols), WithSentinels(f, cols))
  {
    if cols == [] {
      assert f.fields[..|f.fields|] == f.fields;
      forall i | 0 <= i < |f.rows| ensures f.rows[i] == f.rows[i] + RowKey(f, cols, true)(f.rows[i]) {}
    } else {
      var n := |cols| - 1;
      SentinelLayout(f, cols[..n]);
      if cols[n] in cols[..n] {
        ListedAgain(f, Once(cols[..n]), cols[n], WithSentinels(f, cols[..n]));
      } else {
        ExtendedStep(f, Once(cols[..n]), cols[n], WithSentinels(f, cols[..n]));
      }
    }
  }

  lemma {:induction false} StayPrefix(fields: seq<Field>, names: seq<string>, w: nat)
    requires w <= |fields|
    requires forall j :: 0 <= j < w ==> fields[j].name !in names
    requires forall j :: w <= j < |fields| ==> fields[j].name in names
    ensures StayIndices(fields, names) == seq(w, j => j)
  {
    if fields != [] {
      StayPrefix(fields[..|fields| - 1], names, if w == |fields| then w - 1 else w);
    }
  }

  /** The rows of a frame with transient columns, keyed by those columns, are keyed like the original rows. */
  lemma SentinelKeys(f: Frame, cols: seq<string>, g: Frame, i: nat)
    requires f.Valid() && g.Valid() && Extended(f, Once(cols), g) && i < |f.rows|
    ensures SubsetKey(Indices(g, Sentinels(cols)))(g.rows[i]) == RowKey(f, cols, true)(f.rows[i])
  {
    var idx, once := Indices(g, Sentinels(cols)), Once(cols);
    forall k | 0 <= k < |cols|
      ensures idx[k] < |g.rows[i]| && g.rows[i][idx[k]] == RowKey(f, cols, true)(f.rows[i])[k]
    {
      assert cols[k] in once;
      var m :| 0 <= m < |once| && once[m] == cols[k];
      SentinelAt(f, once, m, g);
    }
  }

  /** Under the naming assumption, the transient columns leave no trace: rows are kept by their key, columns as they
      were. */
  lemma DedupeKeepsRowsByKey(f: Frame, cols: seq<string>, rule: Distinct.Rule, normalizeText: bool)
    requires f.Valid() && AllPresent(f, cols) && Untangled(f, cols, normalizeText)
    ensures DedupedFrame(f, cols, rule, normalizeText)
         == Frame(f.fields, Distinct.Keep(rule, f.rows, RowKey(f, cols, normalizeText)))
  {
    if normalizeText {
      SentinelLayout(f, cols);
      NormalisedKeepsRowsByKey(f, cols, rule, WithSentinels(f, cols));
    } else {
      var idx, key := Indices(f, cols), RowKey(f, cols, false);
      forall i | 0 <= i < |f.rows| ensures SubsetKey(idx)(f.rows[i]) == key(f.rows[i]) {}
      Distinct.KeepCommutes(rule, f.rows, key, f.rows, SubsetKey(idx), (row: Row) => row);
      assert Distinct.Keep(rule, f.rows, SubsetKey(idx)) == Distinct.Keep(rule, f.rows, key);
    }
  }

  /** Dropping the transient columns leaves the columns of the frame. */
  lemma OnlySentinelsGo(f: Frame, cols: seq<string>, g: Frame)
    requires f.Valid() && g.Valid() && NoSentinels(f, cols) && Extended(f, Once(cols), g)
    ensures StayIndices(g.fields, Sentinels(cols)) == seq(|f.fields|, j => j)
  {
    var w, names, once := |f.fields|, Sentinels(cols), Once(cols);
    forall j | 0 <= j < w ensures g.fields[j].name !in names {
      assert g.fields[j] == g.fields[..w][j];
      forall k | 0 <= k < |names| ensures names[k] != f.fields[j].name { FindMisses(f.fields, names[k]); }
    }
    forall j | w <= j < |g.fields| ensures g.fields[j].name in names {
      assert IsSentinelOf(f, once[j - w], g.fields[w + (j - w)]);
      assert once[j - w] in cols;
      var k :| 0 <= k < |cols| && cols[k] == once[j - w];
      assert names[k] == g.fields[j].name;
    }
    StayPrefix(g.fields, names, w);
  }

  lemma NormalisedKeepsRowsByKey(f: Frame, cols: seq<string>, rule: Distinct.Rule, g: Frame)
    requires f.Valid() && g.Valid() && NoSentinels(f, cols) && Extended(f, Once(cols), g)
    ensures DropColumns(UniqueBy(rule, g, Sentinels(cols)), Sentinels(cols))
         == Frame(f.fields, Distinct.Keep(rule, f.rows, RowKey(f, cols, true)))
  {
    var w, names, key, added := |f.fields|, Sentinels(cols), RowKey(f, cols, true), RowKey(f, Once(cols), true);
    var key' := SubsetKey(Indices(g, names));
    OnlySentinelsGo(f, cols, g);
    forall i | 0 <= i < |f.rows| ensures key'(g.rows[i]) == key(f.rows[i]) { SentinelKeys(f, cols, g, i); }
    Distinct.KeepCommutes(rule, f.rows, key, g.rows, key', (row: Row) => row + added(row));
    var kept := Distinct.Keep(rule, f.rows, key);
    var idx := Distinct.KeepIsTheSurvivors(rule, f.rows, key);
    var dropped := DropColumns(UniqueBy(rule, g, names), names);
    forall a | 0 <= a < |kept| ensures dropped.rows[a] == kept[a] {
      assert |kept[a]| == w;
      assert dropped.rows[a] == Pick(kept[a] + added(kept[a]), seq(w, j => j));
    }
    assert dropped.rows == kept;
    assert dropped.fields == g.fields[..w];
  }

  lemma {:induction false} StayIncreases(fields: seq<Field>, names: seq<string>)
    ensures Distinct.Increasing(StayIndices(fields, names))
  {
    if fields != [] { StayIncreases(fields[..|fields| - 1], names); }
  }

  /** Whatever the arguments, the result is a frame. */
  lemma DedupedIsValid(f: Frame, cols: seq<string>, rule: Distinct.Rule, normalizeText: bool)
    requires f.Valid()
    ensures DedupedFrame(f, cols, rule, normalizeText).Valid()
  {
    if normalizeText {
      var g := WithSentinels(f, cols);
      UniqueIsValid(g, Sentinels(cols), rule);
      StayIncreases(g.fields, Sentinels(cols));
    } else {
      UniqueIsValid(f, cols, rule);
    }
  }

  lemma ApplyReturnsFrame(f: Frame, args: OpArgs)
    requires f.Valid() && Apply(f, args).Ok?
    ensures Apply(f, args).value.frame.Some? && Apply(f, args).value.frame.value.Valid()
  {
    DedupedIsValid(f, args.columns.items, KeepRule(args.keep).value, args.normalizeText);
  }

  lemma UniqueIsValid(f: Frame, subset: seq<string>, rule: Distinct.Rule)
    requires f.Valid()
    ensures UniqueBy(rule, f, subset).Valid()
  {
    var idx := Distinct.KeepIsTheSurvivors(rule, f.rows, SubsetKey(Indices(f, subset)));
  }

  /** Dedupe only drops rows: the columns stay, and each row of the result is a row of the frame. */
  lemma DedupeShape(f: Frame, cols: seq<string>, rule: Distinct.Rule, normalizeText: bool)
    requires f.Valid() && AllPresent(f, cols) && Untangled(f, cols, normalizeText)
    ensures var g := DedupedFrame(f, cols, rule, normalizeText);
            g.Valid() && g.fields == f.fields && |g.rows| <= |f.rows|
            && forall i :: 0 <= i < |g.rows| ==> g.rows[i] in f.rows
  {
    DedupeKeepsRowsByKey(f, cols, rule, normalizeText);
    var key := RowKey(f, cols, normalizeText);
    var idx := Distinct.KeepIsTheSurvivors(rule, f.rows, key);
    Distinct.IncreasingIsShort(idx, |f.rows|);
  }

  /** The normalised branch gives back the columns it was given exactly when no transient name was already taken. */
  lemma NormalisedDedupeKeepsColumnsIff(f: Frame, cols: seq<string>, rule: Distinct.Rule)
    requires f.Valid() && AllPresent(f, cols)
    ensures DedupedFrame(f, cols, rule, true).fields == f.fields <==> NoSentinels(f, cols)
  {
    if NoSentinels(f, cols) {
      DedupeShape(f, cols, rule, true);
    } else {
      var k :| 0 <= k < |cols| && Has(f, SentinelName(cols[k]));
      var j := Find(f.fields, SentinelName(cols[k]));
      var g := DedupedFrame(f, cols, rule, true);
      assert Sentinels(cols)[k] == f.fields[j].name;
      assert forall m :: 0 <= m < |g.fields| ==> g.fields[m].name !in Sentinels(cols);
    }
  }

  /** Every column of `coarse` is in `fine`, and normalising is only added, never taken away. */
  ghost predicate FinerKey(fine: seq<string>, fineNormalised: bool, coarse: seq<string>, coarseNormalised: bool) {
    && (forall k :: 0 <= k < |coarse| ==> coarse[k] in fine)
    && (fineNormalised ==> coarseNormalised)
  }

  lemma KeyAtNormalised(fields: seq<Field>, j: nat, row: Row)
    ensures j < |fields| ==> KeyAt(fields, j, true, row) == KeyCell(fields[j].dtype, KeyAt(fields, j, false, row))
  {
  }

  lemma RowKeyRefines(f: Frame, fine: seq<string>, fineNormalised: bool, coarse: seq<string>, coarseNormalised: bool)
    requires FinerKey(fine, fineNormalised, coarse, coarseNormalised)
    ensures Distinct.Refines(RowKey(f, fine, fineNormalised), RowKey(f, coarse, coarseNormalised))
  {
    var a, b := RowKey(f, fine, fineNormalised), RowKey(f, coarse, coarseNormalised);
    forall r, r' | a(r) == a(r') ensures b(r) == b(r') {
      forall k | 0 <= k < |coarse| ensures b(r)[k] == b(r')[k] {
        var m :| 0 <= m < |fine| && fine[m] == coarse[k];
        assert a(r)[m] == a(r')[m];
        var j := Find(f.fields, coarse[k]);
        KeyAtNormalised(f.fields, j, r);
        KeyAtNormalised(f.fields, j, r');
      }
    }
  }

  /** For one keep rule, deduping by a finer key and then by a coarser one is deduping by the coarser one. */
  lemma DedupeComposes(f: Frame, fine: OpArgs, coarse: OpArgs)
    requires f.Valid() && Apply(f, fine).Ok? && Apply(f, coarse).Ok? && fine.keep == coarse.keep
    requires Untangled(f, fine.columns.items, fine.normalizeText)
          && Untangled(f, coarse.columns.items, coarse.normalizeText)
    requires FinerKey(fine.columns.items, fine.normalizeText, coarse.columns.items, coarse.normalizeText)
    ensures var g := Apply(f, fine).value.frame.value;
            g.Valid() && Apply(g, coarse).Ok? && Apply(g, coarse).value.frame == Apply(f, coarse).value.frame
  {
    var cols1, n1, cols2, n2 := fine.columns.items, fine.normalizeText, coarse.columns.items, coarse.normalizeText;
    var rule := KeepRule(fine.keep).value;
    DedupeShape(f, cols1, rule, n1);
    DedupeKeepsRowsByKey(f, cols1, rule, n1);
    var g := DedupedFrame(f, cols1, rule, n1);
    assert g.fields == f.fields;
    DedupeKeepsRowsByKey(f, cols2, rule, n2);
    DedupeKeepsRowsByKey(g, cols2, rule, n2);
    RowKeyRefines(f, cols1, n1, cols2, n2);
    Distinct.KeepComposes(rule, f.rows, RowKey(f, cols1, n1), RowKey(f, cols2, n2));
    assert RowKey(g, cols2, n2) == RowKey(f, cols2, n2);
  }

  /** Running the same dedupe twice removes nothing more. */
  lemma DedupeIdempotent(f: Frame, args: OpArgs)
    requires f.Valid() && Apply(f, args).Ok?
    requires Untangled(f, args.columns.items, args.normalizeText)
    ensures var g := Apply(f, args).value.frame.value;
            && g.Valid() && Apply(g, args).Ok?
            && Apply(g, args).value == OperationResult(Some(g), DedupeSummary(g.Height(), g.Height(), 0))
  {
    DedupeComposes(f, args, args);
  }

  /** `removed` counts the rows beyond the first of each key, whatever the keep rule. */
  lemma DedupeRemoves(f: Frame, args: OpArgs)
    requires f.Valid() && Apply(f, args).Ok?
    requires Untangled(f, args.columns.items, args.normalizeText)
    ensures Apply(f, args).value.summary.removed
         == |f.rows| - |Distinct.KeySet(f.rows, RowKey(f, args.columns.items, args.normalizeText))|
  {
    var cols, rule := args.columns.items, KeepRule(args.keep).value;
    DedupeKeepsRowsByKey(f, cols, rule, args.normalizeText);
    Distinct.KeepKeepsKeys(rule, f.rows, RowKey(f, cols, args.normalizeText));
  }
}
