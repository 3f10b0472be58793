/** What `normalize_text` returns, character by character. */
module TextOutcome {
  import opened Wrappers
  import opened Frames
  import opened Operations
  import opened DedupeOutcome
  import Texts
  import NormalizeText

  // ---- one text -----------------------------------------------------------

  /** `core` is what lies between the whitespace at both ends. */
  ghost predicate Strips(s: string, core: string) {
    && Texts.Stripped(core)
    && exists i, j :: 0 <= i <= j <= |s| && Texts.AllSpace(s[..i]) && s[i..j] == core && Texts.AllSpace(s[j..])
  }

  /** The length of a whole run of whitespace at the front. */
  ghost predicate Run(s: string, n: nat) {
    0 < n <= |s| && Texts.AllSpace(s[..n]) && (n < |s| ==> !Texts.IsSpace(s[n]))
  }

  /** Every run of whitespace has become one space, and every other character stayed. */
  ghost predicate Collapses(s: string, t: string)
    decreases |s|
  {
    if s == [] then t == []
    else if !Texts.IsSpace(s[0]) then t != [] && t[0] == s[0] && Collapses(s[1..], t[1..])
    else t != [] && t[0] == ' ' && exists n: nat :: Run(s, n) && Collapses(s[n..], t[1..])
  }

  predicate LetterOrDigit(c: char) { '0' <= c <= '9' || 'a' <= c <= 'z' || 'A' <= c <= 'Z' }

  predicate IsUpperOf(c: char, d: char) { if 'a' <= c <= 'z' then d as int == c as int - 32 else d == c }

  predicate IsLowerOf(c: char, d: char) { if 'A' <= c <= 'Z' then d as int == c as int + 32 else d == c }

  /** By name: all lower, all upper, or upper exactly where no letter or digit stands before; `preserve` changes
      nothing. */
  ghost predicate Cases(name: string, s: string, t: string) {
    && |t| == |s|
    && forall i :: 0 <= i < |s| ==>
         && (name == "lower" ==> IsLowerOf(s[i], t[i]))
         && (name == "upper" ==> IsUpperOf(s[i], t[i]))
         && (name == "title" ==>
               if i > 0 && LetterOrDigit(s[i - 1]) then IsLowerOf(s[i], t[i]) else IsUpperOf(s[i], t[i]))
         && (name == "preserve" ==> t[i] == s[i])
  }

  /** The three steps, each only if asked for. */
  ghost predicate Cleans(args: OpArgs, s: string, t: string) {
    exists stripped, collapsed :: CleansBy(args, s, stripped, collapsed, t)
  }

  ghost predicate CleansBy(args: OpArgs, s: string, stripped: string, collapsed: string, t: string) {
    && (if args.strip then Strips(s, stripped) else stripped == s)
    && (if args.collapseSpaces then Collapses(stripped, collapsed) else collapsed == stripped)
    && Cases(args.casing, collapsed, t)
  }

  lemma StripStrips(s: string)
    ensures Strips(s, Texts.Strip(s))
  {
    var front, back := Texts.StripRemovesEndsOnly(s);
    var i, j := |front|, |front| + |Texts.Strip(s)|;
    assert s[..i] == front && s[i..j] == Texts.Strip(s) && s[j..] == back;
  }

  lemma {:induction false} CollapseCollapses(s: string)
    ensures Collapses(s, Texts.Collapse(s))
    decreases |s|
  {
    if s != [] {
      if Texts.IsSpace(s[0]) {
        var front := Texts.TrimLeftCuts(s);
        var rest := Texts.TrimLeft(s);
        var n := |front|;
        assert s[..n] == front && s[n..] == rest;
        assert Run(s, n);
        CollapseCollapses(rest);
        assert (" " + Texts.Collapse(rest))[1..] == Texts.Collapse(rest);
      } else {
        CollapseCollapses(s[1..]);
        assert ([s[0]] + Texts.Collapse(s[1..]))[1..] == Texts.Collapse(s[1..]);
      }
    }
  }

  lemma CasingCases(name: string, s: string)
    requires NormalizeText.CaseOf(name).Some?
    ensures Cases(name, s, Texts.ApplyCase(NormalizeText.CaseOf(name).value, s))
  {
    var t := Texts.ApplyCase(NormalizeText.CaseOf(name).value, s);
    assert |t| == |s|;
  }

  /** What becomes of one text. */
  lemma CleanCleans(args: OpArgs, s: string)
    requires NormalizeText.CaseOf(args.casing).Some?
    ensures var o := Texts.CleanOptions(args.strip, args.collapseSpaces, NormalizeText.CaseOf(args.casing).value);
            Cleans(args, s, Texts.Clean(o, s))
  {
    var stripped := if args.strip then Texts.Strip(s) else s;
    var collapsed := if args.collapseSpaces then Texts.Collapse(stripped) else stripped;
    var t := Texts.ApplyCase(NormalizeText.CaseOf(args.casing).value, collapsed);
    StripStrips(s);
    CollapseCollapses(stripped);
    CasingCases(args.casing, collapsed);
    assert CleansBy(args, s, stripped, collapsed, t);
  }

  // ---- the operation ------------------------------------------------------

  /** A text is cleaned, anything else stays. */
  ghost predicate CellCleaned(args: OpArgs, a: Cell, b: Cell) {
    if a.Text? then b.Text? && Cleans(args, a.s, b.s) else b == a
  }

  /** The cells of the listed text columns are cleaned, and every other cell stays. */
  ghost predicate CleanedAt(f: Frame, args: OpArgs, g: Frame, i: nat, j: nat)
    requires f.Valid() && args.columns.Listed? && i < |f.rows| == |g.rows| && j < |f.fields| == |g.rows[i]|
  {
    if f.fields[j].name in args.columns.items && f.fields[j].dtype == Utf8
      then CellCleaned(args, f.rows[i][j], g.rows[i][j]) else g.rows[i][j] == f.rows[i][j]
  }

  ghost predicate CleansFrame(f: Frame, args: OpArgs, g: Frame)
    requires f.Valid() && args.columns.Listed?
  {
    && g.fields == f.fields && |g.rows| == |f.rows|
    && (forall i :: 0 <= i < |f.rows| ==> |g.rows[i]| == |f.fields|)
    && forall i, j :: 0 <= i < |f.rows| && 0 <= j < |f.fields| ==> CleanedAt(f, args, g, i, j)
  }

  predicate KnownCase(name: string) { name == "lower" || name == "upper" || name == "title" || name == "preserve" }

  /** What `normalize_text` answers. */
  ghost predicate CleansTexts(f: Frame, args: OpArgs, r: Outcome)
    requires f.Valid()
  {
    if !ColumnsGiven(f, args.columns) then r.Err? && ColumnsRefused(f, args.columns, r.error)
    else if !KnownCase(args.casing) then r == Err(BadCase)
    else
      && r.Ok? && r.value.frame.Some? && CleansFrame(f, args, r.value.frame.value)
      && r.value.summary.TextSummary? && r.value.summary.rowsBefore == r.value.summary.rowsAfter == |f.rows|
      && Reported(f, args.columns.items, r.value.frame.value, r.value.summary.applied)
  }

  ghost predicate IsTextColumn(f: Frame, name: string) {
    exists j :: 0 <= j < |f.fields| && f.fields[j].name == name && f.fields[j].dtype == Utf8
  }

  /** The listed columns that hold texts, in the order of the list. */
  ghost function TextColumns(f: Frame, cols: seq<string>): seq<string> {
    if cols == [] then [] else
      var last := cols[|cols| - 1];
      TextColumns(f, cols[..|cols| - 1]) + if IsTextColumn(f, last) then [last] else []
  }

  /** One entry for every listed text column, in order. */
  ghost predicate Reported(f: Frame, cols: seq<string>, g: Frame, done: seq<Cleaned>)
    requires f.Valid()
  {
    && |done| == |TextColumns(f, cols)|
    && forall k :: 0 <= k < |done| ==> done[k].column == TextColumns(f, cols)[k] && IsEntry(f, cols, g, done[k])
  }

  /** How many different values, a null among them. */
  ghost function Different(cells: seq<Cell>): nat { |set c | c in cells| }

  /** An entry of the report counts the values of a listed text column before and after. */
  ghost predicate EntryOf(f: Frame, g: Frame, e: Cleaned, j: nat)
    requires f.Valid() && j < |f.fields|
  {
    && g.Valid() && j < |g.fields| && e.column == f.fields[j].name && f.fields[j].dtype == Utf8
    && e.distinctBefore == Different(f.Column(j)) && e.distinctAfter == Different(g.Column(j))
    && e.collapsedVariants == e.distinctBefore - e.distinctAfter
  }

  ghost predicate IsEntry(f: Frame, cols: seq<string>, g: Frame, e: Cleaned)
    requires f.Valid()
  {
    e.column in cols && exists j :: 0 <= j < |f.fields| && EntryOf(f, g, e, j)
  }

  lemma DistinctIsDifferent(cells: seq<Cell>)
    ensures NormalizeText.DistinctCount(cells) == Different(cells)
  {
    assert (set i | 0 <= i < |cells| :: cells[i]) == set c | c in cells;
  }

  lemma CellIsCleaned(args: OpArgs, c: Cell)
    requires NormalizeText.CaseOf(args.casing).Some?
    ensures var o := Texts.CleanOptions(args.strip, args.collapseSpaces, NormalizeText.CaseOf(args.casing).value);
            CellCleaned(args, c, NormalizeText.CleanCell(o, c))
  {
    if c.Text? { CleanCleans(args, c.s); }
  }

  lemma FrameIsCleaned(f: Frame, args: OpArgs, o: Texts.CleanOptions)
    requires f.Valid() && args.columns.Listed? && NormalizeText.CaseOf(args.casing).Some?
    requires o == Texts.CleanOptions(args.strip, args.collapseSpaces, NormalizeText.CaseOf(args.casing).value)
    ensures CleansFrame(f, args, NormalizeText.TextLoop(f, args.columns.items, o).frame)
  {
    var g := NormalizeText.TextLoop(f, args.columns.items, o).frame;
    NormalizeText.TextLoopExactly(f, args.columns.items, o);
    forall i, j | 0 <= i < |f.rows| && 0 <= j < |f.fields| ensures CleanedAt(f, args, g, i, j) {
      CellIsCleaned(args, f.rows[i][j]);
    }
  }

  /** The columns of the cleaned frame, one by one. */
  lemma CleanedColumn(f: Frame, cols: seq<string>, o: Texts.CleanOptions, g: Frame, j: nat)
    requires f.Valid() && NormalizeText.CleansExactly(f, cols, o, g) && j < |f.fields|
    requires f.fields[j].name in cols && f.fields[j].dtype == Utf8
    ensures g.Column(j) == NormalizeText.CleanCells(o, f.Column(j))
  {
    forall i | 0 <= i < |f.rows| ensures g.Column(j)[i] == NormalizeText.CleanCells(o, f.Column(j))[i] {
      assert g.rows[i][j] == NormalizeText.CleanCell(o, f.rows[i][j]);
    }
  }

  lemma CleanedTwice(f: Frame, cols: seq<string>, o: Texts.CleanOptions, g: Frame, j: nat)
    requires f.Valid() && NormalizeText.CleansExactly(f, cols, o, g) && j < |f.fields| && f.fields[j].dtype == Utf8
    ensures NormalizeText.CleanCells(o, g.Column(j)) == NormalizeText.CleanCells(o, f.Column(j))
  {
    forall i | 0 <= i < |f.rows|
      ensures NormalizeText.CleanCell(o, g.rows[i][j]) == NormalizeText.CleanCell(o, f.rows[i][j])
    {
      NormalizeText.CleanCellIdempotent(o, f.rows[i][j]);
      assert g.rows[i][j] == NormalizeText.CleanCell(o, f.rows[i][j]) || g.rows[i][j] == f.rows[i][j];
    }
  }

  /** Every entry was made by cleaning its column. */
  lemma {:induction false} EntriesAre(f: Frame, cols: seq<string>, o: Texts.CleanOptions, k: nat) returns (j: nat)
    requires f.Valid() && k < |NormalizeText.TextLoop(f, cols, o).done|
    ensures var e := NormalizeText.TextLoop(f, cols, o).done[k];
            && j < |f.fields| && f.fields[j].dtype == Utf8 && e.column == f.fields[j].name && e.column in cols
            && e.distinctBefore == NormalizeText.DistinctCount(f.Column(j))
            && e.distinctAfter == NormalizeText.DistinctCount(NormalizeText.CleanCells(o, f.Column(j)))
  {
    var n := |cols| - 1;
    var before := NormalizeText.TextLoop(f, cols[..n], o);
    if k < |before.done| {
      j := EntriesAre(f, cols[..n], o, k);
    } else {
      j := Find(f.fields, cols[n]);
      NormalizeText.TextLoopExactly(f, cols[..n], o);
      CleanedTwice(f, cols[..n], o, before.frame, j);
    }
  }

  lemma TextColumnIff(f: Frame, name: string)
    requires f.Valid()
    ensures var j := Find(f.fields, name);
            IsTextColumn(f, name) <==> j < |f.fields| && f.fields[j].dtype == Utf8
  {
    if IsTextColumn(f, name) {
      var j :| 0 <= j < |f.fields| && f.fields[j].name == name && f.fields[j].dtype == Utf8;
      FindFinds(f.fields, j);
    }
  }

  lemma {:induction false} ColumnsReported(f: Frame, cols: seq<string>, o: Texts.CleanOptions)
    requires f.Valid()
    ensures var done := NormalizeText.TextLoop(f, cols, o).done;
            && |done| == |TextColumns(f, cols)|
            && forall k :: 0 <= k < |done| ==> done[k].column == TextColumns(f, cols)[k]
  {
    if cols != [] {
      ColumnsReported(f, cols[..|cols| - 1], o);
      TextColumnIff(f, cols[|cols| - 1]);
    }
  }

  lemma ReportIsRight(f: Frame, cols: seq<string>, o: Texts.CleanOptions, k: nat)
    requires f.Valid() && k < |NormalizeText.TextLoop(f, cols, o).done|
    ensures var p := NormalizeText.TextLoop(f, cols, o); IsEntry(f, cols, p.frame, p.done[k])
  {
    var p := NormalizeText.TextLoop(f, cols, o);
    var j := EntriesAre(f, cols, o, k);
    NormalizeText.TextLoopExactly(f, cols, o);
    NormalizeText.ClampNeverUsed(f, cols, o);
    CleanedColumn(f, cols, o, p.frame, j);
    DistinctIsDifferent(f.Column(j));
    DistinctIsDifferent(p.frame.Column(j));
    assert p.done[k] in p.done && EntryOf(f, p.frame, p.done[k], j);
  }

  /** Whatever it is given, `normalize_text` refuses by name, or cleans exactly the texts of the listed text columns as
      its arguments name it. */
  lemma NormalizeCleansTexts(f: Frame, args: OpArgs)
    requires f.Valid()
    ensures CleansTexts(f, args, NormalizeText.Apply(f, args))
  {
    RequiredColumnsIff(f, args.columns);
    if ColumnsGiven(f, args.columns) && NormalizeText.CaseOf(args.casing).Some? {
      var cols := args.columns.items;
      var o := Texts.CleanOptions(args.strip, args.collapseSpaces, NormalizeText.CaseOf(args.casing).value);
      FrameIsCleaned(f, args, o);
      var p := NormalizeText.TextLoop(f, cols, o);
      ColumnsReported(f, cols, o);
      forall k | 0 <= k < |p.done| ensures IsEntry(f, cols, p.frame, p.done[k]) { ReportIsRight(f, cols, o, k); }
    }
  }
}
