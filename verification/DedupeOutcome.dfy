/** What `dedupe` and `preview_duplicates` return, said of the rows given and nothing else. */
module DedupeOutcome {
  import opened Wrappers
  import opened Frames
  import opened Operations
  import Dedupe
  import Distinct
  import Inspect
  import Texts

  // ---- the check on the columns -------------------------------------------

  ghost predicate IsThere(f: Frame, name: string) { exists j :: 0 <= j < |f.fields| && f.fields[j].name == name }

  /** Every listed name is that of a column. */
  ghost predicate AllThere(f: Frame, cols: seq<string>) { forall k :: 0 <= k < |cols| ==> IsThere(f, cols[k]) }

  /** The refusals that every operation with a required list shares, in their order. */
  ghost predicate ColumnsRefused(f: Frame, columns: ListArg, e: OperationError) {
    if columns.Listed? && columns.items != []
      then !AllThere(f, columns.items) && e == ColumnsMissing else e == ColumnsRequired
  }

  ghost predicate ColumnsGiven(f: Frame, columns: ListArg) {
    columns.Listed? && columns.items != [] && AllThere(f, columns.items)
  }

  lemma HasIsThere(f: Frame, name: string)
    ensures Has(f, name) <==> IsThere(f, name)
  {
    FindMisses(f.fields, name);
  }

  lemma AllThereIff(f: Frame, cols: seq<string>)
    ensures AllPresent(f, cols) <==> AllThere(f, cols)
  {
    forall k | 0 <= k < |cols| ensures Has(f, cols[k]) <==> IsThere(f, cols[k]) { HasIsThere(f, cols[k]); }
  }

  /** The check passes exactly for a non-empty list of columns that are there, and refuses by name. */
  lemma RequiredColumnsIff(f: Frame, columns: ListArg)
    ensures match RequiredColumns(f, columns)
            case Ok(cols) => ColumnsGiven(f, columns) && cols == columns.items
            case Err(e) => !ColumnsGiven(f, columns) && ColumnsRefused(f, columns, e)
  {
    if columns.Listed? { AllThereIff(f, columns.items); }
  }

  // ---- equal rows ---------------------------------------------------------

  /** Equal, or texts of a text column that differ only in case and surrounding whitespace. */
  ghost predicate SameCell(dtype: DType, normalize: bool, a: Cell, b: Cell) {
    || a == b
    || (normalize && dtype.Utf8? && a.Text? && b.Text?
        && Texts.Lower(Texts.Strip(a.s)) == Texts.Lower(Texts.Strip(b.s)))
  }

  /** The same in every listed column. */
  ghost predicate SameRow(f: Frame, cols: seq<string>, normalize: bool, a: Row, b: Row)
    requires |a| == |b| == |f.fields|
  {
    forall j :: 0 <= j < |f.fields| && f.fields[j].name in cols ==> SameCell(f.fields[j].dtype, normalize, a[j], b[j])
  }

  lemma SameCellIff(dtype: DType, normalize: bool, a: Cell, b: Cell)
    ensures SameCell(dtype, normalize, a, b)
       <==> (if normalize then Dedupe.KeyCell(dtype, a) == Dedupe.KeyCell(dtype, b) else a == b)
  {
  }

  lemma SameRowIff(f: Frame, cols: seq<string>, normalize: bool, a: Row, b: Row)
    requires f.Valid() && AllPresent(f, cols) && |a| == |b| == |f.fields|
    ensures SameRow(f, cols, normalize, a, b)
       <==> Dedupe.RowKey(f, cols, normalize)(a) == Dedupe.RowKey(f, cols, normalize)(b)
  {
    var key := Dedupe.RowKey(f, cols, normalize);
    forall k | 0 <= k < |cols|
      ensures var j := Find(f.fields, cols[k]);
              (key(a)[k] == key(b)[k] <==> SameCell(f.fields[j].dtype, normalize, a[j], b[j]))
    {
      var j := Find(f.fields, cols[k]);
      SameCellIff(f.fields[j].dtype, normalize, a[j], b[j]);
    }
    if key(a) == key(b) {
      forall j | 0 <= j < |f.fields| && f.fields[j].name in cols
        ensures SameCell(f.fields[j].dtype, normalize, a[j], b[j])
      {
        var k :| 0 <= k < |cols| && cols[k] == f.fields[j].name;
        FindFinds(f.fields, j);
        assert key(a)[k] == key(b)[k];
      }
    }
    if SameRow(f, cols, normalize, a, b) {
      forall k | 0 <= k < |cols| ensures key(a)[k] == key(b)[k] {
        assert f.fields[Find(f.fields, cols[k])].name in cols;
      }
    }
  }

  // ---- which rows are left ------------------------------------------------

  /** Some row of these is the same as row `i`. */
  ghost predicate HasTwin(f: Frame, cols: seq<string>, normalize: bool, i: nat, from: nat, to: nat)
    requires f.Valid() && i < |f.rows| && to <= |f.rows|
  {
    exists j :: from <= j < to && SameRow(f, cols, normalize, f.rows[j], f.rows[i])
  }

  /** No column is named like a transient one. */
  ghost predicate NoTransient(f: Frame, cols: seq<string>) {
    forall k, j :: 0 <= k < |cols| && 0 <= j < |f.fields| ==> f.fields[j].name != "__norm_" + cols[k] + "__"
  }

  /** Exactly the rows at these places, in order. */
  ghost predicate RowsAt(idx: seq<nat>, rows: seq<Row>, kept: seq<Row>) {
    && Distinct.Increasing(idx) && |idx| == |kept|
    && forall a :: 0 <= a < |idx| ==> idx[a] < |rows| && kept[a] == rows[idx[a]]
  }

  /** With `"first"` a row stays when no earlier row is the same, with `"last"` when no later one is. */
  ghost predicate Stays(f: Frame, cols: seq<string>, normalize: bool, keep: string, i: nat)
    requires f.Valid() && i < |f.rows|
  {
    && (keep == "first" ==> !HasTwin(f, cols, normalize, i, 0, i))
    && (keep == "last" ==> !HasTwin(f, cols, normalize, i, i + 1, |f.rows|))
  }

  ghost predicate KeptAt(f: Frame, args: OpArgs, idx: seq<nat>, r: OperationResult)
    requires f.Valid() && args.columns.Listed?
  {
    && r.frame.Some? && r.frame.value.fields == f.fields && RowsAt(idx, f.rows, r.frame.value.rows)
    && (forall i :: 0 <= i < |f.rows| ==>
          (i in idx <==> Stays(f, args.columns.items, args.normalizeText, args.keep, i)))
    && r.summary == DedupeSummary(|f.rows|, |idx|, |f.rows| - |idx|)
  }

  /** What a dedupe answers. */
  ghost predicate Deduplicates(f: Frame, args: OpArgs, r: Outcome)
    requires f.Valid()
  {
    if !ColumnsGiven(f, args.columns) then r.Err? && ColumnsRefused(f, args.columns, r.error)
    else if args.keep != "first" && args.keep != "last" then r == Err(BadKeep)
    else r.Ok? && exists idx :: KeptAt(f, args, idx, r.value)
  }

  lemma TransientIff(f: Frame, cols: seq<string>)
    requires NoTransient(f, cols)
    ensures Dedupe.NoSentinels(f, cols)
  {
    forall k | 0 <= k < |cols| ensures !Has(f, Dedupe.SentinelName(cols[k])) {
      HasIsThere(f, Dedupe.SentinelName(cols[k]));
    }
  }

  lemma StaysIff(f: Frame, cols: seq<string>, normalize: bool, keep: string, rule: Distinct.Rule, i: nat)
    requires f.Valid() && AllPresent(f, cols) && i < |f.rows| && Dedupe.KeepRule(keep) == Some(rule)
    ensures Distinct.Survives(rule, f.rows, Dedupe.RowKey(f, cols, normalize), i)
       <==> Stays(f, cols, normalize, keep, i)
  {
    forall j | 0 <= j < |f.rows|
      ensures SameRow(f, cols, normalize, f.rows[j], f.rows[i])
              <==> Dedupe.RowKey(f, cols, normalize)(f.rows[j]) == Dedupe.RowKey(f, cols, normalize)(f.rows[i])
    {
      SameRowIff(f, cols, normalize, f.rows[j], f.rows[i]);
    }
  }

  /** Whatever it is given, a dedupe refuses by name, or leaves exactly the rows without an earlier (later) row that is
      the same in the listed columns. */
  lemma DedupeDeduplicates(f: Frame, args: OpArgs)
    requires f.Valid()
    requires args.columns.Listed? && args.normalizeText ==> NoTransient(f, args.columns.items)
    ensures Deduplicates(f, args, Dedupe.Apply(f, args))
  {
    RequiredColumnsIff(f, args.columns);
    if ColumnsGiven(f, args.columns) && Dedupe.KeepRule(args.keep).Some? {
      var idx := SurvivorsAt(f, args);
      assert KeptAt(f, args, idx, Dedupe.Apply(f, args).value);
    }
  }

  lemma SurvivorsAt(f: Frame, args: OpArgs) returns (idx: seq<nat>)
    requires f.Valid() && ColumnsGiven(f, args.columns) && Dedupe.KeepRule(args.keep).Some?
    requires args.normalizeText ==> NoTransient(f, args.columns.items)
    ensures Dedupe.Apply(f, args).Ok? && KeptAt(f, args, idx, Dedupe.Apply(f, args).value)
  {
    var cols, normalize, rule := args.columns.items, args.normalizeText, Dedupe.KeepRule(args.keep).value;
    RequiredColumnsIff(f, args.columns);
    AllThereIff(f, cols);
    if normalize { TransientIff(f, cols); }
    Dedupe.DedupeKeepsRowsByKey(f, cols, rule, normalize);
    idx := Distinct.KeepIsTheSurvivors(rule, f.rows, Dedupe.RowKey(f, cols, normalize));
    forall i | 0 <= i < |f.rows| ensures i in idx <==> Stays(f, cols, normalize, args.keep, i) {
      StaysIff(f, cols, normalize, args.keep, rule, i);
    }
  }

  // ---- what the preview announces -----------------------------------------

  /** The rows that have an earlier twin: what a dedupe by exact values would remove. */
  ghost function Repeats(f: Frame, cols: seq<string>): set<nat>
    requires f.Valid()
  {
    set i: nat | i < |f.rows| && HasTwin(f, cols, false, i, 0, i)
  }

  /** The rows without an earlier twin but with a later one: one for each group of two or more. */
  ghost function Heads(f: Frame, cols: seq<string>): set<nat>
    requires f.Valid()
  {
    set i: nat | i < |f.rows| && !HasTwin(f, cols, false, i, 0, i) && HasTwin(f, cols, false, i, i + 1, |f.rows|)
  }

  ghost predicate Announces(f: Frame, args: OpArgs, r: Outcome)
    requires f.Valid()
  {
    if !ColumnsGiven(f, args.columns) then r.Err? && ColumnsRefused(f, args.columns, r.error)
    else
      && r.Ok? && r.value.frame == None && r.value.summary.PreviewSummary?
      && r.value.summary.totalRows == |f.rows|
      && r.value.summary.totalDuplicates == |Repeats(f, args.columns.items)|
      && r.value.summary.duplicateGroups == |Heads(f, args.columns.items)|
  }

  /** The positions not listed are as many as are left over. */
  lemma {:induction false} LeftOver(idx: seq<nat>, n: nat, rest: set<nat>)
    requires Distinct.Increasing(idx) && forall a :: 0 <= a < |idx| ==> idx[a] < n
    requires forall i: nat :: i in rest <==> i < n && i !in idx
    ensures |rest| == n - |idx|
  {
    if n == 0 {
      assert rest == {};
      Distinct.IncreasingIsShort(idx, 0);
    } else if idx != [] && idx[|idx| - 1] == n - 1 {
      var front := idx[..|idx| - 1];
      assert idx == front + [n - 1];
      LeftOver(front, n - 1, rest);
    } else {
      forall a | 0 <= a < |idx| ensures idx[a] < n - 1 { if a < |idx| - 1 { assert idx[a] < idx[|idx| - 1]; } }
      LeftOver(idx, n - 1, rest - {n - 1});
    }
  }

  lemma {:induction false} NoneCounted(rows: seq<Row>, key: Row -> Row, k: Row)
    requires forall i :: 0 <= i < |rows| ==> key(rows[i]) != k
    ensures Inspect.CountKey(rows, key, k) == 0
  {
    if rows != [] { NoneCounted(rows[..|rows| - 1], key, k); }
  }

  ghost predicate IsFirst(rows: seq<Row>, key: Row -> Row, i: nat)
    requires i < |rows|
  {
    forall j :: 0 <= j < i ==> key(rows[j]) != key(rows[i])
  }

  ghost predicate HasLater(rows: seq<Row>, key: Row -> Row, i: nat)
    requires i < |rows|
  {
    exists j :: i < j < |rows| && key(rows[j]) == key(rows[i])
  }

  lemma LaterSnoc(rows: seq<Row>, key: Row -> Row, i: nat)
    requires i < |rows| - 1
    ensures HasLater(rows, key, i)
       <==> HasLater(rows[..|rows| - 1], key, i) || key(rows[|rows| - 1]) == key(rows[i])
  {
    var n := |rows| - 1;
    assert forall j :: 0 <= j < n ==> rows[..n][j] == rows[j];
    if HasLater(rows[..n], key, i) {
      var j :| i < j < n && key(rows[..n][j]) == key(rows[..n][i]);
      assert key(rows[j]) == key(rows[i]);
    }
  }

  /** From its first row on, a key is counted, and more than once exactly where a later row has it. */
  lemma {:induction false} CountsTwins(rows: seq<Row>, key: Row -> Row, i: nat)
    requires i < |rows| && IsFirst(rows, key, i)
    ensures Inspect.CountKey(rows, key, key(rows[i])) > 0
    ensures Inspect.CountKey(rows, key, key(rows[i])) > 1 <==> HasLater(rows, key, i)
  {
    var n := |rows| - 1;
    var front := rows[..n];
    assert forall j :: 0 <= j < n ==> front[j] == rows[j];
    if i == n {
      NoneCounted(front, key, key(rows[n]));
    } else {
      CountsTwins(front, key, i);
      LaterSnoc(rows, key, i);
    }
  }

  /** The first row with this key. */
  lemma {:induction false} FirstWithKey(rows: seq<Row>, key: Row -> Row, k: Row) returns (i: nat)
    requires Inspect.CountKey(rows, key, k) > 0
    ensures i < |rows| && key(rows[i]) == k && IsFirst(rows, key, i)
  {
    var n := |rows| - 1;
    if Inspect.CountKey(rows[..n], key, k) > 0 {
      i := FirstWithKey(rows[..n], key, k);
      assert forall j :: 0 <= j < n ==> rows[..n][j] == rows[j];
    } else {
      i := n;
      forall j | 0 <= j < n ensures key(rows[j]) != k {
        if key(rows[j]) == k { IsCounted(rows[..n], key, j); }
      }
    }
  }

  lemma {:induction false} IsCounted(rows: seq<Row>, key: Row -> Row, j: nat)
    requires j < |rows|
    ensures Inspect.CountKey(rows, key, key(rows[j])) > 0
  {
    if j < |rows| - 1 {
      assert rows[..|rows| - 1][j] == rows[j];
      IsCounted(rows[..|rows| - 1], key, j);
    }
  }

  /** Heads are told apart by their keys, and every key of a group is that of a head. */
  ghost predicate Matches(groups: seq<Group>, heads: set<nat>, rows: seq<Row>, key: Row -> Row) {
    && (forall a, b :: 0 <= a < b < |groups| ==> groups[a].key != groups[b].key)
    && (forall i :: i in heads ==> i < |rows| && Inspect.Covers(groups, key(rows[i])))
    && (forall i, j :: i in heads && j in heads && key(rows[i]) == key(rows[j]) ==> i == j)
    && (forall a :: 0 <= a < |groups| ==> exists i :: i in heads && key(rows[i]) == groups[a].key)
  }

  lemma {:induction false} AsManyAs(groups: seq<Group>, heads: set<nat>, rows: seq<Row>, key: Row -> Row)
    requires Matches(groups, heads, rows, key)
    ensures |heads| == |groups|
  {
    if groups == [] {
      assert heads == {};
    } else {
      var n := |groups| - 1;
      var i :| i in heads && key(rows[i]) == groups[n].key;
      OneFewer(groups, heads, rows, key, i);
      AsManyAs(groups[..n], heads - {i}, rows, key);
    }
  }

  lemma OneFewer(groups: seq<Group>, heads: set<nat>, rows: seq<Row>, key: Row -> Row, i: nat)
    requires Matches(groups, heads, rows, key) && groups != []
    requires i in heads && key(rows[i]) == groups[|groups| - 1].key
    ensures Matches(groups[..|groups| - 1], heads - {i}, rows, key)
  {
    var n := |groups| - 1;
    var front := groups[..n];
    forall h | h in heads - {i} ensures Inspect.Covers(front, key(rows[h])) {
      assert Inspect.Covers(groups, key(rows[h]));
      var a :| 0 <= a < |groups| && groups[a].key == key(rows[h]);
      assert front[a].key == key(rows[h]);
    }
    forall a | 0 <= a < n ensures exists h :: h in heads - {i} && key(rows[h]) == front[a].key {
      var h :| h in heads && key(rows[h]) == groups[a].key;
      assert h in heads - {i};
    }
  }

  ghost predicate KeysApart(groups: seq<Group>) {
    forall a, b :: 0 <= a < b < |groups| ==> groups[a].key != groups[b].key
  }

  lemma {:induction false} DuplicatedApart(groups: seq<Group>)
    requires KeysApart(groups)
    ensures KeysApart(Inspect.Duplicated(groups))
  {
    if groups != [] {
      var front, last := groups[..|groups| - 1], groups[|groups| - 1];
      DuplicatedApart(front);
      Inspect.DuplicatedIsFilter(front);
      var d := Inspect.Duplicated(front);
      forall a | 0 <= a < |d| ensures d[a].key != last.key { assert d[a] in front; }
    }
  }

  /** The first rows of the keys that are counted more than once. */
  ghost function KeyHeads(rows: seq<Row>, key: Row -> Row): set<nat> {
    set i: nat | i < |rows| && IsFirst(rows, key, i) && HasLater(rows, key, i)
  }

  lemma HeadIsCovered(rows: seq<Row>, key: Row -> Row, i: nat)
    requires i in KeyHeads(rows, key)
    ensures Inspect.Covers(Inspect.Duplicated(Inspect.Grouped(rows, key)), key(rows[i]))
  {
    var groups := Inspect.Grouped(rows, key);
    var d := Inspect.Duplicated(groups);
    CountsTwins(rows, key, i);
    Inspect.GroupedIsGroups(rows, key);
    Inspect.DuplicatedIsFilter(groups);
    Distinct.InKeySet(rows, key, key(rows[i]));
    assert Inspect.Covers(groups, key(rows[i]));
    var a :| 0 <= a < |groups| && groups[a].key == key(rows[i]);
    assert groups[a] in d;
    var b :| 0 <= b < |d| && d[b] == groups[a];
  }

  lemma GroupHasHead(rows: seq<Row>, key: Row -> Row, g: Group) returns (i: nat)
    requires g in Inspect.Duplicated(Inspect.Grouped(rows, key))
    ensures i in KeyHeads(rows, key) && key(rows[i]) == g.key
  {
    var groups := Inspect.Grouped(rows, key);
    Inspect.GroupedIsGroups(rows, key);
    Inspect.DuplicatedIsFilter(groups);
    assert g in groups;
    i := FirstWithKey(rows, key, g.key);
    CountsTwins(rows, key, i);
  }

  /** One head for each duplicated group. */
  lemma HeadsAreGroups(rows: seq<Row>, key: Row -> Row)
    ensures |KeyHeads(rows, key)| == |Inspect.SortGroups(Inspect.Duplicated(Inspect.Grouped(rows, key)))|
  {
    var groups, heads := Inspect.Grouped(rows, key), KeyHeads(rows, key);
    var d := Inspect.Duplicated(groups);
    Inspect.GroupedIsGroups(rows, key);
    DuplicatedApart(groups);
    Inspect.ExcessOfSort(d);
    forall i | i in heads ensures Inspect.Covers(d, key(rows[i])) { HeadIsCovered(rows, key, i); }
    forall a | 0 <= a < |d| ensures exists i :: i in heads && key(rows[i]) == d[a].key {
      var i := GroupHasHead(rows, key, d[a]);
    }
    assert KeysApart(d) && Matches(d, heads, rows, key);
    AsManyAs(d, heads, rows, key);
  }

  lemma HeadsByKey(f: Frame, cols: seq<string>)
    requires f.Valid() && AllPresent(f, cols)
    ensures Heads(f, cols) == KeyHeads(f.rows, Dedupe.RowKey(f, cols, false))
  {
    var key := Dedupe.RowKey(f, cols, false);
    forall i: nat | i < |f.rows| ensures
        && (!HasTwin(f, cols, false, i, 0, i) <==> IsFirst(f.rows, key, i))
        && (HasTwin(f, cols, false, i, i + 1, |f.rows|) <==> HasLater(f.rows, key, i))
    {
      forall j | 0 <= j < |f.rows|
        ensures SameRow(f, cols, false, f.rows[j], f.rows[i]) <==> key(f.rows[j]) == key(f.rows[i])
      {
        SameRowIff(f, cols, false, f.rows[j], f.rows[i]);
      }
    }
  }

  /** The preview of a frame counts its rows and those with an earlier twin, and changes nothing. */
  lemma PreviewAnnounces(f: Frame, args: OpArgs)
    requires f.Valid()
    ensures Announces(f, args, Inspect.PreviewDuplicates(f, args))
  {
    RequiredColumnsIff(f, args.columns);
    if ColumnsGiven(f, args.columns) {
      var cols := args.columns.items;
      var key := Dedupe.RowKey(f, cols, false);
      AllThereIff(f, cols);
      Inspect.PreviewCounts(f, cols);
      Distinct.KeepKeepsKeys(Distinct.First, f.rows, key);
      var idx := Distinct.KeepIsTheSurvivors(Distinct.First, f.rows, key);
      forall i: nat ensures i in Repeats(f, cols) <==> i < |f.rows| && i !in idx {
        if i < |f.rows| { StaysIff(f, cols, false, "first", Distinct.First, i); }
      }
      LeftOver(idx, |f.rows|, Repeats(f, cols));
      HeadsByKey(f, cols);
      HeadsAreGroups(f.rows, key);
    }
  }
}
