/** The read-only inspections. `preview_duplicates` announces what a dedupe would remove. */
module Inspect {
  import opened Wrappers
  import opened Frames
  import opened Operations
  import Distinct
  import Dedupe
  import Texts

  const PREVIEW_GROUPS: nat := 8

  // ---- group_by(cols).agg(len) --------------------------------------------

  function KeyPosition(groups: seq<Group>, key: seq<Cell>): (m: nat)
    ensures m <= |groups| && (m < |groups| ==> groups[m].key == key)
  {
    if groups == [] || groups[0].key == key then 0 else 1 + KeyPosition(groups[1..], key)
  }

  lemma {:induction false} KeyPositionMisses(groups: seq<Group>, key: seq<Cell>)
    requires KeyPosition(groups, key) == |groups|
    ensures forall m :: 0 <= m < |groups| ==> groups[m].key != key
  {
    if groups != [] {
      KeyPositionMisses(groups[1..], key);
      assert forall m :: 0 < m < |groups| ==> groups[m] == groups[1..][m - 1];
    }
  }

  /** One more row with this key. */
  function Bump(groups: seq<Group>, key: seq<Cell>): seq<Group> {
    var m := KeyPosition(groups, key);
    if m < |groups| then groups[m := Group(key, groups[m].count + 1)] else groups + [Group(key, 1)]
  }

  function Grouped(rows: seq<Row>, key: Row -> Row): seq<Group> {
    if rows == [] then [] else Bump(Grouped(rows[..|rows| - 1], key), key(rows[|rows| - 1]))
  }

  function CountKey(rows: seq<Row>, key: Row -> Row, k: Row): nat {
    if rows == [] then 0
    else CountKey(rows[..|rows| - 1], key, k) + if key(rows[|rows| - 1]) == k then 1 else 0
  }

  function TotalCount(groups: seq<Group>): nat {
    if groups == [] then 0 else TotalCount(groups[..|groups| - 1]) + groups[|groups| - 1].count
  }

  ghost predicate Covers(groups: seq<Group>, k: Row) {
    exists a :: 0 <= a < |groups| && groups[a].key == k
  }

  /** One group per key, counted exactly. */
  ghost predicate GroupsOf(rows: seq<Row>, key: Row -> Row, groups: seq<Group>) {
    && (forall a, b :: 0 <= a < b < |groups| ==> groups[a].key != groups[b].key)
    && (forall a :: 0 <= a < |groups| ==> groups[a].count == CountKey(rows, key, groups[a].key) > 0)
    && (forall k :: k in Distinct.KeySet(rows, key) ==> Covers(groups, k))
  }

  lemma {:induction false} TotalCountUpdate(groups: seq<Group>, m: nat, g: Group)
    requires m < |groups|
    ensures TotalCount(groups[m := g]) == TotalCount(groups) - groups[m].count + g.count
  {
    var n := |groups| - 1;
    if m < n {
      assert groups[m := g][..n] == groups[..n][m := g];
      TotalCountUpdate(groups[..n], m, g);
    } else {
      assert groups[m := g][..n] == groups[..n];
    }
  }

  lemma {:induction false} GroupedIsGroups(rows: seq<Row>, key: Row -> Row)
    ensures GroupsOf(rows, key, Grouped(rows, key))
    ensures TotalCount(Grouped(rows, key)) == |rows|
    ensures |Grouped(rows, key)| == |Distinct.KeySet(rows, key)|
  {
    if rows != [] {
      var n := |rows| - 1;
      var before, k := rows[..n], key(rows[n]);
      var groups := Grouped(before, key);
      GroupedIsGroups(before, key);
      Distinct.KeySetSnoc(rows, key);
      Distinct.OneMore(Distinct.KeySet(before, key), k);
      var m := KeyPosition(groups, k);
      if m < |groups| {
        BumpOldKey(rows, key, groups, m);
      } else {
        KeyPositionMisses(groups, k);
        BumpNewKey(rows, key, groups);
      }
    }
  }

  lemma BumpOldKey(rows: seq<Row>, key: Row -> Row, groups: seq<Group>, m: nat)
    requires rows != [] && GroupsOf(rows[..|rows| - 1], key, groups)
    requires m < |groups| && groups[m].key == key(rows[|rows| - 1])
    ensures var after := groups[m := Group(groups[m].key, groups[m].count + 1)];
            && GroupsOf(rows, key, after) && TotalCount(after) == TotalCount(groups) + 1
            && groups[m].key in Distinct.KeySet(rows[..|rows| - 1], key)
  {
    var before, after := rows[..|rows| - 1], groups[m := Group(groups[m].key, groups[m].count + 1)];
    TotalCountUpdate(groups, m, after[m]);
    CountedKeyIsThere(before, key, groups[m].key);
    Distinct.KeySetSnoc(rows, key);
    assert forall a :: 0 <= a < |groups| ==> after[a].key == groups[a].key;
    forall k | k in Distinct.KeySet(rows, key) ensures Covers(after, k) {
      assert Covers(groups, k);
      var a :| 0 <= a < |groups| && groups[a].key == k;
      assert after[a].key == k;
    }
  }

  lemma BumpNewKey(rows: seq<Row>, key: Row -> Row, groups: seq<Group>)
    requires rows != [] && GroupsOf(rows[..|rows| - 1], key, groups)
    requires forall m :: 0 <= m < |groups| ==> groups[m].key != key(rows[|rows| - 1])
    ensures var after := groups + [Group(key(rows[|rows| - 1]), 1)];
            && GroupsOf(rows, key, after) && TotalCount(after) == TotalCount(groups) + 1
            && key(rows[|rows| - 1]) !in Distinct.KeySet(rows[..|rows| - 1], key)
  {
    var before, newKey := rows[..|rows| - 1], key(rows[|rows| - 1]);
    var after := groups + [Group(newKey, 1)];
    assert after[..|groups|] == groups;
    assert !Covers(groups, newKey);
    NewKeyCount(before, key, newKey);
    Distinct.KeySetSnoc(rows, key);
    assert after[|groups|].key == newKey;
    forall k | k in Distinct.KeySet(rows, key) ensures Covers(after, k) {
      if k != newKey {
        assert Covers(groups, k);
        var a :| 0 <= a < |groups| && groups[a].key == k;
        assert after[a].key == k;
      }
    }
  }

  lemma {:induction false} CountedKeyIsThere(rows: seq<Row>, key: Row -> Row, k: Row)
    requires CountKey(rows, key, k) > 0
    ensures k in Distinct.KeySet(rows, key)
  {
    if key(rows[|rows| - 1]) != k { CountedKeyIsThere(rows[..|rows| - 1], key, k); }
    Distinct.KeySetSnoc(rows, key);
  }

  lemma {:induction false} NewKeyCount(rows: seq<Row>, key: Row -> Row, k: Row)
    requires k !in Distinct.KeySet(rows, key)
    ensures CountKey(rows, key, k) == 0
  {
    if rows != [] {
      Distinct.KeySetSnoc(rows, key);
      NewKeyCount(rows[..|rows| - 1], key, k);
    }
  }

  // ---- filter, sort, sum --------------------------------------------------

  function Duplicated(groups: seq<Group>): seq<Group> {
    if groups == [] then []
    else Duplicated(groups[..|groups| - 1]) + if groups[|groups| - 1].count > 1 then [groups[|groups| - 1]] else []
  }

  /** Insert after every group that is at least as large. */
  function InsertGroup(g: Group, sorted: seq<Group>): seq<Group> {
    if sorted == [] || sorted[0].count < g.count then [g] + sorted
    else [sorted[0]] + InsertGroup(g, sorted[1..])
  }

  function SortGroups(groups: seq<Group>): seq<Group> {
    if groups == [] then [] else InsertGroup(groups[|groups| - 1], SortGroups(groups[..|groups| - 1]))
  }

  /** The sum of `count - 1`. */
  function Excess(groups: seq<Group>): int {
    if groups == [] then 0 else Excess(groups[..|groups| - 1]) + groups[|groups| - 1].count - 1
  }

  ghost predicate Descending(groups: seq<Group>) {
    forall a, b :: 0 <= a < b < |groups| ==> groups[a].count >= groups[b].count
  }

  lemma {:induction false} InsertGroupPermutes(g: Group, sorted: seq<Group>)
    ensures multiset(InsertGroup(g, sorted)) == multiset(sorted) + multiset{g}
  {
    if sorted != [] && sorted[0].count >= g.count {
      InsertGroupPermutes(g, sorted[1..]);
      assert sorted == [sorted[0]] + sorted[1..];
    }
  }

  lemma {:induction false} InsertGroupSorts(g: Group, sorted: seq<Group>)
    requires Descending(sorted)
    ensures Descending(InsertGroup(g, sorted))
    ensures forall b :: 0 <= b < |InsertGroup(g, sorted)| ==>
              InsertGroup(g, sorted)[b] == g || InsertGroup(g, sorted)[b] in sorted
  {
    if sorted != [] && sorted[0].count >= g.count {
      InsertGroupSorts(g, sorted[1..]);
      var rest := InsertGroup(g, sorted[1..]);
      forall b | 0 <= b < |rest| ensures rest[b].count <= sorted[0].count && (rest[b] == g || rest[b] in sorted) {
        if rest[b] != g {
          var a :| 0 <= a < |sorted[1..]| && sorted[1..][a] == rest[b];
          assert sorted[a + 1] == rest[b];
        }
      }
    }
  }

  lemma {:induction false} SortGroupsSorts(groups: seq<Group>)
    ensures Descending(SortGroups(groups)) && multiset(SortGroups(groups)) == multiset(groups)
  {
    if groups != [] {
      var n := |groups| - 1;
      SortGroupsSorts(groups[..n]);
      InsertGroupSorts(groups[n], SortGroups(groups[..n]));
      InsertGroupPermutes(groups[n], SortGroups(groups[..n]));
      assert groups == groups[..n] + [groups[n]];
    }
  }

  lemma {:induction false} ExcessOfInsert(g: Group, sorted: seq<Group>)
    ensures Excess(InsertGroup(g, sorted)) == Excess(sorted) + g.count - 1
    ensures |InsertGroup(g, sorted)| == |sorted| + 1
  {
    ExcessCons(g, sorted);
    if sorted != [] && sorted[0].count >= g.count {
      ExcessOfInsert(g, sorted[1..]);
      ExcessCons(sorted[0], InsertGroup(g, sorted[1..]));
      ExcessCons(sorted[0], sorted[1..]);
      assert sorted == [sorted[0]] + sorted[1..];
    }
  }

  lemma {:induction false} ExcessCons(g: Group, groups: seq<Group>)
    ensures Excess([g] + groups) == g.count - 1 + Excess(groups)
  {
    if groups != [] {
      ExcessCons(g, groups[..|groups| - 1]);
      assert ([g] + groups)[..|groups|] == [g] + groups[..|groups| - 1];
    } else {
      assert ([g] + groups)[..0] == [];
    }
  }

  lemma {:induction false} ExcessOfSort(groups: seq<Group>)
    ensures Excess(SortGroups(groups)) == Excess(groups) && |SortGroups(groups)| == |groups|
  {
    if groups != [] {
      ExcessOfSort(groups[..|groups| - 1]);
      ExcessOfInsert(groups[|groups| - 1], SortGroups(groups[..|groups| - 1]));
    }
  }

  /** Groups of one row add nothing, so the excess of the duplicated groups is rows minus keys. */
  lemma {:induction false} ExcessOfDuplicated(groups: seq<Group>)
    requires forall a :: 0 <= a < |groups| ==> groups[a].count > 0
    ensures Excess(Duplicated(groups)) == TotalCount(groups) - |groups|
  {
    if groups != [] {
      var n := |groups| - 1;
      ExcessOfDuplicated(groups[..n]);
      if groups[n].count > 1 {
        assert (Duplicated(groups[..n]) + [groups[n]])[..|Duplicated(groups[..n])|] == Duplicated(groups[..n]);
      } else {
        assert Duplicated(groups) == Duplicated(groups[..n]);
      }
    }
  }

  lemma {:induction false} DuplicatedIsFilter(groups: seq<Group>)
    ensures forall g :: g in Duplicated(groups) <==> g in groups && g.count > 1
  {
    if groups != [] {
      DuplicatedIsFilter(groups[..|groups| - 1]);
      assert groups == groups[..|groups| - 1] + [groups[|groups| - 1]];
    }
  }

  // ---- the two inspections ------------------------------------------------

  function PreviewSummaryOf(f: Frame, cols: seq<string>): Summary {
    var groups := SortGroups(Duplicated(Grouped(f.rows, Dedupe.RowKey(f, cols, false))));
    PreviewSummary(f.Height(), |groups|, Excess(groups),
                   if |groups| <= PREVIEW_GROUPS then groups else groups[..PREVIEW_GROUPS])
  }

  function PreviewDuplicates(f: Frame, args: OpArgs): Outcome {
    match RequiredColumns(f, args.columns)
    case Err(e) => Err(e)
    case Ok(cols) => Ok(OperationResult(None, PreviewSummaryOf(f, cols)))
  }

  method GroupBy(rows: seq<Row>, key: Row -> Row) returns (groups: seq<Group>)
    ensures groups == Grouped(rows, key)
  {
    groups := [];
    for i := 0 to |rows|
      invariant groups == Grouped(rows[..i], key)
    {
      assert rows[..i + 1][..i] == rows[..i];
      groups := Bump(groups, key(rows[i]));
    }
    assert rows[..|rows|] == rows;
  }

  method FilterDuplicated(groups: seq<Group>) returns (r: seq<Group>)
    ensures r == Duplicated(groups)
  {
    r := [];
    for i := 0 to |groups|
      invariant r == Duplicated(groups[..i])
    {
      assert groups[..i + 1][..i] == groups[..i];
      if groups[i].count > 1 { r := r + [groups[i]]; }
    }
    assert groups[..|groups|] == groups;
  }

  method SumExcess(groups: seq<Group>) returns (total: int)
    ensures total == Excess(groups)
  {
    total := 0;
    for i := 0 to |groups|
      invariant total == Excess(groups[..i])
    {
      assert groups[..i + 1][..i] == groups[..i];
      total := total + groups[i].count - 1;
    }
    assert groups[..|groups|] == groups;
  }

  method RunPreviewDuplicates(f: Frame, args: OpArgs) returns (r: Outcome)
    ensures r == PreviewDuplicates(f, args)
  {
    var checked := RequiredColumns(f, args.columns);
    if checked.Err? { return Err(checked.error); }
    var groups := GroupBy(f.rows, Dedupe.RowKey(f, checked.value, false));
    groups := FilterDuplicated(groups);
    groups := SortGroups(groups);
    var totalDuplicates := SumExcess(groups);
    var examples: seq<Group> := [];
    for i := 0 to if |groups| <= PREVIEW_GROUPS then |groups| else PREVIEW_GROUPS
      invariant examples == groups[..i]
    {
      examples := examples + [groups[i]];
    }
    assert groups[..|groups|] == groups;
    r := Ok(OperationResult(None, PreviewSummary(f.Height(), |groups|, totalDuplicates, examples)));
  }

  function InspectColumn(f: Frame, args: OpArgs): Outcome
    requires f.Valid()
  {
    if args.column.None? || !Has(f, args.column.value) then Err(ColumnsMissing)
    else
      var cells := f.Column(Find(f.fields, args.column.value));
      Ok(OperationResult(None, ColumnSummary(f.Height(), NullCount(cells))))
  }

  // ---- agreement with dedupe ----------------------------------------------

  /** `total_duplicates` is the number of rows that are not the one their key keeps. */
  lemma PreviewCounts(f: Frame, cols: seq<string>)
    ensures var key := Dedupe.RowKey(f, cols, false);
            PreviewSummaryOf(f, cols).totalDuplicates == |f.rows| - |Distinct.KeySet(f.rows, key)|
  {
    var groups := Grouped(f.rows, Dedupe.RowKey(f, cols, false));
    GroupedIsGroups(f.rows, Dedupe.RowKey(f, cols, false));
    ExcessOfDuplicated(groups);
    ExcessOfSort(Duplicated(groups));
  }

  /** The sorted list holds exactly the keys carried by two rows or more, with their counts. */
  lemma SortedGroupsAreDuplicates(rows: seq<Row>, key: Row -> Row)
    ensures var sorted := SortGroups(Duplicated(Grouped(rows, key)));
            && Descending(sorted)
            && (forall g :: g in sorted ==> g.count == CountKey(rows, key, g.key) > 1)
            && (forall i :: 0 <= i < |rows| && CountKey(rows, key, key(rows[i])) > 1 ==>
                  Group(key(rows[i]), CountKey(rows, key, key(rows[i]))) in sorted)
  {
    var groups := Grouped(rows, key);
    var sorted := SortGroups(Duplicated(groups));
    GroupedIsGroups(rows, key);
    DuplicatedIsFilter(groups);
    SortGroupsSorts(Duplicated(groups));
    forall g ensures g in sorted <==> g in groups && g.count > 1 {
      assert g in sorted <==> g in multiset(sorted);
      assert g in Duplicated(groups) <==> g in multiset(Duplicated(groups));
    }
    forall i | 0 <= i < |rows| && CountKey(rows, key, key(rows[i])) > 1
      ensures Group(key(rows[i]), CountKey(rows, key, key(rows[i]))) in sorted
    {
      Distinct.InKeySet(rows, key, key(rows[i]));
      assert Covers(groups, key(rows[i]));
      var a :| 0 <= a < |groups| && groups[a].key == key(rows[i]);
      assert groups[a] == Group(key(rows[i]), CountKey(rows, key, key(rows[i])));
    }
  }

  /** The examples are the largest duplicated groups, largest first, with their exact sizes. */
  lemma PreviewExamplesAreLargest(f: Frame, cols: seq<string>)
    ensures var s, key := PreviewSummaryOf(f, cols), Dedupe.RowKey(f, cols, false);
            && |s.examples| == (if s.duplicateGroups <= PREVIEW_GROUPS then s.duplicateGroups else PREVIEW_GROUPS)
            && Descending(s.examples)
            && (forall g :: g in s.examples ==> g.count == CountKey(f.rows, key, g.key) > 1)
            && (forall i :: 0 <= i < |f.rows| && CountKey(f.rows, key, key(f.rows[i])) > 1 ==>
                  || Group(key(f.rows[i]), CountKey(f.rows, key, key(f.rows[i]))) in s.examples
                  || (|s.examples| == PREVIEW_GROUPS
                      && forall g :: g in s.examples ==> CountKey(f.rows, key, key(f.rows[i])) <= g.count))
  {
    var s, key := PreviewSummaryOf(f, cols), Dedupe.RowKey(f, cols, false);
    SortedGroupsAreDuplicates(f.rows, key);
    var sorted := SortGroups(Duplicated(Grouped(f.rows, key)));
    assert forall g :: g in s.examples ==> g in sorted;
    forall i | 0 <= i < |f.rows| && CountKey(f.rows, key, key(f.rows[i])) > 1
      ensures || Group(key(f.rows[i]), CountKey(f.rows, key, key(f.rows[i]))) in s.examples
              || (|s.examples| == PREVIEW_GROUPS
                  && forall g :: g in s.examples ==> CountKey(f.rows, key, key(f.rows[i])) <= g.count)
    {
      BeyondTheHead(sorted, s.examples, Group(key(f.rows[i]), CountKey(f.rows, key, key(f.rows[i]))));
    }
  }

  lemma BeyondTheHead(sorted: seq<Group>, head: seq<Group>, g: Group)
    requires Descending(sorted) && g in sorted && head <= sorted
    ensures g in head || (|head| < |sorted| && forall h :: h in head ==> g.count <= h.count)
  {
    var b :| 0 <= b < |sorted| && sorted[b] == g;
    if b < |head| { assert head[b] == g; }
  }

  /** Under either keep rule, an exact dedupe removes exactly what the preview announced. */
  lemma PreviewAgreesWithDedupe(f: Frame, args: OpArgs)
    requires f.Valid() && Dedupe.Apply(f, args).Ok? && !args.normalizeText
    ensures PreviewDuplicates(f, args).Ok?
    ensures PreviewDuplicates(f, args).value.summary.totalDuplicates == Dedupe.Apply(f, args).value.summary.removed
  {
    var cols, rule := args.columns.items, Dedupe.KeepRule(args.keep).value;
    PreviewCounts(f, cols);
    Dedupe.DedupeKeepsRowsByKey(f, cols, rule, false);
    Distinct.KeepKeepsKeys(rule, f.rows, Dedupe.RowKey(f, cols, false));
  }

  /** Rows the normalised key calls equal are equal already. */
  ghost predicate NormalisingMergesNothing(f: Frame, cols: seq<string>) {
    forall i, j :: 0 <= i < |f.rows| && 0 <= j < |f.rows|
      && Dedupe.RowKey(f, cols, true)(f.rows[i]) == Dedupe.RowKey(f, cols, true)(f.rows[j])
      ==> Dedupe.RowKey(f, cols, false)(f.rows[i]) == Dedupe.RowKey(f, cols, false)(f.rows[j])
  }

  /** The preview ignores `normalize_text`: it never announces more than such a dedupe removes,
      and announces exactly that when, and only when, normalising merges no two distinct keys. */
  lemma PreviewBoundsNormalisedDedupe(f: Frame, args: OpArgs)
    requires f.Valid() && Dedupe.Apply(f, args).Ok? && args.normalizeText
    requires Dedupe.Untangled(f, args.columns.items, true)
    ensures var announced, removed :=
              PreviewSummaryOf(f, args.columns.items).totalDuplicates, Dedupe.Apply(f, args).value.summary.removed;
            announced <= removed && (announced == removed <==> NormalisingMergesNothing(f, args.columns.items))
  {
    var cols := args.columns.items;
    PreviewCounts(f, cols);
    Dedupe.DedupeRemoves(f, args);
    Dedupe.RowKeyRefines(f, cols, false, cols, true);
    Distinct.CoarserHasFewerKeys(f.rows, Dedupe.RowKey(f, cols, false), Dedupe.RowKey(f, cols, true));
  }

  /** Two rows, "Ana" and "ana ", in one text column. */
  const NAMES: Frame := Frame([Field("name", Utf8)], [[Text("Ana")], [Text("ana ")]])

  lemma NamesKeys()
    ensures Dedupe.RowKey(NAMES, ["name"], false)(NAMES.rows[0]) == [Text("Ana")]
    ensures Dedupe.RowKey(NAMES, ["name"], false)(NAMES.rows[1]) == [Text("ana ")]
    ensures Dedupe.RowKey(NAMES, ["name"], true)(NAMES.rows[0]) == Dedupe.RowKey(NAMES, ["name"], true)(NAMES.rows[1])
  {
    SameName();
    assert Find(NAMES.fields, "name") == 0;
  }

  lemma SameName()
    ensures Texts.Lower(Texts.Strip("Ana")) == "ana" == Texts.Lower(Texts.Strip("ana "))
  {
    assert "Ana" == "" + "Ana" + "";
    Texts.StripIsUnique("Ana", "", "Ana", "");
    assert "ana " == "" + "ana" + " ";
    Texts.StripIsUnique("ana ", "", "ana", " ");
  }

  lemma NamesAreUntangled()
    ensures NAMES.Valid() && AllPresent(NAMES, ["name"]) && Dedupe.Untangled(NAMES, ["name"], true)
  {
    assert Find(NAMES.fields, "name") == 0;
    assert |Dedupe.SentinelName("name")| > |"name"|;
    FindMisses(NAMES.fields, Dedupe.SentinelName("name"));
  }

  /** A frame where the preview announces nothing and a normalised dedupe with the same arguments removes a row. */
  lemma PreviewMissesSpellings(args: OpArgs)
    requires args.columns == Listed(["name"]) && args.normalizeText && Dedupe.KeepRule(args.keep).Some?
    ensures NAMES.Valid() && Dedupe.Apply(NAMES, args).Ok? && PreviewDuplicates(NAMES, args).Ok?
    ensures PreviewDuplicates(NAMES, args).value.summary.totalDuplicates == 0
    ensures Dedupe.Apply(NAMES, args).value.summary.removed == 1
  {
    NamesAreUntangled();
    NamesKeys();
    PreviewCounts(NAMES, ["name"]);
    Dedupe.DedupeRemoves(NAMES, args);
    var exact, loose := Dedupe.RowKey(NAMES, ["name"], false), Dedupe.RowKey(NAMES, ["name"], true);
    TwoKeys(NAMES.rows, exact);
    TwoKeys(NAMES.rows, loose);
    assert exact(NAMES.rows[0])[0].s[0] != exact(NAMES.rows[1])[0].s[0];
  }

  lemma TwoKeys(rows: seq<Row>, key: Row -> Row)
    requires |rows| == 2
    ensures |Distinct.KeySet(rows, key)| == if key(rows[0]) == key(rows[1]) then 1 else 2
  {
    assert Distinct.KeySet(rows, key) == {key(rows[0]), key(rows[1])};
  }
}
