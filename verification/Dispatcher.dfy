/** The two registries and the lookup that applies an operation by name. */
module Dispatcher {
  import opened Wrappers
  import opened Frames
  import opened Operations
  import Dedupe
  import Fillna
  import FillnaProperties
  import Inspect
  import NormalizeNumeric
  import NormalizeText
  import ParseDates

  const MUTATING: set<string> := {"dedupe", "fillna", "normalize_text", "parse_dates", "normalize_numeric"}

  const READING: set<string> := {"inspect_column", "preview_duplicates"}

  predicate IsMutating(op: string) { op in MUTATING }

  function ApplyOperation(lib: ParseDates.Strptime, op: string, args: OpArgs, f: Frame): Outcome
    requires f.Valid()
  {
    if op == "dedupe" then Dedupe.Apply(f, args)
    else if op == "fillna" then Fillna.Apply(f, args)
    else if op == "normalize_text" then NormalizeText.Apply(f, args)
    else if op == "parse_dates" then ParseDates.Apply(lib, f, args)
    else if op == "normalize_numeric" then NormalizeNumeric.Apply(f, args)
    else if op == "inspect_column" then Inspect.InspectColumn(f, args)
    else if op == "preview_duplicates" then Inspect.PreviewDuplicates(f, args)
    else Err(UnknownOperation)
  }

  /** No operation of either registry answers as an unknown one. */
  lemma OnlyUnknownIsUnknown(lib: ParseDates.Strptime, op: string, args: OpArgs, f: Frame)
    requires f.Valid()
    ensures ApplyOperation(lib, op, args, f) == Err(UnknownOperation) <==> op !in MUTATING && op !in READING
  {
    if op == "fillna" { FillnaProperties.ApplyKnowsItself(f, args); }
  }

  method Dispatch(lib: ParseDates.Strptime, op: string, args: OpArgs, f: Frame) returns (r: Outcome)
    requires f.Valid()
    ensures r == ApplyOperation(lib, op, args, f)
    ensures r == Err(UnknownOperation) <==> op !in MUTATING && op !in READING
    ensures r.Ok? ==> (r.value.frame.Some? <==> IsMutating(op)) && (r.value.frame.Some? ==> r.value.frame.value.Valid())
  {
    OnlyUnknownIsUnknown(lib, op, args, f);
    if ApplyOperation(lib, op, args, f).Ok? { OperationReturns(lib, op, args, f); }
    match op {
      case "dedupe" => r := Dedupe.RunDedupe(f, args);
      case "fillna" => r := Fillna.RunFillna(f, args);
      case "normalize_text" => r := NormalizeText.RunNormalizeText(f, args);
      case "parse_dates" => r := ParseDates.RunParseDates(lib, f, args);
      case "normalize_numeric" => r := NormalizeNumeric.RunNormalizeNumeric(f, args);
      case "inspect_column" => r := Inspect.InspectColumn(f, args);
      case "preview_duplicates" => r := Inspect.RunPreviewDuplicates(f, args);
      case _ => r := Err(UnknownOperation);
    }
  }

  /** A normalised dedupe gets what it takes for granted; other operations take nothing. */
  ghost predicate SafeArgs(f: Frame, op: string, args: OpArgs) {
    op == "dedupe" && args.columns.Listed? ==> Dedupe.Untangled(f, args.columns.items, args.normalizeText)
  }

  /** A mutating operation returns a frame, an inspection none. */
  lemma OperationReturns(lib: ParseDates.Strptime, op: string, args: OpArgs, f: Frame)
    requires f.Valid() && ApplyOperation(lib, op, args, f).Ok?
    ensures var frame := ApplyOperation(lib, op, args, f).value.frame;
            (IsMutating(op) <==> frame.Some?) && (frame.Some? ==> frame.value.Valid())
  {
    if op == "dedupe" { Dedupe.ApplyReturnsFrame(f, args); }
    else if op == "fillna" { FillnaProperties.ApplyReturnsFrame(f, args); }
    else if op == "normalize_text" { TextReturns(f, args); }
    else if op == "parse_dates" { DatesReturn(lib, f, args); }
    else if op == "normalize_numeric" { NumericReturns(f, args); }
    else if op == "inspect_column" { ColumnReturns(f, args); }
    else if op == "preview_duplicates" { PreviewReturns(f, args); }
  }

  lemma TextReturns(f: Frame, args: OpArgs)
    requires f.Valid() && NormalizeText.Apply(f, args).Ok?
    ensures NormalizeText.Apply(f, args).value.frame.Some? && NormalizeText.Apply(f, args).value.frame.value.Valid()
  {
  }

  lemma DatesReturn(lib: ParseDates.Strptime, f: Frame, args: OpArgs)
    requires f.Valid() && ParseDates.Apply(lib, f, args).Ok?
    ensures ParseDates.Apply(lib, f, args).value.frame.Some? && ParseDates.Apply(lib, f, args).value.frame.value.Valid()
  {
  }

  lemma NumericReturns(f: Frame, args: OpArgs)
    requires f.Valid() && NormalizeNumeric.Apply(f, args).Ok?
    ensures NormalizeNumeric.Apply(f, args).value.frame.Some?
         && NormalizeNumeric.Apply(f, args).value.frame.value.Valid()
  {
  }

  lemma ColumnReturns(f: Frame, args: OpArgs)
    requires f.Valid() && Inspect.InspectColumn(f, args).Ok?
    ensures Inspect.InspectColumn(f, args).value.frame.None?
  {
  }

  lemma PreviewReturns(f: Frame, args: OpArgs)
    requires Inspect.PreviewDuplicates(f, args).Ok?
    ensures Inspect.PreviewDuplicates(f, args).value.frame.None?
  {
  }

  /** Every mutating operation keeps the column names and adds no row. */
  lemma OperationShape(lib: ParseDates.Strptime, op: string, args: OpArgs, f: Frame)
    requires f.Valid() && ApplyOperation(lib, op, args, f).Ok? && SafeArgs(f, op, args)
    ensures var frame := ApplyOperation(lib, op, args, f).value.frame;
            frame.Some? ==> frame.value.Names() == f.Names() && |frame.value.rows| <= |f.rows|
  {
    if op == "dedupe" {
      Dedupe.DedupeShape(f, args.columns.items, Dedupe.KeepRule(args.keep).value, args.normalizeText);
    } else if op == "fillna" {
      if args.strategy.DropRow? { FillnaProperties.DropShape(f, args); }
    }
  }

  /** Whether arguments are safe depends on the column names alone. */
  lemma SafetyByNames(f: Frame, g: Frame, op: string, args: OpArgs)
    requires f.Names() == g.Names() && SafeArgs(f, op, args)
    ensures SafeArgs(g, op, args)
  {
    assert |f.fields| == |f.Names()| == |g.fields|;
    forall i | 0 <= i < |f.fields| ensures f.fields[i].name == g.fields[i].name {
      assert f.Names()[i] == g.Names()[i];
    }
    if args.columns.Listed? {
      forall k | 0 <= k < |args.columns.items|
        ensures Has(f, Dedupe.SentinelName(args.columns.items[k])) == Has(g, Dedupe.SentinelName(args.columns.items[k]))
      {
        FindByNames(f.fields, g.fields, Dedupe.SentinelName(args.columns.items[k]));
      }
    }
  }
}
