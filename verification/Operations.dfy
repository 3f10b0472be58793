/** What an operation is given and what it returns. */
module Operations {
  import opened Wrappers
  import opened Frames

  /** `fillna` strategies; any other string is kept as `Unknown`. */
  datatype Strategy = Auto | Median | Mean | Mode | Constant | DropRow | Unknown(name: string)

  /** The argument dictionary, with the defaults of each operation already filled in. */
  datatype OpArgs = OpArgs(
    columns: ListArg,
    column: Option<string>,
    keep: string,
    normalizeText: bool,
    strategy: Strategy,
    constant: Cell,
    minPctToDrop: real,
    casing: string,
    strip: bool,
    collapseSpaces: bool,
    decimal: string,
    formats: ListArg)

  datatype OperationError =
    | UnknownOperation | ColumnsRequired | ColumnsMissing | ColumnsNotAList
    | BadKeep | BadCase | BadDecimal | BadFormats | UnknownStrategy

  datatype Filled = Filled(column: string, value: Cell, filledCount: nat)

  datatype Converted = Converted(column: string, skipped: bool, decimal: string, convertedCount: nat, failedCount: nat)

  datatype Cleaned = Cleaned(column: string, distinctBefore: nat, distinctAfter: nat, collapsedVariants: nat)

  /** What `matched_format` reports: a format, the type of a column that is skipped, or nothing. */
  datatype Matched = NoFormat | Format(format: string) | Typed(dtype: DType)

  datatype Parsed = Parsed(column: string, matched: Matched, parsedCount: nat, failedCount: nat, skipped: bool)

  datatype Group = Group(key: seq<Cell>, count: nat)

  datatype Summary =
    | DedupeSummary(rowsBefore: nat, rowsAfter: nat, removed: int)
    | DropSummary(rowsBefore: nat, rowsAfter: nat, removed: int)
    | FillSummary(filled: seq<Filled>, totalFilled: nat, rowsBefore: nat, rowsAfter: nat)
    | TextSummary(applied: seq<Cleaned>, rowsBefore: nat, rowsAfter: nat)
    | DatesSummary(dates: seq<Parsed>, rowsBefore: nat, rowsAfter: nat)
    | NumericSummary(results: seq<Converted>, rowsBefore: nat, rowsAfter: nat)
    | ColumnSummary(totalRows: nat, nullCount: nat)
    | PreviewSummary(totalRows: nat, duplicateGroups: nat, totalDuplicates: int, examples: seq<Group>)

  /** `frame` is `None` for the read-only inspections. */
  datatype OperationResult = OperationResult(frame: Option<Frame>, summary: Summary)

  type Outcome = Result<OperationResult, OperationError>

  /** The check that opens every operation with a required column list. */
  function RequiredColumns(f: Frame, columns: ListArg): (r: Result<seq<string>, OperationError>)
    ensures r.Ok? ==> r.value != [] && columns == Listed(r.value) && AllPresent(f, r.value)
    ensures r.Err? ==> !(columns.Listed? && columns.items != [] && AllPresent(f, columns.items))
  {
    match columns
    case Listed(items) =>
      if items == [] then Err(ColumnsRequired)
      else if AllPresent(f, items) then Ok(items)
      else Err(ColumnsMissing)
    case _ => Err(ColumnsRequired)
  }
}
