/** Tables as the transform engine sees them: named, typed columns over rows of optional cells. */
module Frames {

  /** `Null` is a missing value; `Opaque` stands for any dtype the operations only copy. */
  datatype Cell = Null | Num(x: real) | Text(s: string) | Stamp(t: int) | Opaque(v: int)

  datatype DType = Numeric | Utf8 | Datetime | Other

  datatype Field = Field(name: string, dtype: DType)

  type Row = seq<Cell>

  datatype Frame = Frame(fields: seq<Field>, rows: seq<Row>) {

    /** Rectangular, with distinct column names. */
    ghost predicate Valid() {
      && DistinctNames(fields)
      && (forall i :: 0 <= i < |rows| ==> |rows[i]| == |fields|)
    }

    function Height(): nat { |rows| }

    function Width(): nat { |fields| }

    function Names(): seq<string> {
      seq(|fields|, j requires 0 <= j < |fields| => fields[j].name)
    }

    function Column(j: nat): (cells: seq<Cell>)
      requires Valid() && j < |fields|
      ensures |cells| == |rows|
    {
      seq(|rows|, i requires 0 <= i < |rows| => rows[i][j])
    }
  }

  ghost predicate DistinctNames(fields: seq<Field>) {
    forall i, j :: 0 <= i < j < |fields| ==> fields[i].name != fields[j].name
  }

  /** The position of the first column with this name, or the number of columns when there is none. */
  function Find(fields: seq<Field>, name: string): (j: nat)
    ensures j <= |fields| && (j < |fields| ==> fields[j].name == name)
  {
    if fields == [] || fields[0].name == name then 0 else 1 + Find(fields[1..], name)
  }

  predicate Has(f: Frame, name: string) { Find(f.fields, name) < |f.fields| }

  lemma {:induction false} FindFinds(fields: seq<Field>, j: nat)
    requires DistinctNames(fields) && j < |fields|
    ensures Find(fields, fields[j].name) == j
  {
    if j > 0 { FindFinds(fields[1..], j - 1); }
  }

  lemma {:induction false} FindMisses(fields: seq<Field>, name: string)
    ensures Find(fields, name) == |fields| <==> forall i :: 0 <= i < |fields| ==> fields[i].name != name
  {
    if fields != [] {
      FindMisses(fields[1..], name);
      assert forall i :: 0 < i < |fields| ==> fields[i] == fields[1..][i - 1];
    }
  }

  /** Names alone decide where a column is found. */
  lemma {:induction false} FindByNames(a: seq<Field>, b: seq<Field>, name: string)
    requires |a| == |b| && forall i :: 0 <= i < |a| ==> a[i].name == b[i].name
    ensures Find(a, name) == Find(b, name)
  {
    if a != [] { FindByNames(a[1..], b[1..], name); }
  }

  /** `columns` and `formats` come from a JSON dictionary: the key may be absent or hold a non-list. */
  datatype ListArg = Absent | NotAList | Listed(items: seq<string>)

  predicate AllPresent(f: Frame, cols: seq<string>) {
    forall k :: 0 <= k < |cols| ==> Has(f, cols[k])
  }

  ghost predicate NoRepeats(cols: seq<string>) {
    forall i, j :: 0 <= i < j < |cols| ==> cols[i] != cols[j]
  }

  function Indices(f: Frame, cols: seq<string>): (idx: seq<nat>)
    ensures |idx| == |cols|
  {
    seq(|cols|, k requires 0 <= k < |cols| => Find(f.fields, cols[k]))
  }

  /** `with_columns` on a column that exists: the values and the dtype change, the position does not. */
  function ReplaceColumn(f: Frame, j: nat, dtype: DType, cells: seq<Cell>): (r: Frame)
    requires f.Valid() && j < |f.fields| && |cells| == |f.rows|
    ensures r.Valid() && |r.rows| == |f.rows|
  {
    Frame(f.fields[j := Field(f.fields[j].name, dtype)],
          seq(|f.rows|, i requires 0 <= i < |f.rows| => f.rows[i][j := cells[i]]))
  }

  lemma ColumnOfReplaced(f: Frame, c: nat, dtype: DType, cells: seq<Cell>, j: nat)
    requires f.Valid() && c < |f.fields| && j < |f.fields| && |cells| == |f.rows|
    ensures ReplaceColumn(f, c, dtype, cells).Column(j) == if j == c then cells else f.Column(j)
  {
  }

  /** Column `j` is among the listed ones and one more. */
  lemma ListedOneMore(f: Frame, cols: seq<string>, col: string, j: nat)
    requires f.Valid() && j < |f.fields|
    ensures f.fields[j].name in cols + [col] <==> f.fields[j].name in cols || j == Find(f.fields, col)
  {
    if f.fields[j].name == col { FindFinds(f.fields, j); }
  }

  /** `with_columns` on any name: a new name is added on the right. */
  function WithColumn(f: Frame, name: string, dtype: DType, cells: seq<Cell>): (r: Frame)
    requires f.Valid() && |cells| == |f.rows|
    ensures r.Valid() && |r.rows| == |f.rows|
  {
    var j := Find(f.fields, name);
    if j < |f.fields| then ReplaceColumn(f, j, dtype, cells)
    else
      FindMisses(f.fields, name);
      Frame(f.fields + [Field(name, dtype)],
            seq(|f.rows|, i requires 0 <= i < |f.rows| => f.rows[i] + [cells[i]]))
  }

  /** Cells of one column that are not null, in row order. */
  function NonNull(cells: seq<Cell>): (r: seq<Cell>)
    ensures |r| <= |cells|
  {
    if cells == [] then []
    else if cells[0].Null? then NonNull(cells[1..])
    else [cells[0]] + NonNull(cells[1..])
  }

  function NullCount(cells: seq<Cell>): (n: nat)
    ensures n == |cells| - |NonNull(cells)|
  {
    if cells == [] then 0 else (if cells[0].Null? then 1 else 0) + NullCount(cells[1..])
  }
}
