/**
 The slice of a pandas DataFrame the repository touches: labelled, typed
 columns of equal height, and the rows they make when written to a table.
 */
module Frames {

  /** A cell value; only the id column's integers are inspected by the model. */
  datatype Value = IntValue(n: int) | RealValue(x: real) | TextValue(s: string) | BoolValue(b: bool) | NullValue

  /** One column: its label, `str()` of its dtype, and its cells top to bottom. */
  datatype Column = Column(name: string, dtype: string, cells: seq<Value>)

  /** A DataFrame: columns left to right, each `height` cells tall. */
  datatype Frame = Frame(columns: seq<Column>, height: nat)

  predicate WellFormed(f: Frame) {
    forall i :: 0 <= i < |f.columns| ==> |f.columns[i].cells| == f.height
  }

  predicate Distinct<T(==)>(xs: seq<T>) {
    forall i, j :: 0 <= i < j < |xs| ==> xs[i] != xs[j]
  }

  function ColumnNames(cols: seq<Column>): (r: seq<string>)
    ensures |r| == |cols|
    ensures forall i :: 0 <= i < |r| ==> r[i] == cols[i].name
  {
    seq(|cols|, i requires 0 <= i < |cols| => cols[i].name)
  }

  /** `df.columns`. */
  function Names(f: Frame): seq<string>
  {
    ColumnNames(f.columns)
  }

  /** `set(df.columns)`. */
  function NameSet(f: Frame): (r: set<string>)
    ensures forall n :: n in r <==> n in Names(f)
    ensures forall i :: 0 <= i < |f.columns| ==> f.columns[i].name in r
  {
    set i | 0 <= i < |f.columns| :: f.columns[i].name
  }

  /** `df.dtypes.items()`: each label with `str()` of its dtype, left to right. */
  function DtypeItems(f: Frame): (r: seq<(string, string)>)
    ensures |r| == |f.columns|
    ensures forall i :: 0 <= i < |r| ==> r[i] == (f.columns[i].name, f.columns[i].dtype)
  {
    seq(|f.columns|, i requires 0 <= i < |f.columns| => (f.columns[i].name, f.columns[i].dtype))
  }

  /** A stored row: column name to value. */
  type Record = map<string, Value>

  predicate TallerThan(cols: seq<Column>, i: nat) {
    forall j :: 0 <= j < |cols| ==> i < |cols[j].cells|
  }

  /** Row `i` keyed by label; a later column with a repeated label overrides an earlier one. */
  function RowRecord(cols: seq<Column>, i: nat): (r: Record)
    requires TallerThan(cols, i)
    ensures r.Keys == set n | n in ColumnNames(cols)
  {
    if |cols| == 0 then map[]
    else
      var last := cols[|cols| - 1];
      assert ColumnNames(cols) == ColumnNames(cols[..|cols| - 1]) + [last.name];
      RowRecord(cols[..|cols| - 1], i)[last.name := last.cells[i]]
  }

  /** With distinct labels, row `i` maps each label to that column's `i`-th cell. */
  lemma {:induction false} RowRecordLookup(cols: seq<Column>, i: nat, j: nat)
    requires TallerThan(cols, i)
    requires Distinct(ColumnNames(cols))
    requires j < |cols|
    ensures cols[j].name in RowRecord(cols, i)
    ensures RowRecord(cols, i)[cols[j].name] == cols[j].cells[i]
    decreases |cols|
  {
    var n := |cols| - 1;
    if j < n {
      var init := cols[..n];
      assert ColumnNames(cols)[j] != ColumnNames(cols)[n];
      assert ColumnNames(init) == ColumnNames(cols)[..n];
      RowRecordLookup(init, i, j);
    }
  }

  /** `df`'s rows as they are written to a table, top to bottom. */
  function Records(f: Frame): (r: seq<Record>)
    requires WellFormed(f)
    ensures |r| == f.height
  {
    seq(f.height, i requires 0 <= i < f.height => RowRecord(f.columns, i))
  }
}
