/**
  The dataframe the upload code works on: a list of column labels and one row per
  record, each row a map from column label to cell. Cells are text, numbers or
  missing (pandas' NaN and Python's None).
 */
module Frames {
  import opened Wrappers

  datatype Value = Str(text: string) | Num(x: real) | Missing

  type Row = map<string, Value>

  datatype Frame = Frame(columns: seq<string>, rows: seq<Row>)

  /** A Python dict in its insertion order, as the header and the keyword arguments are. */
  type Dict = seq<(string, Value)>

  /** The exceptions the modelled code raises. */
  datatype UploadError =
    | KeyError(key: string)                                   // a missing column or dictionary key
    | TypeError(column: string)                               // arithmetic on a text cell
    | HeaderMismatch(key: string, here: Value, there: Value)  // the ValueError raised by check
    | Rejected(row: Row)                                      // the database refused a row

  function ColumnSet(cols: seq<string>): set<string> {
    set c | c in cols
  }

  predicate Distinct(cols: seq<string>) {
    forall i, j :: 0 <= i < j < |cols| ==> cols[i] != cols[j]
  }

  /** Column labels are unique and every row has exactly the frame's columns. */
  predicate WellFormed(f: Frame) {
    && Distinct(f.columns)
    && forall i :: 0 <= i < |f.rows| ==> f.rows[i].Keys == ColumnSet(f.columns)
  }

  /** df[name] as a list of cells. */
  function Column(f: Frame, name: string): (r: seq<Value>)
    requires WellFormed(f) && name in f.columns
    ensures |r| == |f.rows|
    ensures forall i :: 0 <= i < |r| ==> r[i] == f.rows[i][name]
  {
    seq(|f.rows|, i requires 0 <= i < |f.rows| => f.rows[i][name])
  }

  /** df[name] = vals: an existing column keeps its place, a new one is appended. */
  function SetColumn(f: Frame, name: string, vals: seq<Value>): (r: Frame)
    requires WellFormed(f) && |vals| == |f.rows|
    ensures WellFormed(r) && |r.rows| == |f.rows| && name in r.columns
    ensures r.columns == if name in f.columns then f.columns else f.columns + [name]
    ensures forall i :: 0 <= i < |r.rows| ==> r.rows[i] == f.rows[i][name := vals[i]]
  {
    var cols := if name in f.columns then f.columns else f.columns + [name];
    assert ColumnSet(cols) == ColumnSet(f.columns) + {name};
    Frame(cols, seq(|f.rows|, i requires 0 <= i < |f.rows| => f.rows[i][name := vals[i]]))
  }

  /** df[name] = v for a single value v. */
  function SetConstant(f: Frame, name: string, v: Value): (r: Frame)
    requires WellFormed(f)
  {
    SetColumn(f, name, seq(|f.rows|, _ => v))
  }

  /** The dict as a map: a later entry for the same key wins, as in a dict display. */
  function ToMap(d: Dict): map<string, Value> {
    if d == [] then map[] else map[d[0].0 := d[0].1] + ToMap(d[1..])
  }

  /** The frame after `for k, v in d.items(): df[k] = v`. */
  function AssignAll(f: Frame, d: Dict): (r: Frame)
    requires WellFormed(f)
    ensures WellFormed(r) && |r.rows| == |f.rows|
    decreases |d|
  {
    if d == [] then f else AssignAll(SetConstant(f, d[0].0, d[0].1), d[1..])
  }

  /** Assigning a dict column by column keeps the existing columns first, in their order. */
  lemma {:induction false} AssignAllPrefix(f: Frame, d: Dict)
    requires WellFormed(f)
    ensures var r := AssignAll(f, d);
      |f.columns| <= |r.columns| && r.columns[..|f.columns|] == f.columns
    decreases |d|
  {
    if d != [] {
      var g := SetConstant(f, d[0].0, d[0].1);
      AssignAllPrefix(g, d[1..]);
      var r := AssignAll(g, d[1..]);
      assert r == AssignAll(f, d);
      assert g.columns[..|f.columns|] == f.columns;
      assert r.columns[..|f.columns|] == r.columns[..|g.columns|][..|f.columns|];
    }
  }

  /** The columns after assigning a dict are the frame's and the dict's keys. */
  lemma {:induction false} AssignAllColumns(f: Frame, d: Dict)
    requires WellFormed(f)
    ensures ColumnSet(AssignAll(f, d).columns) == ColumnSet(f.columns) + ToMap(d).Keys
    decreases |d|
  {
    if d != [] {
      var g := SetConstant(f, d[0].0, d[0].1);
      AssignAllColumns(g, d[1..]);
      assert AssignAll(g, d[1..]) == AssignAll(f, d);
      assert ColumnSet(g.columns) == ColumnSet(f.columns) + {d[0].0};
      assert ToMap(d).Keys == {d[0].0} + ToMap(d[1..]).Keys;
    }
  }

  /**
    After assigning a dict, every row carries every key with the dict's value and keeps
    its other cells.
   */
  lemma {:induction false} AssignAllRows(f: Frame, d: Dict)
    requires WellFormed(f)
    ensures var r := AssignAll(f, d);
      |r.rows| == |f.rows| && forall i :: 0 <= i < |r.rows| ==> r.rows[i] == f.rows[i] + ToMap(d)
    decreases |d|
  {
    if d != [] {
      var g := SetConstant(f, d[0].0, d[0].1);
      SetConstantRows(f, d[0].0, d[0].1);
      AssignAllRows(g, d[1..]);
      var r := AssignAll(g, d[1..]);
      assert r == AssignAll(f, d);
      forall i | 0 <= i < |r.rows|
        ensures r.rows[i] == f.rows[i] + ToMap(d)
      {
        UpdateThenMerge(f.rows[i], d[0].0, d[0].1, ToMap(d[1..]));
      }
    }
  }

  lemma SetConstantRows(f: Frame, name: string, v: Value)
    requires WellFormed(f)
    ensures var r := SetConstant(f, name, v);
      |r.rows| == |f.rows| && forall i :: 0 <= i < |r.rows| ==> r.rows[i] == f.rows[i][name := v]
  {
  }

  lemma UpdateThenMerge(m: Row, k: string, v: Value, t: Row)
    ensures m[k := v] + t == m + (map[k := v] + t)
  {
  }

  /** `for k, v in d.items(): df[k] = v`, one column at a time. */
  method AssignConstants(f: Frame, d: Dict) returns (r: Frame)
    requires WellFormed(f)
    ensures r == AssignAll(f, d)
  {
    r := f;
    for j := 0 to |d|
      invariant WellFormed(r)
      invariant AssignAll(r, d[j..]) == AssignAll(f, d)
    {
      assert d[j..][1..] == d[j + 1..];
      r := SetConstant(r, d[j].0, d[j].1);
    }
  }

  /** Series.astype(str) on one cell; numText is the text numpy gives a number. */
  function CellText(v: Value, numText: real -> string): string {
    match v
    case Str(s) => s
    case Num(x) => numText(x)
    case Missing => "nan"
  }

  /** One cell of a Series.div(k): NaN stays NaN, text raises TypeError. */
  function DivideCell(v: Value, k: real, column: string): (r: Result<Value, UploadError>)
    requires k != 0.0
    ensures r.Failure? <==> v.Str?
    ensures v.Num? ==> r == Success(Num(v.x / k))
    ensures v.Missing? ==> r == Success(Missing)
  {
    match v
    case Str(_) => Failure(TypeError(column))
    case Num(x) => Success(Num(x / k))
    case Missing => Success(Missing)
  }

  /**
    One cell of a Series subtraction a - b. When the plain subtraction raises, pandas redoes
    it only where neither side is NaN, so NaN on either side gives NaN even beside text;
    text beside a non-missing cell raises TypeError.
   */
  function MinusCell(a: Value, b: Value, column: string): (r: Result<Value, UploadError>)
    ensures r.Failure? <==> (a.Str? || b.Str?) && !a.Missing? && !b.Missing?
    ensures a.Num? && b.Num? ==> r == Success(Num(a.x - b.x))
    ensures a.Missing? || b.Missing? ==> r == Success(Missing)
  {
    if a.Missing? || b.Missing? then Success(Missing)
    else if a.Str? || b.Str? then Failure(TypeError(column))
    else Success(Num(a.x - b.x))
  }
}
