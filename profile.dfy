/**
  Uploading one hand-measured or penetrometer profile (UploadProfileData): reading the
  layer table and standardising its depths, checking the file header against the site
  details, and building, for each measured quantity, the frame of rows to submit.
 */
module Profile {
  import opened Wrappers
  import opened Text
  import opened Frames
  import opened Upload

  datatype DepthFormat = SnowHeight | SurfaceDatum

  /** standardize_depth(depths, desired_format, is_smp), whose body is not part of this model. */
  type Standardizer = (seq<Value>, DepthFormat, bool) -> seq<Value>

  /** The one thing assumed of standardize_depth: one depth out for each depth in. */
  ghost predicate KeepsLength(standardize: Standardizer) {
    forall d, fmt, smp :: |standardize(d, fmt, smp)| == |d|
  }

  /** Series.div(k) on a whole column: fails on the first text cell. */
  function DivideAll(vals: seq<Value>, k: real, column: string): (r: Result<seq<Value>, UploadError>)
    requires k != 0.0
    ensures r.Success? <==> forall i :: 0 <= i < |vals| ==> !vals[i].Str?
    ensures r.Success? ==> |r.value| == |vals| && forall i :: 0 <= i < |vals| ==> r.value[i] == DivideCell(vals[i], k, column).value
    decreases |vals|
  {
    if vals == [] then Success([])
    else
      var head :- DivideCell(vals[0], k, column);
      var tail :- DivideAll(vals[1..], k, column);
      Success([head] + tail)
  }

  /**
    Series subtraction a - b, cell by cell; fails when some text cell, on either side, is
    paired with a cell that is not missing.
   */
  function MinusAll(a: seq<Value>, b: seq<Value>, column: string): (r: Result<seq<Value>, UploadError>)
    requires |a| == |b|
    ensures r.Success? <==> forall i :: 0 <= i < |a| ==> a[i].Missing? || b[i].Missing? || (!a[i].Str? && !b[i].Str?)
    ensures r.Success? ==> |r.value| == |a| && forall i :: 0 <= i < |a| ==> r.value[i] == MinusCell(a[i], b[i], column).value
    decreases |a|
  {
    if a == [] then Success([])
    else
      var head :- MinusCell(a[0], b[0], column);
      var tail :- MinusAll(a[1..], b[1..], column);
      Success([head] + tail)
  }

  /** A penetrometer (SMP) profile is recognised by its force column. */
  predicate IsSmp(raw: Frame) {
    "force" in raw.columns
  }

  function FormatFor(smp: bool): (r: DepthFormat)
    ensures r == SurfaceDatum <==> smp
  {
    if smp then SurfaceDatum else SnowHeight
  }

  /**
    The depths handed to standardize_depth: divided by 10 (millimetres to centimetres)
    exactly when the profile is a penetrometer profile, and untouched otherwise.
   */
  function DepthInput(raw: Frame): (r: Result<seq<Value>, UploadError>)
    requires WellFormed(raw) && "depth" in raw.columns
    ensures r.Failure? <==> IsSmp(raw) && exists i :: 0 <= i < |raw.rows| && raw.rows[i]["depth"].Str?
    ensures r.Success? ==> |r.value| == |raw.rows|
    ensures r.Success? && IsSmp(raw) ==>
      forall i :: 0 <= i < |raw.rows| ==> r.value[i] == DivideCell(raw.rows[i]["depth"], 10.0, "depth").value
    ensures r.Success? && !IsSmp(raw) ==> forall i :: 0 <= i < |raw.rows| ==> r.value[i] == raw.rows[i]["depth"]
  {
    if IsSmp(raw) then DivideAll(Column(raw, "depth"), 10.0, "depth") else Success(Column(raw, "depth"))
  }

  /** df['bottom_depth'] - (depth - new_depth): the bottom moves by as much as the top. */
  function ShiftBottom(f: Frame, depth: seq<Value>, newDepth: seq<Value>): (r: Result<Frame, UploadError>)
    requires WellFormed(f) && "bottom_depth" in f.columns
    requires |depth| == |f.rows| && |newDepth| == |f.rows|
    ensures r.Success? ==> WellFormed(r.value) && r.value.columns == f.columns && |r.value.rows| == |f.rows|
    ensures r.Success? ==> forall i, c :: 0 <= i < |f.rows| && c in f.rows[i] && c != "bottom_depth" ==>
      r.value.rows[i][c] == f.rows[i][c]
    ensures r.Success? <==> forall i :: 0 <= i < |f.rows| ==> Shiftable(f.rows[i]["bottom_depth"], depth[i], newDepth[i])
    ensures r.Success? ==> forall i :: 0 <= i < |f.rows| ==>
      r.value.rows[i]["bottom_depth"] == ShiftedCell(f.rows[i]["bottom_depth"], depth[i], newDepth[i])
  {
    var delta :- MinusAll(depth, newDepth, "depth");
    var bottom :- MinusAll(Column(f, "bottom_depth"), delta, "bottom_depth");
    var r := SetColumn(f, "bottom_depth", bottom);
    assert forall i :: 0 <= i < |f.rows| ==> r.rows[i]["bottom_depth"] == ShiftedCell(f.rows[i]["bottom_depth"], depth[i], newDepth[i]) by {
      forall i | 0 <= i < |f.rows|
        ensures r.rows[i]["bottom_depth"] == ShiftedCell(f.rows[i]["bottom_depth"], depth[i], newDepth[i])
      {
        assert bottom[i] == MinusCell(f.rows[i]["bottom_depth"], delta[i], "bottom_depth").value;
      }
    }
    Success(r)
  }

  /**
    Whether b - (d - nd) raises nothing: a missing depth or new depth makes the change
    missing, and so the bottom too, whatever the other cells hold; otherwise all three
    cells must be free of text.
   */
  predicate Shiftable(b: Value, d: Value, nd: Value) {
    d.Missing? || nd.Missing? || (!d.Str? && !nd.Str? && !b.Str?)
  }

  /** One bottom cell after the shift, as pandas computes b - (d - nd). */
  function ShiftedCell(b: Value, d: Value, nd: Value): (r: Value)
    requires Shiftable(b, d, nd)
    ensures b.Num? && d.Num? && nd.Num? ==> r == Num(b.x - (d.x - nd.x))
    ensures b.Missing? || d.Missing? || nd.Missing? ==> r == Missing
  {
    MinusCell(b, MinusCell(d, nd, "depth").value, "bottom_depth").value
  }

  /**
    The table _read returns: a missing depth column raises KeyError; otherwise the depths
    are standardised in the format the profile kind calls for, and every other column but
    bottom_depth keeps its cells.
   */
  function ReadProfile(raw: Frame, standardize: Standardizer): (r: Result<Frame, UploadError>)
    requires WellFormed(raw) && KeepsLength(standardize)
    ensures "depth" !in raw.columns ==> r == Failure(KeyError("depth"))
    ensures "depth" in raw.columns && DepthInput(raw).Failure? ==> r.Failure?
    ensures r.Success? ==> WellFormed(r.value) && r.value.columns == raw.columns && |r.value.rows| == |raw.rows|
  {
    if "depth" !in raw.columns then Failure(KeyError("depth"))
    else
      var depth :- DepthInput(raw);
      var f := if IsSmp(raw) then SetColumn(raw, "depth", depth) else raw;
      var newDepth := standardize(depth, FormatFor(IsSmp(raw)), IsSmp(raw));
      var g :- if "bottom_depth" in raw.columns then ShiftBottom(f, depth, newDepth) else Success(f);
      if HasText(newDepth) then Failure(TypeError("depth"))
      else Success(SetColumn(g, "depth", newDepth))
  }

  /**
    The depth range _read logs subtracts the smallest depth from the largest, which raises
    TypeError when a standardised depth is text: _read succeeds only with no text depth left.
   */
  lemma ReadDepthNotText(raw: Frame, standardize: Standardizer)
    requires WellFormed(raw) && KeepsLength(standardize)
    ensures (&& "depth" in raw.columns && DepthInput(raw).Success?
             && HasText(standardize(DepthInput(raw).value, FormatFor(IsSmp(raw)), IsSmp(raw))))
      ==> ReadProfile(raw, standardize).Failure?
    ensures var r := ReadProfile(raw, standardize);
      r.Success? ==> forall i :: 0 <= i < |r.value.rows| ==> !r.value.rows[i]["depth"].Str?
  {
    var r := ReadProfile(raw, standardize);
    if r.Success? {
      ReadProfileCells(raw, standardize);
      var newDepth := standardize(DepthInput(raw).value, FormatFor(IsSmp(raw)), IsSmp(raw));
      assert !HasText(newDepth);
      forall i | 0 <= i < |r.value.rows| ensures !r.value.rows[i]["depth"].Str? {
        assert r.value.rows[i]["depth"] == newDepth[i];
      }
    }
  }

  /**
    After _read, depth holds the standardised depths, in the format the profile kind calls
    for, and every other column but bottom_depth keeps its cells.
   */
  lemma ReadProfileCells(raw: Frame, standardize: Standardizer)
    requires WellFormed(raw) && KeepsLength(standardize) && ReadProfile(raw, standardize).Success?
    ensures var r := ReadProfile(raw, standardize).value;
      var newDepth := standardize(DepthInput(raw).value, FormatFor(IsSmp(raw)), IsSmp(raw));
      forall i :: 0 <= i < |raw.rows| ==> r.rows[i]["depth"] == newDepth[i]
    ensures var r := ReadProfile(raw, standardize).value;
      forall i, c :: 0 <= i < |raw.rows| && c in raw.rows[i] && c != "depth" && c != "bottom_depth" ==>
        r.rows[i][c] == raw.rows[i][c]
  {
    ReadSteps(raw, standardize);
    var depth := DepthInput(raw).value;
    var f := if IsSmp(raw) then SetColumn(raw, "depth", depth) else raw;
    var newDepth := standardize(depth, FormatFor(IsSmp(raw)), IsSmp(raw));
    if "bottom_depth" in raw.columns {
      ShiftThenSet(f, depth, newDepth);
    }
  }

  /** _read, when it succeeds, spelled out step by step. */
  lemma ReadSteps(raw: Frame, standardize: Standardizer)
    requires WellFormed(raw) && KeepsLength(standardize) && ReadProfile(raw, standardize).Success?
    ensures "depth" in raw.columns && DepthInput(raw).Success?
    ensures var depth := DepthInput(raw).value;
      var f := if IsSmp(raw) then SetColumn(raw, "depth", depth) else raw;
      var newDepth := standardize(depth, FormatFor(IsSmp(raw)), IsSmp(raw));
      && |newDepth| == |raw.rows|
      && (forall i, c :: 0 <= i < |raw.rows| && c in raw.rows[i] && c != "depth" ==> c in f.rows[i] && f.rows[i][c] == raw.rows[i][c])
      && ("bottom_depth" !in raw.columns ==> ReadProfile(raw, standardize).value == SetColumn(f, "depth", newDepth))
      && ("bottom_depth" in raw.columns ==>
            && ShiftBottom(f, depth, newDepth).Success?
            && ReadProfile(raw, standardize).value == SetColumn(ShiftBottom(f, depth, newDepth).value, "depth", newDepth))
  {
  }

  /** Setting depth after the bottom shift keeps every cell of f but depth and bottom_depth. */
  lemma ShiftThenSet(f: Frame, depth: seq<Value>, newDepth: seq<Value>)
    requires WellFormed(f) && "bottom_depth" in f.columns && |depth| == |f.rows| && |newDepth| == |f.rows|
    requires ShiftBottom(f, depth, newDepth).Success?
    ensures var r := SetColumn(ShiftBottom(f, depth, newDepth).value, "depth", newDepth);
      forall i, c :: 0 <= i < |f.rows| && c in f.rows[i] && c != "depth" && c != "bottom_depth" ==>
        r.rows[i][c] == f.rows[i][c]
  {
  }

  /**
    When bottom_depth is present, each layer keeps its thickness: after standardisation
    depth - bottom_depth is what it was before (after the division by 10); a missing
    cell on either side leaves the bottom missing.
   */
  lemma ReadKeepsThickness(raw: Frame, standardize: Standardizer, i: int)
    requires WellFormed(raw) && KeepsLength(standardize) && "bottom_depth" in raw.columns
    requires ReadProfile(raw, standardize).Success? && 0 <= i < |raw.rows|
    ensures var before, bottom := DepthInput(raw).value[i], raw.rows[i]["bottom_depth"];
      var after := ReadProfile(raw, standardize).value.rows[i];
      && (before.Num? && after["depth"].Num? && bottom.Num? ==>
            after["bottom_depth"].Num? && after["depth"].x - after["bottom_depth"].x == before.x - bottom.x)
      && (before.Missing? || after["depth"].Missing? || bottom.Missing? ==> after["bottom_depth"].Missing?)
  {
    ReadSteps(raw, standardize);
    var depth := DepthInput(raw).value;
    var f := if IsSmp(raw) then SetColumn(raw, "depth", depth) else raw;
    var newDepth := standardize(depth, FormatFor(IsSmp(raw)), IsSmp(raw));
    ShiftKeepsThickness(f, depth, newDepth, i);
  }

  /**
    A layer with no depth and a text bottom: the depth change is NaN, so the bottom becomes
    NaN instead of raising, and _read succeeds.
   */
  lemma ReadTextBottomBesideMissing()
    ensures var raw := Frame(["depth", "bottom_depth"], [map["depth" := Missing, "bottom_depth" := Str("n/a")]]);
      var r := ReadProfile(raw, (d, fmt, smp) => d);
      r.Success? && r.value.rows[0]["bottom_depth"] == Missing && r.value.rows[0]["depth"] == Missing
  {
    var raw := Frame(["depth", "bottom_depth"], [map["depth" := Missing, "bottom_depth" := Str("n/a")]]);
    var id: Standardizer := (d, fmt, smp) => d;
    assert ColumnSet(raw.columns) == {"depth", "bottom_depth"};
    assert WellFormed(raw);
    assert Column(raw, "depth") == [Missing];
    assert Shiftable(Str("n/a"), Missing, Missing);
    ReadProfileCells(raw, id);
    ReadKeepsThickness(raw, id, 0);
  }

  /** The bottom moves by as much as the top, in one row. */
  lemma ShiftKeepsThickness(f: Frame, depth: seq<Value>, newDepth: seq<Value>, i: int)
    requires WellFormed(f) && "bottom_depth" in f.columns && |depth| == |f.rows| && |newDepth| == |f.rows|
    requires ShiftBottom(f, depth, newDepth).Success? && 0 <= i < |f.rows|
    ensures var before, bottom := depth[i], f.rows[i]["bottom_depth"];
      var after := SetColumn(ShiftBottom(f, depth, newDepth).value, "depth", newDepth).rows[i];
      && (before.Num? && after["depth"].Num? && bottom.Num? ==>
            after["bottom_depth"].Num? && after["depth"].x - after["bottom_depth"].x == before.x - bottom.x)
      && (before.Missing? || after["depth"].Missing? || bottom.Missing? ==> after["bottom_depth"].Missing?)
  {
  }

  /** The profile uploader's table, which _read fills in when the uploader is made. */
  class ProfileUploader {
    var df: Frame

    constructor ()
      ensures df == Frame([], [])
    {
      df := Frame([], []);
    }

    /**
      _read on the table read_csv produced: on success df is the standardised table, and
      on an exception df is left as it was.
     */
    method Read(raw: Frame, standardize: Standardizer) returns (err: Option<UploadError>)
      requires WellFormed(raw) && KeepsLength(standardize)
      modifies this`df
      ensures var r := ReadProfile(raw, standardize);
        && (r.Success? ==> err.None? && df == r.value)
        && (r.Failure? ==> err == Some(r.error) && df == old(df))
    {
      if "depth" !in raw.columns {
        return Some(KeyError("depth"));
      }
      var table := raw;
      var format := SnowHeight;
      var smp := false;
      if "force" in table.columns {
        var divided := DivideAll(Column(table, "depth"), 10.0, "depth");
        if divided.Failure? {
          return Some(divided.error);
        }
        table := SetColumn(table, "depth", divided.value);
        smp := true;
        format := SurfaceDatum;
      }
      assert Column(table, "depth") == DepthInput(raw).value;
      var newDepth := standardize(Column(table, "depth"), format, smp);
      if "bottom_depth" in table.columns {
        var delta := MinusAll(Column(table, "depth"), newDepth, "depth");
        if delta.Failure? {
          return Some(delta.error);
        }
        assert Column(table, "bottom_depth") == Column(raw, "bottom_depth");
        var bottom := MinusAll(Column(table, "bottom_depth"), delta.value, "bottom_depth");
        if bottom.Failure? {
          return Some(bottom.error);
        }
        table := SetColumn(table, "bottom_depth", bottom.value);
      }
      if HasText(newDepth) {
        return Some(TypeError("depth"));
      }
      table := SetColumn(table, "depth", newDepth);
      df := table;
      err := None;
    }
  }

  /** hdr.check_integrity(site_info), whose body is not part of this model: the mismatching keys. */
  type IntegrityCheck = (Dict, map<string, Value>) -> Dict

  /**
    check: raises exactly when check_integrity reports a mismatch. The exception names the
    first reported key; it is the ValueError quoting both values when both dictionaries
    hold that key, and the KeyError from looking it up otherwise.
   */
  function Check(info: Dict, siteInfo: map<string, Value>, checkIntegrity: IntegrityCheck): (r: Outcome<UploadError>)
    ensures r.Pass? <==> checkIntegrity(info, siteInfo) == []
    ensures r.Fail? ==> var k := checkIntegrity(info, siteInfo)[0].0;
      r.error == if k in ToMap(info) && k in siteInfo then HeaderMismatch(k, ToMap(info)[k], siteInfo[k]) else KeyError(k)
  {
    var mismatch := checkIntegrity(info, siteInfo);
    if mismatch == [] then Pass
    else
      var k := mismatch[0].0;
      var header := ToMap(info);
      if k !in header || k !in siteInfo then Fail(KeyError(k))
      else Fail(HeaderMismatch(k, header[k], siteInfo[k]))
  }

  /** The frame after copying the header onto every row and setting `type`. */
  function Assigned(df: Frame, info: Dict, name: string): (r: Frame)
    requires WellFormed(df)
    ensures WellFormed(r) && |r.rows| == |df.rows|
    ensures ColumnSet(r.columns) == ColumnSet(df.columns) + ToMap(info).Keys + {"type"}
    ensures forall i :: 0 <= i < |r.rows| ==> r.rows[i] == (df.rows[i] + ToMap(info))["type" := Str(name)]
  {
    AssignAllColumns(df, info);
    AssignAllRows(df, info);
    var f := AssignAll(df, info);
    SetConstantRows(f, "type", Str(name));
    SetConstant(f, "type", Str(name))
  }

  /** The columns whose label contains kw, in frame order. */
  function SampleColumns(cols: seq<string>, kw: string): (r: seq<string>)
    ensures forall c :: c in r ==> c in cols
    decreases |cols|
  {
    if cols == [] then []
    else
      var rest := SampleColumns(cols[1..], kw);
      if Contains(cols[0], kw) then [cols[0]] + rest else rest
  }

  /** The sample columns are exactly the labels containing kw, kept in frame order. */
  lemma {:induction false} SampleColumnsSelect(cols: seq<string>, kw: string)
    ensures var r := SampleColumns(cols, kw);
      && (forall c :: c in r <==> c in cols && Contains(c, kw))
      && IsSubsequence(r, cols)
    decreases |cols|
  {
    if cols != [] {
      SampleColumnsSelect(cols[1..], kw);
    }
  }

  /** A sample column's label is at least as long as the keyword it contains. */
  lemma {:induction false} SampleColumnsLong(cols: seq<string>, kw: string)
    ensures forall c :: c in SampleColumns(cols, kw) ==> |c| >= |kw|
    decreases |cols|
  {
    if cols != [] {
      SampleColumnsLong(cols[1..], kw);
      if Contains(cols[0], kw) {
        IndexOfSpec(cols[0], kw);
        var k := IndexOf(cols[0], kw).value;
        assert MatchAt(cols[0], kw, k);
      }
    }
  }

  /** The cells of a row under the given columns. */
  function Cells(row: Row, cols: seq<string>): (r: seq<Value>)
    requires forall c :: c in cols ==> c in row
    ensures |r| == |cols| && forall j :: 0 <= j < |cols| ==> r[j] == row[cols[j]]
  {
    seq(|cols|, j requires 0 <= j < |cols| => row[cols[j]])
  }

  function NumSum(cells: seq<Value>): real
    decreases |cells|
  {
    if cells == [] then 0.0 else (if cells[0].Num? then cells[0].x else 0.0) + NumSum(cells[1..])
  }

  function NumCount(cells: seq<Value>): nat
    decreases |cells|
  {
    if cells == [] then 0 else (if cells[0].Num? then 1 else 0) + NumCount(cells[1..])
  }

  predicate HasText(cells: seq<Value>) {
    exists j :: 0 <= j < |cells| && cells[j].Str?
  }

  /**
    mean(axis=1) over one row of sample cells: missing cells are skipped, no number at all
    gives NaN (None here), and a text cell raises TypeError.
   */
  function SampleMean(cells: seq<Value>, column: string): (r: Result<Option<real>, UploadError>)
    ensures r.Failure? <==> HasText(cells)
    ensures r.Success? && r.value.None? <==> !HasText(cells) && NumCount(cells) == 0
  {
    if HasText(cells) then Failure(TypeError(column))
    else if NumCount(cells) == 0 then Success(None)
    else Success(Some(NumSum(cells) / (NumCount(cells) as real)))
  }

  lemma {:induction false} NumSumBounds(cells: seq<Value>, lo: real, hi: real)
    requires forall j :: 0 <= j < |cells| && cells[j].Num? ==> lo <= cells[j].x <= hi
    ensures lo * (NumCount(cells) as real) <= NumSum(cells) <= hi * (NumCount(cells) as real)
    decreases |cells|
  {
    if cells != [] {
      var rest := cells[1..];
      assert forall j :: 0 <= j < |rest| ==> rest[j] == cells[j + 1];
      NumSumBounds(rest, lo, hi);
      var n := NumCount(rest) as real;
      var s := NumSum(rest);
      if cells[0].Num? {
        assert NumCount(cells) as real == n + 1.0 && NumSum(cells) == cells[0].x + s;
        assert lo * (n + 1.0) == lo * n + lo && hi * (n + 1.0) == hi * n + hi;
      } else {
        assert NumCount(cells) as real == n && NumSum(cells) == s;
      }
    }
  }

  lemma DivBetween(s: real, n: real, lo: real, hi: real)
    requires n > 0.0 && lo * n <= s <= hi * n
    ensures lo <= s / n <= hi
  {
  }

  /** The mean lies between the smallest and the largest sample. */
  lemma MeanBounds(cells: seq<Value>, column: string, lo: real, hi: real)
    requires forall j :: 0 <= j < |cells| && cells[j].Num? ==> lo <= cells[j].x <= hi
    requires SampleMean(cells, column).Success? && SampleMean(cells, column).value.Some?
    ensures lo <= SampleMean(cells, column).value.value <= hi
  {
    NumSumBounds(cells, lo, hi);
    DivBetween(NumSum(cells), NumCount(cells) as real, lo, hi);
  }

  /** The density profile's two samples and a missing third give their average. */
  lemma DensityMean()
    ensures SampleMean([Num(190.0), Num(245.0), Missing], "density_sample") == Success(Some(217.5))
  {
    var cells := [Num(190.0), Num(245.0), Missing];
    assert cells[1..] == [Num(245.0), Missing];
    assert cells[1..][1..] == [Missing];
    assert cells[1..][1..][1..] == [];
    assert !HasText(cells) by {
      forall j | 0 <= j < |cells| ensures !cells[j].Str? {
      }
    }
  }

  /** The label a sample column is copied to: `<name>_sample` replaced by `sample`. */
  function Rename(s: string, kw: string): string
    requires |kw| > 0
  {
    Replace(s, kw, "sample")
  }

  /** The (source, target) label of each copy, in the order of the sample columns. */
  function Copies(cols: seq<string>, kw: string): (r: seq<(string, string)>)
    requires |kw| > 0
    ensures |r| == |cols| && forall j :: 0 <= j < |cols| ==> r[j].0 == cols[j]
    decreases |cols|
  {
    if cols == [] then [] else [(cols[0], Rename(cols[0], kw))] + Copies(cols[1..], kw)
  }

  /** Each sample column is paired with its renamed label. */
  lemma {:induction false} CopiesRenamed(cols: seq<string>, kw: string)
    requires |kw| > 0
    ensures var r := Copies(cols, kw);
      forall j :: 0 <= j < |cols| ==> r[j] == (cols[j], Rename(cols[j], kw))
    decreases |cols|
  {
    if cols != [] {
      CopiesRenamed(cols[1..], kw);
      var r := Copies(cols, kw);
      forall j | 1 <= j < |cols| ensures r[j] == (cols[j], Rename(cols[j], kw)) {
        assert r[j] == Copies(cols[1..], kw)[j - 1];
        assert cols[j] == cols[1..][j - 1];
      }
    }
  }

  /** Every copy of a sample column carries `sample` in its label. */
  lemma CopiesMarked(cols: seq<string>, kw: string)
    requires |kw| > 0 && forall s :: s in cols ==> Contains(s, kw)
    ensures forall p :: p in Copies(cols, kw) ==> Contains(p.1, "sample")
  {
    CopiesRenamed(cols, kw);
    forall p | p in Copies(cols, kw) ensures Contains(p.1, "sample") {
      var j :| 0 <= j < |cols| && Copies(cols, kw)[j] == p;
      ReplaceInserts(cols[j], kw, "sample");
    }
  }

  predicate SourcesIn(copies: seq<(string, string)>, f: Frame) {
    forall p :: p in copies ==> p.0 in f.columns
  }

  /** df[target] = df[source] for each copy in turn. */
  function CopySamples(f: Frame, copies: seq<(string, string)>): (r: Frame)
    requires WellFormed(f) && SourcesIn(copies, f)
    ensures WellFormed(r) && |r.rows| == |f.rows|
    ensures forall c :: c in f.columns ==> c in r.columns
    decreases |copies|
  {
    if copies == [] then f
    else
      var g := SetColumn(f, copies[0].1, Column(f, copies[0].0));
      assert forall p :: p in copies[1..] ==> p in copies;
      CopySamples(g, copies[1..])
  }

  /** The labels the copies write to. */
  function Targets(copies: seq<(string, string)>): set<string> {
    set p | p in copies :: p.1
  }

  /** Every column of r is a column of f or a target of the copies. */
  predicate AddsOnly(f: Frame, r: Frame, copies: seq<(string, string)>) {
    forall c :: c in r.columns ==> c in f.columns || c in Targets(copies)
  }

  /** The only columns the copies add are their targets. */
  lemma {:induction false} CopySamplesAdds(f: Frame, copies: seq<(string, string)>)
    requires WellFormed(f) && SourcesIn(copies, f)
    ensures AddsOnly(f, CopySamples(f, copies), copies)
    decreases |copies|
  {
    if copies != [] {
      var first, rest := copies[0], copies[1..];
      var g := SetColumn(f, first.1, Column(f, first.0));
      CopyFirst(f, copies);
      CopySamplesAdds(g, rest);
      AddsOnlyStep(f, g, CopySamples(g, rest), first.1, rest, copies);
    }
  }

  /** The first copy, done: the rest of the copies then run on the frame it leaves. */
  lemma CopyFirst(f: Frame, copies: seq<(string, string)>)
    requires WellFormed(f) && SourcesIn(copies, f) && copies != []
    ensures var g := SetColumn(f, copies[0].1, Column(f, copies[0].0));
      && WellFormed(g) && SourcesIn(copies[1..], g)
      && CopySamples(f, copies) == CopySamples(g, copies[1..])
      && (forall c :: c in g.columns ==> c in f.columns || c == copies[0].1)
      && Targets(copies[1..]) <= Targets(copies) && copies[0].1 in Targets(copies)
  {
    assert forall p :: p in copies[1..] ==> p in copies;
  }

  lemma AddsOnlyStep(f: Frame, g: Frame, r: Frame, t: string, rest: seq<(string, string)>, copies: seq<(string, string)>)
    requires forall c :: c in g.columns ==> c in f.columns || c == t
    requires AddsOnly(g, r, rest) && Targets(rest) <= Targets(copies) && t in Targets(copies)
    ensures AddsOnly(f, r, copies)
  {
  }

  /** Row by row, r keeps every cell of g whose column no copy targets. */
  predicate KeptUntargeted(g: Frame, r: Frame, copies: seq<(string, string)>) {
    && |r.rows| == |g.rows|
    && forall i, c :: 0 <= i < |g.rows| && c in g.rows[i] && (forall p :: p in copies ==> p.1 != c) ==>
         c in r.rows[i] && r.rows[i][c] == g.rows[i][c]
  }

  /** A column that no copy targets keeps its cells. */
  lemma {:induction false} CopySamplesKeeps(f: Frame, copies: seq<(string, string)>)
    requires WellFormed(f) && SourcesIn(copies, f)
    ensures KeptUntargeted(f, CopySamples(f, copies), copies)
    decreases |copies|
  {
    if copies != [] {
      var g := SetColumn(f, copies[0].1, Column(f, copies[0].0));
      var rest := copies[1..];
      assert forall p :: p in rest ==> p in copies;
      CopySamplesKeeps(g, rest);
      var r := CopySamples(g, rest);
      forall i, c | 0 <= i < |f.rows| && c in f.rows[i] && (forall p :: p in copies ==> p.1 != c)
        ensures c in r.rows[i] && r.rows[i][c] == f.rows[i][c]
      {
        assert copies[0] in copies;
        assert g.rows[i] == f.rows[i][copies[0].1 := Column(f, copies[0].0)[i]];
        assert g.rows[i][c] == f.rows[i][c];
      }
    }
  }

  /** Copies land apart: no target is a source, and no two copies share a target. */
  predicate CopiesApart(copies: seq<(string, string)>) {
    && (forall p, q :: p in copies && q in copies ==> p.1 != q.0)
    && (forall j, k :: 0 <= j < k < |copies| ==> copies[j].1 != copies[k].1)
  }

  lemma CopiesApartTail(copies: seq<(string, string)>)
    requires |copies| > 0 && CopiesApart(copies)
    ensures CopiesApart(copies[1..])
    ensures forall p :: p in copies[1..] ==> p.1 != copies[0].1
  {
    var rest := copies[1..];
    assert forall p :: p in rest ==> p in copies;
    forall j, k | 0 <= j < k < |rest| ensures rest[j].1 != rest[k].1 {
      assert rest[j] == copies[j + 1] && rest[k] == copies[k + 1];
    }
    forall p | p in rest ensures p.1 != copies[0].1 {
      var k :| 0 <= k < |rest| && rest[k] == p;
      assert copies[k + 1] == p;
    }
  }

  /** Row by row, r holds under each copy's target the cell f has under its source. */
  predicate Landed(f: Frame, r: Frame, copies: seq<(string, string)>) {
    && |r.rows| == |f.rows|
    && forall i, p :: 0 <= i < |f.rows| && p in copies && p.0 in f.rows[i] ==>
         p.1 in r.rows[i] && r.rows[i][p.1] == f.rows[i][p.0]
  }

  /** When the copies land apart, every target holds its source's cells, missing cells included. */
  lemma {:induction false} CopySamplesCopies(f: Frame, copies: seq<(string, string)>)
    requires WellFormed(f) && SourcesIn(copies, f) && CopiesApart(copies)
    ensures Landed(f, CopySamples(f, copies), copies)
    decreases |copies|
  {
    if copies != [] {
      var first := copies[0];
      var g := SetColumn(f, first.1, Column(f, first.0));
      var rest := copies[1..];
      assert forall p :: p in rest ==> p in copies;
      CopiesApartTail(copies);
      CopySamplesCopies(g, rest);
      CopySamplesKeeps(g, rest);
      var r := CopySamples(g, rest);
      forall i, p | 0 <= i < |f.rows| && p in copies && p.0 in f.rows[i]
        ensures p.1 in r.rows[i] && r.rows[i][p.1] == f.rows[i][p.0]
      {
        if p in rest {
          assert first.1 != p.0;
          assert g.rows[i][p.0] == f.rows[i][p.0];
        } else {
          assert g.rows[i][first.1] == f.rows[i][first.0];
        }
      }
    }
  }

  /** The mean of each row's sample cells, or the first TypeError. */
  function RowMeans(rows: seq<Row>, cols: seq<string>, column: string): (r: Result<seq<Option<real>>, UploadError>)
    requires forall i, c :: 0 <= i < |rows| && c in cols ==> c in rows[i]
    ensures r.Success? ==> |r.value| == |rows|
    decreases |rows|
  {
    if rows == [] then Success([])
    else
      var head :- SampleMean(Cells(rows[0], cols), column);
      var tail :- RowMeans(rows[1..], cols, column);
      Success([head] + tail)
  }

  /** RowMeans fails exactly when some row's mean does, and otherwise holds every row's mean. */
  lemma {:induction false} RowMeansSpec(rows: seq<Row>, cols: seq<string>, column: string)
    requires forall i, c :: 0 <= i < |rows| && c in cols ==> c in rows[i]
    ensures var r := RowMeans(rows, cols, column);
      r.Success? <==> forall i :: 0 <= i < |rows| ==> SampleMean(Cells(rows[i], cols), column).Success?
    ensures var r := RowMeans(rows, cols, column);
      r.Success? ==> forall i :: 0 <= i < |rows| ==> r.value[i] == SampleMean(Cells(rows[i], cols), column).value
    decreases |rows|
  {
    if rows != [] {
      RowMeansSpec(rows[1..], cols, column);
      var r := RowMeans(rows, cols, column);
      var rest := RowMeans(rows[1..], cols, column);
      forall i | 1 <= i < |rows| ensures rows[1..][i - 1] == rows[i] {
      }
      if r.Success? {
        forall i | 1 <= i < |rows| ensures r.value[i] == rest.value[i - 1] {
        }
      }
    }
  }

  /** NaN when no sample had a number. */
  function MeanValue(m: Option<real>): Value {
    match m
    case None => Missing
    case Some(x) => Num(x)
  }

  /**
    The multi-sample branch: value is the text of the mean of the `<name>_sample`
    columns, and each of them is copied to its `sample` label. A text sample raises
    TypeError.
   */
  function MultiSample(f: Frame, name: string, numText: real -> string): (r: Result<Frame, UploadError>)
    requires WellFormed(f)
    ensures r.Success? ==> WellFormed(r.value) && |r.value.rows| == |f.rows|
  {
    var kw := name + "_sample";
    var cols := SampleColumns(f.columns, kw);
    var means :- RowMeans(f.rows, cols, kw);
    Success(CopySamples(WithMeans(f, means, numText), Copies(cols, kw)))
  }

  /** The multi-sample branch succeeds exactly when no row has a text sample. */
  lemma MultiSampleSucceeds(f: Frame, name: string, numText: real -> string)
    requires WellFormed(f)
    ensures var cols := SampleColumns(f.columns, name + "_sample");
      MultiSample(f, name, numText).Success? <==> forall i :: 0 <= i < |f.rows| ==> !HasText(Cells(f.rows[i], cols))
  {
    var kw := name + "_sample";
    RowMeansSpec(f.rows, SampleColumns(f.columns, kw), kw);
  }

  /** The multi-sample branch, when it succeeds, spelled out step by step. */
  lemma MultiSampleSteps(f: Frame, name: string, numText: real -> string)
    requires WellFormed(f) && MultiSample(f, name, numText).Success?
    ensures var kw := name + "_sample";
      var cols := SampleColumns(f.columns, kw);
      && RowMeans(f.rows, cols, kw).Success? && |RowMeans(f.rows, cols, kw).value| == |f.rows|
      && MultiSample(f, name, numText).value
         == CopySamples(WithMeans(f, RowMeans(f.rows, cols, kw).value, numText), Copies(cols, kw))
  {
  }

  /** The frame before the sample copies: value holds the text of each row's mean. */
  function WithMeans(f: Frame, means: seq<Option<real>>, numText: real -> string): (r: Frame)
    requires WellFormed(f) && |means| == |f.rows|
    ensures WellFormed(r) && |r.rows| == |f.rows| && "value" in r.columns
    ensures r.columns == if "value" in f.columns then f.columns else f.columns + ["value"]
    ensures forall i :: 0 <= i < |f.rows| ==> r.rows[i] == f.rows[i]["value" := Str(CellText(MeanValue(means[i]), numText))]
  {
    SetColumn(f, "value", seq(|means|, i requires 0 <= i < |means| => Str(CellText(MeanValue(means[i]), numText))))
  }

  /** The multi-sample branch adds `value` and labels with `sample` in them, and removes nothing. */
  lemma MultiSampleColumns(f: Frame, name: string, numText: real -> string)
    requires WellFormed(f) && MultiSample(f, name, numText).Success?
    ensures var r := MultiSample(f, name, numText).value;
      && (forall c :: c in f.columns ==> c in r.columns)
      && "value" in r.columns
      && (forall c :: c in r.columns ==> c in f.columns || c == "value" || Contains(c, "sample"))
  {
    MultiSampleSteps(f, name, numText);
    ColumnsAfterMeans(f, name, numText);
  }

  lemma ColumnsAfterMeans(f: Frame, name: string, numText: real -> string)
    requires var kw := name + "_sample";
      WellFormed(f) && RowMeans(f.rows, SampleColumns(f.columns, kw), kw).Success?
    ensures var kw := name + "_sample"; var cols := SampleColumns(f.columns, kw);
      var g := WithMeans(f, RowMeans(f.rows, cols, kw).value, numText);
      SourcesIn(Copies(cols, kw), g) &&
      var r := CopySamples(g, Copies(cols, kw));
      && (forall c :: c in f.columns ==> c in r.columns)
      && "value" in r.columns
      && (forall c :: c in r.columns ==> c in f.columns || c == "value" || Contains(c, "sample"))
  {
    var kw := name + "_sample";
    var cols := SampleColumns(f.columns, kw);
    var g := WithMeans(f, RowMeans(f.rows, cols, kw).value, numText);
    var copies := Copies(cols, kw);
    SampleColumnsSelect(f.columns, kw);
    CopiesMarked(cols, kw);
    MarkedTargets(copies);
    CopiesFrom(cols, kw, f.columns, g.columns);
    CopySamplesAdds(g, copies);
    ColumnsFrom(f, g, CopySamples(g, copies), copies);
  }

  /** Copies of columns of f read only columns of f, and so of any frame holding them. */
  lemma CopiesFrom(cols: seq<string>, kw: string, fCols: seq<string>, gCols: seq<string>)
    requires |kw| > 0 && (forall c :: c in cols ==> c in fCols) && (forall c :: c in fCols ==> c in gCols)
    ensures forall p :: p in Copies(cols, kw) ==> p.0 in gCols
  {
    var copies := Copies(cols, kw);
    forall p | p in copies ensures p.0 in gCols {
      var j :| 0 <= j < |copies| && copies[j] == p;
      assert p.0 == cols[j];
    }
  }

  lemma MarkedTargets(copies: seq<(string, string)>)
    requires forall p :: p in copies ==> Contains(p.1, "sample")
    ensures forall c :: c in Targets(copies) ==> Contains(c, "sample")
  {
  }

  lemma ColumnsFrom(f: Frame, g: Frame, r: Frame, copies: seq<(string, string)>)
    requires g.columns == if "value" in f.columns then f.columns else f.columns + ["value"]
    requires forall c :: c in g.columns ==> c in r.columns
    requires AddsOnly(g, r, copies) && forall c :: c in Targets(copies) ==> Contains(c, "sample")
    ensures forall c :: c in f.columns ==> c in r.columns
    ensures "value" in r.columns
    ensures forall c :: c in r.columns ==> c in f.columns || c == "value" || Contains(c, "sample")
  {
  }

  /**
    Row by row, r holds the text of the mean under `value`, and every other cell of f whose
    label has no `sample` in it.
   */
  predicate MeansAndRest(f: Frame, r: Frame, means: seq<Option<real>>, numText: real -> string) {
    && |means| == |f.rows| && |r.rows| == |f.rows|
    && (forall i :: 0 <= i < |f.rows| ==> "value" in r.rows[i] && r.rows[i]["value"] == Str(CellText(MeanValue(means[i]), numText)))
    && (forall i, c :: 0 <= i < |f.rows| && c in f.rows[i] && c != "value" && !Contains(c, "sample") ==>
          c in r.rows[i] && r.rows[i][c] == f.rows[i][c])
  }

  /**
    What the multi-sample branch leaves in each row: value is the text of the mean of the
    row's sample cells, and every column whose label has no `sample` in it keeps its cell.
   */
  lemma MultiSampleCells(f: Frame, name: string, numText: real -> string)
    requires WellFormed(f) && MultiSample(f, name, numText).Success?
    ensures var kw := name + "_sample";
      MeansAndRest(f, MultiSample(f, name, numText).value, RowMeans(f.rows, SampleColumns(f.columns, kw), kw).value, numText)
  {
    MultiSampleSteps(f, name, numText);
    CellsAfterMeans(f, name, numText);
  }

  lemma CellsAfterMeans(f: Frame, name: string, numText: real -> string)
    requires var kw := name + "_sample";
      WellFormed(f) && RowMeans(f.rows, SampleColumns(f.columns, kw), kw).Success?
    ensures var kw := name + "_sample"; var cols := SampleColumns(f.columns, kw);
      var means := RowMeans(f.rows, cols, kw).value;
      var g := WithMeans(f, means, numText);
      SourcesIn(Copies(cols, kw), g) && MeansAndRest(f, CopySamples(g, Copies(cols, kw)), means, numText)
  {
    var kw := name + "_sample";
    var cols := SampleColumns(f.columns, kw);
    var means := RowMeans(f.rows, cols, kw).value;
    var g := WithMeans(f, means, numText);
    var copies := Copies(cols, kw);
    SampleColumnsSelect(f.columns, kw);
    CopiesMarked(cols, kw);
    ValueUnmarked();
    WithMeansKeeps(f, means, numText);
    assert SourcesIn(copies, g);
    CopySamplesKeeps(g, copies);
    UnmarkedKept(f, g, CopySamples(g, copies), copies, means, numText);
  }

  lemma ValueUnmarked()
    ensures !Contains("value", "sample")
  {
  }

  /**
    Row by row, g keeps every cell of f but the mean under `value`, so the frame after the
    copies holds the mean and every cell outside the `sample` labels.
   */
  predicate MeansOver(f: Frame, g: Frame, means: seq<Option<real>>, numText: real -> string) {
    && KeptApart(f, g, "value") && |means| == |f.rows|
    && forall i :: 0 <= i < |f.rows| ==> "value" in g.rows[i] && g.rows[i]["value"] == Str(CellText(MeanValue(means[i]), numText))
  }

  lemma UnmarkedKept(f: Frame, g: Frame, r: Frame, copies: seq<(string, string)>, means: seq<Option<real>>,
                     numText: real -> string)
    requires MeansOver(f, g, means, numText) && KeptUntargeted(g, r, copies)
    requires forall p :: p in copies ==> Contains(p.1, "sample")
    requires !Contains("value", "sample")
    ensures MeansAndRest(f, r, means, numText)
  {
  }

  /**
    When the copies land apart (as `sample_a`, `sample_b`, ... do), each `<name>_sample*`
    column's cells end up under its `sample*` label (the pairs of Copies), missing cells
    included.
   */
  lemma MultiSampleCopies(f: Frame, name: string, numText: real -> string)
    requires WellFormed(f) && MultiSample(f, name, numText).Success?
    requires CopiesApart(Copies(SampleColumns(f.columns, name + "_sample"), name + "_sample"))
    ensures Landed(f, MultiSample(f, name, numText).value, Copies(SampleColumns(f.columns, name + "_sample"), name + "_sample"))
  {
    MultiSampleSteps(f, name, numText);
    LandedAfterMeans(f, name, numText);
  }

  /** The copies, made after the means are written, carry the original cells. */
  lemma LandedAfterMeans(f: Frame, name: string, numText: real -> string)
    requires var kw := name + "_sample";
      WellFormed(f) && RowMeans(f.rows, SampleColumns(f.columns, kw), kw).Success?
    requires CopiesApart(Copies(SampleColumns(f.columns, name + "_sample"), name + "_sample"))
    ensures var kw := name + "_sample"; var cols := SampleColumns(f.columns, kw);
      var means, copies := RowMeans(f.rows, cols, kw).value, Copies(cols, kw);
      SourcesIn(copies, WithMeans(f, means, numText)) && Landed(f, CopySamples(WithMeans(f, means, numText), copies), copies)
  {
    var kw := name + "_sample";
    var cols := SampleColumns(f.columns, kw);
    CopiesSources(f.columns, kw);
    CopiesOverMeans(f, RowMeans(f.rows, cols, kw).value, numText, Copies(cols, kw));
  }

  /** Every copy comes from a column of the frame whose label is longer than `value`. */
  lemma CopiesSources(cols: seq<string>, kw: string)
    requires |kw| > 5
    ensures forall p :: p in Copies(SampleColumns(cols, kw), kw) ==> |p.0| > 5 && p.0 in cols
  {
    var sc := SampleColumns(cols, kw);
    var copies := Copies(sc, kw);
    SampleColumnsLong(cols, kw);
    forall p | p in copies ensures |p.0| > 5 && p.0 in cols {
      var j :| 0 <= j < |copies| && copies[j] == p;
      assert sc[j] in sc;
    }
  }

  /** Copies made after the means are written carry the original cells. */
  lemma CopiesOverMeans(f: Frame, means: seq<Option<real>>, numText: real -> string, copies: seq<(string, string)>)
    requires WellFormed(f) && |means| == |f.rows| && CopiesApart(copies)
    requires forall p :: p in copies ==> |p.0| > 5 && p.0 in f.columns
    ensures SourcesIn(copies, WithMeans(f, means, numText))
    ensures Landed(f, CopySamples(WithMeans(f, means, numText), copies), copies)
  {
    var g := WithMeans(f, means, numText);
    WithMeansKeeps(f, means, numText);
    assert SourcesIn(copies, g);
    CopySamplesCopies(g, copies);
    CopiesFromRows(f, g, CopySamples(g, copies), copies);
  }

  /** Row by row, g has every cell f has outside the given column. */
  predicate KeptApart(f: Frame, g: Frame, column: string) {
    && |g.rows| == |f.rows|
    && forall i, s :: 0 <= i < |f.rows| && s in f.rows[i] && s != column ==> s in g.rows[i] && g.rows[i][s] == f.rows[i][s]
  }

  lemma WithMeansKeeps(f: Frame, means: seq<Option<real>>, numText: real -> string)
    requires WellFormed(f) && |means| == |f.rows|
    ensures KeptApart(f, WithMeans(f, means, numText), "value")
    ensures MeansOver(f, WithMeans(f, means, numText), means, numText)
  {
  }

  /** Copies taken from columns other than `value` carry the original cells. */
  lemma CopiesFromRows(f: Frame, g: Frame, r: Frame, copies: seq<(string, string)>)
    requires KeptApart(f, g, "value") && Landed(g, r, copies)
    requires forall p :: p in copies ==> |p.0| > 5
    ensures Landed(f, r, copies)
  {
    forall i, p | 0 <= i < |f.rows| && p in copies && p.0 in f.rows[i]
      ensures p.1 in r.rows[i] && r.rows[i][p.1] == f.rows[i][p.0]
    {
      assert p.0 != "value";
    }
  }

  /** The single branch: value is the text of the data_name cell; a missing column raises KeyError. */
  function SingleValue(f: Frame, name: string, numText: real -> string): (r: Result<Frame, UploadError>)
    requires WellFormed(f)
    ensures r.Failure? <==> name !in f.columns
    ensures r.Failure? ==> r.error == KeyError(name)
    ensures r.Success? ==> WellFormed(r.value) && |r.value.rows| == |f.rows|
    ensures r.Success? ==> ColumnSet(r.value.columns) == ColumnSet(f.columns) + {"value"}
    ensures r.Success? ==> forall i :: 0 <= i < |f.rows| ==>
      r.value.rows[i] == f.rows[i]["value" := Str(CellText(f.rows[i][name], numText))]
  {
    if name !in f.columns then Failure(KeyError(name))
    else Success(SetColumn(f, "value", seq(|f.rows|, i requires 0 <= i < |f.rows| => Str(CellText(f.rows[i][name], numText)))))
  }

  /** A comment loses its surrounding spaces when it is text; anything else is left alone. */
  function StripComment(v: Value): (r: Value)
    ensures r.Str? <==> v.Str?
    ensures v.Str? ==> IsStripped(r.text, {' '}) && |r.text| <= |v.text|
    ensures !v.Str? ==> r == v
  {
    match v
    case Str(s) => Str(StripSet(s, {' '}))
    case _ => v
  }

  function StripComments(f: Frame): (r: Frame)
    requires WellFormed(f)
    ensures WellFormed(r) && r.columns == f.columns && |r.rows| == |f.rows|
    ensures forall i :: 0 <= i < |f.rows| ==>
      r.rows[i] == if "comments" in f.columns then f.rows[i]["comments" := StripComment(f.rows[i]["comments"])] else f.rows[i]
  {
    if "comments" in f.columns then
      SetColumn(f, "comments", seq(|f.rows|, i requires 0 <= i < |f.rows| => StripComment(f.rows[i]["comments"])))
    else f
  }

  /** The value step: the mean of the samples for a multi-sample profile, the cell otherwise. */
  function WithValue(a: Frame, name: string, multiSample: seq<string>, numText: real -> string): (r: Result<Frame, UploadError>)
    requires WellFormed(a)
    ensures r.Success? ==> WellFormed(r.value) && |r.value.rows| == |a.rows|
  {
    if name in multiSample then MultiSample(a, name, numText) else SingleValue(a, name, numText)
  }

  /** The last two steps: only the table's columns, then the comments stripped. */
  function Finish(g: Frame, expected: seq<string>): (r: Frame)
    requires WellFormed(g)
    ensures WellFormed(r) && |r.rows| == |g.rows| && r.columns == KeptColumns(g.columns, expected)
  {
    StripComments(TrimColumns(g, expected))
  }

  /**
    build_data(data_name) for a profile: the header and `type` on every row, then `value`,
    then only the table's columns, then the comments stripped.
   */
  function BuildData(df: Frame, info: Dict, name: string, multiSample: seq<string>, expected: seq<string>,
                     numText: real -> string): (r: Result<Frame, UploadError>)
    requires WellFormed(df)
    ensures r.Success? ==> WellFormed(r.value) && |r.value.rows| == |df.rows|
    ensures r.Success? ==> forall c :: c in r.value.columns ==> c in expected && c != "id"
  {
    var g :- WithValue(Assigned(df, info, name), name, multiSample, numText);
    Success(Finish(g, expected))
  }

  /**
    A cell survives the last two steps exactly when its column is one of the table's
    other than id, and only a comment changes, by losing its surrounding spaces.
   */
  lemma FinishCells(g: Frame, expected: seq<string>, i: int, c: string)
    requires WellFormed(g) && 0 <= i < |g.rows|
    ensures var r := Finish(g, expected);
      c in r.rows[i] <==> c in g.rows[i] && c in expected && c != "id"
    ensures var r := Finish(g, expected);
      c in r.rows[i] ==> r.rows[i][c] == if c == "comments" then StripComment(g.rows[i][c]) else g.rows[i][c]
  {
    var t := TrimColumns(g, expected);
    assert c in t.rows[i] <==> c in t.columns;
  }

  /** The pieces of build_data, for the lemmas below. */
  lemma BuildDataSteps(df: Frame, info: Dict, name: string, multiSample: seq<string>, expected: seq<string>,
                       numText: real -> string)
    requires WellFormed(df)
    ensures var a := Assigned(df, info, name); var g := WithValue(a, name, multiSample, numText);
      && (g.Failure? ==> BuildData(df, info, name, multiSample, expected, numText) == Failure(g.error))
      && (g.Success? ==> BuildData(df, info, name, multiSample, expected, numText) == Success(Finish(g.value, expected)))
  {
  }

  /**
    Every row carries the header's value for each header key the table has, except
    those that `type`, `value`, the comment cleanup or a sample copy write to, and id.
   */
  lemma BuildDataHeader(df: Frame, info: Dict, name: string, multiSample: seq<string>, expected: seq<string>,
                        numText: real -> string, k: string)
    requires WellFormed(df) && BuildData(df, info, name, multiSample, expected, numText).Success?
    requires k in ToMap(info) && k in expected && k !in ["id", "type", "value", "comments"] && !Contains(k, "sample")
    ensures var r := BuildData(df, info, name, multiSample, expected, numText).value;
      forall i :: 0 <= i < |r.rows| ==> k in r.rows[i] && r.rows[i][k] == ToMap(info)[k]
  {
    var a := Assigned(df, info, name);
    BuildDataSteps(df, info, name, multiSample, expected, numText);
    var g := WithValue(a, name, multiSample, numText).value;
    if name in multiSample {
      MultiSampleCells(a, name, numText);
    }
    forall i | 0 <= i < |df.rows| ensures k in Finish(g, expected).rows[i] && Finish(g, expected).rows[i][k] == ToMap(info)[k] {
      assert a.rows[i][k] == ToMap(info)[k];
      assert g.rows[i].Keys == ColumnSet(g.columns) && a.rows[i].Keys == ColumnSet(a.columns);
      if name in multiSample {
        MultiSampleColumns(a, name, numText);
      }
      assert k in g.rows[i] && g.rows[i][k] == a.rows[i][k];
      FinishCells(g, expected, i, k);
    }
  }

  /** `type` is the data name on every row, when the table has a type column. */
  lemma BuildDataType(df: Frame, info: Dict, name: string, multiSample: seq<string>, expected: seq<string>,
                      numText: real -> string)
    requires WellFormed(df) && BuildData(df, info, name, multiSample, expected, numText).Success?
    requires "type" in expected
    ensures var r := BuildData(df, info, name, multiSample, expected, numText).value;
      forall i :: 0 <= i < |r.rows| ==> "type" in r.rows[i] && r.rows[i]["type"] == Str(name)
  {
    var a := Assigned(df, info, name);
    BuildDataSteps(df, info, name, multiSample, expected, numText);
    var g := WithValue(a, name, multiSample, numText).value;
    assert !Contains("type", "sample");
    if name in multiSample {
      MultiSampleCells(a, name, numText);
    }
    forall i | 0 <= i < |df.rows| ensures "type" in Finish(g, expected).rows[i] && Finish(g, expected).rows[i]["type"] == Str(name) {
      assert g.rows[i].Keys == ColumnSet(g.columns) && a.rows[i].Keys == ColumnSet(a.columns);
      if name in multiSample {
        MultiSampleColumns(a, name, numText);
      }
      assert "type" in g.rows[i] && g.rows[i]["type"] == Str(name);
      FinishCells(g, expected, i, "type");
    }
  }

  /**
    A single profile: build_data raises KeyError exactly when the data name is neither
    a column of the file nor a header key (nor `type`); otherwise value is the text of
    that cell on every row.
   */
  lemma BuildDataSingle(df: Frame, info: Dict, name: string, multiSample: seq<string>, expected: seq<string>,
                        numText: real -> string)
    requires WellFormed(df) && name !in multiSample
    ensures var r := BuildData(df, info, name, multiSample, expected, numText);
      r.Failure? <==> name !in df.columns && name !in ToMap(info) && name != "type"
    ensures var r := BuildData(df, info, name, multiSample, expected, numText);
      r.Failure? ==> r.error == KeyError(name)
    ensures var r, a := BuildData(df, info, name, multiSample, expected, numText), Assigned(df, info, name);
      r.Success? && "value" in expected ==>
        forall i :: 0 <= i < |df.rows| ==> "value" in r.value.rows[i] && r.value.rows[i]["value"] == Str(CellText(a.rows[i][name], numText))
  {
    var a := Assigned(df, info, name);
    BuildDataSteps(df, info, name, multiSample, expected, numText);
    assert name in a.columns <==> name in ColumnSet(a.columns);
    var g := SingleValue(a, name, numText);
    if g.Success? {
      forall i | 0 <= i < |df.rows|
        ensures "value" in expected ==>
          "value" in Finish(g.value, expected).rows[i] && Finish(g.value, expected).rows[i]["value"] == Str(CellText(a.rows[i][name], numText))
      {
        FinishCells(g.value, expected, i, "value");
      }
    }
  }

  /** A multi-sample profile: build_data raises TypeError exactly when some row has a text sample. */
  lemma BuildDataMultiFails(df: Frame, info: Dict, name: string, multiSample: seq<string>, expected: seq<string>,
                            numText: real -> string)
    requires WellFormed(df) && name in multiSample
    ensures var r, a := BuildData(df, info, name, multiSample, expected, numText), Assigned(df, info, name);
      var cols := SampleColumns(a.columns, name + "_sample");
      r.Failure? <==> exists i :: 0 <= i < |df.rows| && HasText(Cells(a.rows[i], cols))
  {
    var a := Assigned(df, info, name);
    BuildDataSteps(df, info, name, multiSample, expected, numText);
    MultiSampleSucceeds(a, name, numText);
  }

  /**
    A multi-sample profile that succeeds: value is the text of the mean of the row's
    samples, when the table has a value column.
   */
  lemma BuildDataMultiMeans(df: Frame, info: Dict, name: string, multiSample: seq<string>, expected: seq<string>,
                            numText: real -> string)
    requires WellFormed(df) && name in multiSample
    ensures var r, a := BuildData(df, info, name, multiSample, expected, numText), Assigned(df, info, name);
      var cols := SampleColumns(a.columns, name + "_sample");
      r.Success? && "value" in expected ==>
        forall i :: 0 <= i < |df.rows| ==>
          && SampleMean(Cells(a.rows[i], cols), name + "_sample").Success?
          && "value" in r.value.rows[i]
          && r.value.rows[i]["value"] == Str(CellText(MeanValue(SampleMean(Cells(a.rows[i], cols), name + "_sample").value), numText))
  {
    var a := Assigned(df, info, name);
    BuildDataSteps(df, info, name, multiSample, expected, numText);
    if MultiSample(a, name, numText).Success? && "value" in expected {
      MultiSampleFinish(a, name, numText, expected);
    }
  }

  /** After the last two steps, value holds the text of the mean of the row's samples. */
  lemma MultiSampleFinish(a: Frame, name: string, numText: real -> string, expected: seq<string>)
    requires WellFormed(a) && MultiSample(a, name, numText).Success? && "value" in expected
    ensures var r, cols := Finish(MultiSample(a, name, numText).value, expected), SampleColumns(a.columns, name + "_sample");
      forall i :: 0 <= i < |a.rows| ==>
        && SampleMean(Cells(a.rows[i], cols), name + "_sample").Success?
        && "value" in r.rows[i]
        && r.rows[i]["value"] == Str(CellText(MeanValue(SampleMean(Cells(a.rows[i], cols), name + "_sample").value), numText))
  {
    MultiSampleSteps(a, name, numText);
    MultiSampleCells(a, name, numText);
    FinishMeans(a, MultiSample(a, name, numText).value, name, numText, expected);
  }

  /** The last two steps keep the means under `value`. */
  lemma FinishMeans(a: Frame, g: Frame, name: string, numText: real -> string, expected: seq<string>)
    requires var kw := name + "_sample";
      WellFormed(a) && RowMeans(a.rows, SampleColumns(a.columns, kw), kw).Success?
    requires WellFormed(g) && "value" in expected
    requires var kw := name + "_sample";
      MeansAndRest(a, g, RowMeans(a.rows, SampleColumns(a.columns, kw), kw).value, numText)
    ensures var r, cols := Finish(g, expected), SampleColumns(a.columns, name + "_sample");
      forall i :: 0 <= i < |a.rows| ==>
        && SampleMean(Cells(a.rows[i], cols), name + "_sample").Success?
        && "value" in r.rows[i]
        && r.rows[i]["value"] == Str(CellText(MeanValue(SampleMean(Cells(a.rows[i], cols), name + "_sample").value), numText))
  {
    var kw := name + "_sample";
    var cols := SampleColumns(a.columns, kw);
    var means := RowMeans(a.rows, cols, kw).value;
    RowMeansSpec(a.rows, cols, kw);
    forall i | 0 <= i < |a.rows|
      ensures "value" in Finish(g, expected).rows[i] && Finish(g, expected).rows[i]["value"] == Str(CellText(MeanValue(means[i]), numText))
    {
      FinishCells(g, expected, i, "value");
    }
  }

  lemma CommentsUnmarked()
    ensures !Contains("comments", "sample")
  {
    var c := "comments";
    IndexOfSpec(c, "sample");
    forall k | 0 <= k <= 2 ensures !MatchAt(c, "sample", k) {
      assert c[k..k + 6][0] == c[k] != 's';
    }
  }

  /** The comment column, when the table has one, holds each row's comment stripped of surrounding spaces. */
  lemma BuildDataComments(df: Frame, info: Dict, name: string, multiSample: seq<string>, expected: seq<string>,
                          numText: real -> string)
    requires WellFormed(df) && BuildData(df, info, name, multiSample, expected, numText).Success?
    requires "comments" in expected && ("comments" in df.columns || "comments" in ToMap(info))
    ensures var r, a := BuildData(df, info, name, multiSample, expected, numText).value, Assigned(df, info, name);
      forall i :: 0 <= i < |r.rows| ==> "comments" in r.rows[i] && r.rows[i]["comments"] == StripComment(a.rows[i]["comments"])
  {
    var a := Assigned(df, info, name);
    BuildDataSteps(df, info, name, multiSample, expected, numText);
    var g := WithValue(a, name, multiSample, numText).value;
    CommentsUnmarked();
    assert "comments" in ColumnSet(a.columns);
    if name in multiSample {
      MultiSampleCells(a, name, numText);
      MultiSampleColumns(a, name, numText);
    }
    forall i | 0 <= i < |df.rows|
      ensures "comments" in Finish(g, expected).rows[i] && Finish(g, expected).rows[i]["comments"] == StripComment(a.rows[i]["comments"])
    {
      assert g.rows[i].Keys == ColumnSet(g.columns) && a.rows[i].Keys == ColumnSet(a.columns);
      assert "comments" in g.rows[i] && g.rows[i]["comments"] == a.rows[i]["comments"];
      FinishCells(g, expected, i, "comments");
    }
  }

  /**
    A multi-sample profile whose copies land apart: each `<name>_sample*` cell reaches the
    database under its `sample*` label, when the table has that column.
   */
  lemma BuildDataSamples(df: Frame, info: Dict, name: string, multiSample: seq<string>, expected: seq<string>,
                         numText: real -> string, s: string)
    requires WellFormed(df) && name in multiSample && BuildData(df, info, name, multiSample, expected, numText).Success?
    requires var a, kw := Assigned(df, info, name), name + "_sample";
      CopiesApart(Copies(SampleColumns(a.columns, kw), kw)) && s in SampleColumns(a.columns, kw)
    requires Rename(s, name + "_sample") in expected && Rename(s, name + "_sample") != "id"
    ensures var r, a, n := BuildData(df, info, name, multiSample, expected, numText).value, Assigned(df, info, name), Rename(s, name + "_sample");
      forall i :: 0 <= i < |r.rows| ==> n in r.rows[i] && r.rows[i][n] == a.rows[i][s]
  {
    var a := Assigned(df, info, name);
    var kw := name + "_sample";
    var n := Rename(s, kw);
    var cols := SampleColumns(a.columns, kw);
    var copies := Copies(cols, kw);
    SampleColumnsSelect(a.columns, kw);
    ReplaceInserts(s, kw, "sample");
    CommentsUnmarked();
    CopiesRenamed(cols, kw);
    var j :| 0 <= j < |cols| && cols[j] == s;
    assert copies[j] == (s, n);
    assert (s, n) in copies;
    BuildDataSteps(df, info, name, multiSample, expected, numText);
    var g := MultiSample(a, name, numText).value;
    MultiSampleCopies(a, name, numText);
    forall i | 0 <= i < |df.rows|
      ensures n in Finish(g, expected).rows[i] && Finish(g, expected).rows[i][n] == a.rows[i][s]
    {
      assert s in a.rows[i];
      FinishCells(g, expected, i, n);
    }
  }
}
