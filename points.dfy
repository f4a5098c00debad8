/**
  Uploading a csv of point measurements (PointDataCSV): the table is prepared once, when
  the uploader is made, and then for each measured quantity build_data makes the frame
  of rows to submit.
 */
module Points {
  import opened Wrappers
  import opened Frames
  import opened Upload

  /** The verbose names of the snow depth instruments. */
  const MeasurementNames: map<string, string> := map["mp" := "magnaprobe", "m2" := "mesa", "pr" := "pit ruler"]

  /** The default UTM zone and projection of a point uploader. */
  const DefaultUtmZone: int := 12
  const DefaultEpsg: int := 26912

  /** remap_data_names(x, names), whose body is not part of this model. */
  type Remap = (Value, map<string, string>) -> Value

  /** add_geom(row, epsg), whose body is not part of this model. */
  type Geometry = (Row, int) -> Value

  /**
    A helper that DataFrame.apply(axis=1) runs on every row (add_date_time_keys with the
    header's timezone, reproject_point_in_dict), whose body is not part of this model:
    the labels it adds, and what it makes of one row.
   */
  datatype RowHelper = RowHelper(adds: seq<string>, apply: Row -> Row)

  /** The one thing assumed of such a helper: a row keeps its labels and gains the helper's. */
  ghost predicate AddsKeys(h: RowHelper) {
    forall row :: h.apply(row).Keys == row.Keys + ColumnSet(h.adds)
  }

  /** The labels after a row-wise apply: the frame's, then each added label not already there. */
  function Appended(cols: seq<string>, adds: seq<string>): (r: seq<string>)
    ensures ColumnSet(r) == ColumnSet(cols) + ColumnSet(adds)
    ensures |cols| <= |r| && r[..|cols|] == cols
    decreases |adds|
  {
    if adds == [] then cols
    else
      var next := if adds[0] in cols then cols else cols + [adds[0]];
      assert ColumnSet(adds) == {adds[0]} + ColumnSet(adds[1..]);
      var r := Appended(next, adds[1..]);
      assert r[..|cols|] == r[..|next|][..|cols|];
      r
  }

  /** Appending only labels that are not there yet keeps the labels unique. */
  lemma {:induction false} AppendedDistinct(cols: seq<string>, adds: seq<string>)
    requires Distinct(cols)
    ensures Distinct(Appended(cols, adds))
    decreases |adds|
  {
    if adds != [] {
      var next := if adds[0] in cols then cols else cols + [adds[0]];
      assert Distinct(next);
      AppendedDistinct(next, adds[1..]);
    }
  }

  /** df.apply(h, axis=1): every row replaced by what the helper makes of it. */
  function ApplyRows(f: Frame, h: RowHelper): (r: Frame)
    requires WellFormed(f) && AddsKeys(h)
    ensures WellFormed(r) && |r.rows| == |f.rows|
    ensures ColumnSet(r.columns) == ColumnSet(f.columns) + ColumnSet(h.adds)
    ensures forall i :: 0 <= i < |f.rows| ==> r.rows[i] == h.apply(f.rows[i])
  {
    AppendedDistinct(f.columns, h.adds);
    Frame(Appended(f.columns, h.adds), seq(|f.rows|, i requires 0 <= i < |f.rows| => h.apply(f.rows[i])))
  }

  /** df['instrument'] = df['instrument'].apply(remap), when the table has that column. */
  function RenameInstruments(f: Frame, remap: Remap): (r: Frame)
    requires WellFormed(f)
    ensures WellFormed(r) && r.columns == f.columns && |r.rows| == |f.rows|
  {
    if "instrument" in f.columns then
      SetColumn(f, "instrument", seq(|f.rows|, i requires 0 <= i < |f.rows| => remap(f.rows[i]["instrument"], MeasurementNames)))
    else f
  }

  /** df['utm_zone'] = int(utm_zone), when the table has no such column. */
  function DefaultZone(f: Frame, utmZone: int): (r: Frame)
    requires WellFormed(f)
    ensures WellFormed(r) && |r.rows| == |f.rows| && "utm_zone" in r.columns
    ensures ColumnSet(r.columns) == ColumnSet(f.columns) + {"utm_zone"}
  {
    if "utm_zone" in f.columns then f
    else
      var r := SetConstant(f, "utm_zone", Num(utmZone as real));
      assert ColumnSet(r.columns) == ColumnSet(f.columns) + {"utm_zone"};
      r
  }

  /** df['geom'] = df.apply(lambda row: add_geom(row, epsg), axis=1). */
  function AddGeometry(f: Frame, addGeom: Geometry, epsg: int): (r: Frame)
    requires WellFormed(f)
    ensures WellFormed(r) && |r.rows| == |f.rows| && "geom" in r.columns
    ensures ColumnSet(r.columns) == ColumnSet(f.columns) + {"geom"}
  {
    var r := SetColumn(f, "geom", seq(|f.rows|, i requires 0 <= i < |f.rows| => addGeom(f.rows[i], epsg)));
    assert ColumnSet(r.columns) == ColumnSet(f.columns) + {"geom"};
    r
  }

  /**
    prepare: the instruments get their verbose names, the date and time keys are added,
    a missing UTM zone is filled in, the location is reprojected and the geometry is added.
   */
  function Prepare(df: Frame, remap: Remap, dateTime: RowHelper, reproject: RowHelper, addGeom: Geometry,
                   utmZone: int, epsg: int): (r: Frame)
    requires WellFormed(df) && AddsKeys(dateTime) && AddsKeys(reproject)
    ensures WellFormed(r) && |r.rows| == |df.rows|
    ensures ColumnSet(r.columns)
         == ColumnSet(df.columns) + ColumnSet(dateTime.adds) + ColumnSet(reproject.adds) + {"utm_zone", "geom"}
  {
    var renamed := RenameInstruments(df, remap);
    var dated := ApplyRows(renamed, dateTime);
    var zoned := DefaultZone(dated, utmZone);
    var located := ApplyRows(zoned, reproject);
    AddGeometry(located, addGeom, epsg)
  }

  /** What prepare makes of one row, on its own. */
  function PrepareRow(row: Row, remap: Remap, dateTime: RowHelper, reproject: RowHelper, addGeom: Geometry,
                      utmZone: int, epsg: int): Row
  {
    var renamed := if "instrument" in row then row["instrument" := remap(row["instrument"], MeasurementNames)] else row;
    var dated := dateTime.apply(renamed);
    var zoned := if "utm_zone" in dated then dated else dated["utm_zone" := Num(utmZone as real)];
    var located := reproject.apply(zoned);
    located["geom" := addGeom(located, epsg)]
  }

  /** Column by column, prepare does to every row what PrepareRow does to it alone, in the same order. */
  lemma PrepareRows(df: Frame, remap: Remap, dateTime: RowHelper, reproject: RowHelper, addGeom: Geometry,
                    utmZone: int, epsg: int)
    requires WellFormed(df) && AddsKeys(dateTime) && AddsKeys(reproject)
    ensures var r := Prepare(df, remap, dateTime, reproject, addGeom, utmZone, epsg);
      forall i :: 0 <= i < |df.rows| ==> r.rows[i] == PrepareRow(df.rows[i], remap, dateTime, reproject, addGeom, utmZone, epsg)
  {
    var renamed := RenameInstruments(df, remap);
    var dated := ApplyRows(renamed, dateTime);
    var zoned := DefaultZone(dated, utmZone);
    var located := ApplyRows(zoned, reproject);
    var r := AddGeometry(located, addGeom, epsg);
    forall i | 0 <= i < |df.rows|
      ensures r.rows[i] == PrepareRow(df.rows[i], remap, dateTime, reproject, addGeom, utmZone, epsg)
    {
      var row := df.rows[i];
      assert "instrument" in row <==> "instrument" in df.columns by {
        assert row.Keys == ColumnSet(df.columns);
      }
      assert "utm_zone" in dated.rows[i] <==> "utm_zone" in dated.columns by {
        assert dated.rows[i].Keys == ColumnSet(dated.columns);
      }
      if "utm_zone" !in dated.columns {
        SetConstantRows(dated, "utm_zone", Num(utmZone as real));
      }
    }
  }

  /** A prepared row has its own labels, the helpers' labels, utm_zone and geom. */
  lemma PrepareRowKeys(row: Row, remap: Remap, dateTime: RowHelper, reproject: RowHelper, addGeom: Geometry,
                       utmZone: int, epsg: int)
    requires AddsKeys(dateTime) && AddsKeys(reproject)
    ensures PrepareRow(row, remap, dateTime, reproject, addGeom, utmZone, epsg).Keys
         == row.Keys + ColumnSet(dateTime.adds) + ColumnSet(reproject.adds) + {"utm_zone", "geom"}
  {
  }

  /**
    With an instrument column, every row's instrument becomes what the remapping makes
    of it; no other cell changes, and without that column nothing does.
   */
  lemma RenameInstrumentsCells(f: Frame, remap: Remap)
    requires WellFormed(f)
    ensures var r := RenameInstruments(f, remap);
      forall i, c :: 0 <= i < |f.rows| && c in f.rows[i] ==>
        c in r.rows[i] && r.rows[i][c] == if c == "instrument" then remap(f.rows[i][c], MeasurementNames) else f.rows[i][c]
    ensures "instrument" !in f.columns ==> RenameInstruments(f, remap) == f
  {
    var r := RenameInstruments(f, remap);
    forall i, c | 0 <= i < |f.rows| && c in f.rows[i]
      ensures c in r.rows[i] && r.rows[i][c] == if c == "instrument" then remap(f.rows[i][c], MeasurementNames) else f.rows[i][c]
    {
      assert f.rows[i].Keys == ColumnSet(f.columns);
    }
  }

  /**
    A table without a utm_zone column gets the uploader's zone on every row, and keeps its
    other cells; a table with one is left as it is.
   */
  lemma DefaultZoneCells(f: Frame, utmZone: int)
    requires WellFormed(f)
    ensures "utm_zone" in f.columns ==> DefaultZone(f, utmZone) == f
    ensures var r := DefaultZone(f, utmZone);
      "utm_zone" !in f.columns ==>
        forall i :: 0 <= i < |f.rows| ==> r.rows[i] == f.rows[i]["utm_zone" := Num(utmZone as real)]
  {
    if "utm_zone" !in f.columns {
      SetConstantRows(f, "utm_zone", Num(utmZone as real));
    }
  }

  /**
    With the default settings, a table without a utm_zone column gets zone 12 on every row,
    and every geometry is made for EPSG 26912.
   */
  lemma DefaultSettings(f: Frame, addGeom: Geometry)
    requires WellFormed(f)
    ensures "utm_zone" !in f.columns ==>
      forall i :: 0 <= i < |f.rows| ==> DefaultZone(f, DefaultUtmZone).rows[i]["utm_zone"] == Num(12.0)
    ensures forall i :: 0 <= i < |f.rows| ==> AddGeometry(f, addGeom, DefaultEpsg).rows[i]["geom"] == addGeom(f.rows[i], 26912)
  {
    DefaultZoneCells(f, DefaultUtmZone);
    AddGeometryCells(f, addGeom, DefaultEpsg);
  }

  /** Every row gets the geometry add_geom makes of it, and keeps its other cells. */
  lemma AddGeometryCells(f: Frame, addGeom: Geometry, epsg: int)
    requires WellFormed(f)
    ensures var r := AddGeometry(f, addGeom, epsg);
      forall i :: 0 <= i < |f.rows| ==> r.rows[i] == f.rows[i]["geom" := addGeom(f.rows[i], epsg)]
  {
  }

  /** The labels build_data writes before trimming: value, type, and units when the units table lists the name. */
  function Written(name: string, units: map<string, string>): seq<string> {
    ["value", "type"] + if name in units then ["units"] else []
  }

  /** The frame before trimming: value, type and perhaps units set on a copy of the table. */
  function Labelled(df: Frame, name: string, units: map<string, string>): (r: Frame)
    requires WellFormed(df) && name in df.columns
    ensures WellFormed(r) && |r.rows| == |df.rows|
  {
    var valued := SetColumn(df, "value", Column(df, name));
    var typed := SetConstant(valued, "type", Str(name));
    if name in units then SetConstant(typed, "units", Str(units[name])) else typed
  }

  /** One row before trimming, on its own. */
  function LabelledRow(row: Row, name: string, units: map<string, string>): Row
    requires name in row
  {
    var typed := row["value" := row[name]]["type" := Str(name)];
    if name in units then typed["units" := Str(units[name])] else typed
  }

  /**
    build_data(data_name) for point data: value is a copy of the data name's column, type
    is the data name, units come from the units table when it lists the name, and then only
    the table's columns are kept. A data name that is not a column raises KeyError.
   */
  function BuildPointData(df: Frame, name: string, units: map<string, string>, expected: seq<string>): (r: Result<Frame, UploadError>)
    requires WellFormed(df)
    ensures r.Failure? <==> name !in df.columns
    ensures r.Failure? ==> r.error == KeyError(name)
    ensures r.Success? ==> WellFormed(r.value) && |r.value.rows| == |df.rows|
  {
    if name !in df.columns then Failure(KeyError(name))
    else Success(TrimColumns(Labelled(df, name, units), expected))
  }

  /** Every row of the frame before trimming is what LabelledRow makes of the table's row. */
  lemma LabelledRows(df: Frame, name: string, units: map<string, string>)
    requires WellFormed(df) && name in df.columns
    ensures var r := Labelled(df, name, units);
      forall i :: 0 <= i < |df.rows| ==> name in df.rows[i] && r.rows[i] == LabelledRow(df.rows[i], name, units)
  {
    var valued := SetColumn(df, "value", Column(df, name));
    var typed := SetConstant(valued, "type", Str(name));
    SetConstantRows(valued, "type", Str(name));
    SetConstantRows(typed, "units", Str(if name in units then units[name] else ""));
    forall i | 0 <= i < |df.rows| ensures name in df.rows[i] {
      assert df.rows[i].Keys == ColumnSet(df.columns);
    }
  }

  /**
    The columns of the built frame: the table's, then value, type and units where they are
    new, keeping only those the database table has, never id.
   */
  lemma BuildPointColumns(df: Frame, name: string, units: map<string, string>, expected: seq<string>)
    requires WellFormed(df) && name in df.columns
    ensures BuildPointData(df, name, units, expected).value.columns
         == KeptColumns(Appended(df.columns, Written(name, units)), expected)
  {
    LabelledColumns(df, name, units);
  }

  /** One label appended: it goes at the end unless it is there already. */
  lemma AppendedStep(cols: seq<string>, adds: seq<string>)
    requires adds != []
    ensures Appended(cols, adds) == Appended(if adds[0] in cols then cols else cols + [adds[0]], adds[1..])
  {
  }

  /** Setting value, type and perhaps units appends those labels that are new. */
  lemma LabelledColumns(df: Frame, name: string, units: map<string, string>)
    requires WellFormed(df) && name in df.columns
    ensures Labelled(df, name, units).columns == Appended(df.columns, Written(name, units))
  {
    var valued := SetColumn(df, "value", Column(df, name));
    var typed := SetConstant(valued, "type", Str(name));
    var w := Written(name, units);
    AppendedStep(df.columns, w);
    AppendedStep(valued.columns, w[1..]);
    assert w[1..][1..] == w[2..];
    if name in units {
      AppendedStep(typed.columns, w[2..]);
      assert w[2..][1..] == [];
    } else {
      assert w[2..] == [];
    }
  }

  /**
    Cell by cell: a built row has exactly the labels of its labelled row that the database
    table has (never id), with their cells: value is the row's data name cell, type is the
    data name, units the name's units, and every other cell the table's own.
   */
  lemma BuildPointCells(df: Frame, name: string, units: map<string, string>, expected: seq<string>)
    requires WellFormed(df) && name in df.columns
    ensures var r := BuildPointData(df, name, units, expected).value;
      forall i, c :: 0 <= i < |df.rows| ==>
        && name in df.rows[i]
        && (c in r.rows[i] <==> c in LabelledRow(df.rows[i], name, units) && c in expected && c != "id")
        && (c in r.rows[i] ==> r.rows[i][c] == LabelledRow(df.rows[i], name, units)[c])
  {
    var l := Labelled(df, name, units);
    LabelledRows(df, name, units);
    var r := TrimColumns(l, expected);
    forall i, c | 0 <= i < |df.rows|
      ensures c in r.rows[i] <==> c in l.rows[i] && c in expected && c != "id"
    {
      assert r.rows[i].Keys == ColumnSet(r.columns) && l.rows[i].Keys == ColumnSet(l.columns);
    }
  }

  /** The values the source promises of a built row, when the database table has those columns. */
  lemma LabelledRowCells(row: Row, name: string, units: map<string, string>)
    requires name in row
    ensures var r := LabelledRow(row, name, units);
      && r["value"] == row[name] && r["type"] == Str(name)
      && (name in units ==> r["units"] == Str(units[name]))
      && (name !in units ==> ("units" in r <==> "units" in row) && ("units" in row ==> r["units"] == row["units"]))
      && forall c :: c in row && c !in Written(name, units) ==> c in r && r[c] == row[c]
  {
  }
}
