/**
  Uploading a raster (UploadRaster): the raster2pgsql command line is assembled from the
  uploader's settings, its SQL output is cut into one tile string per inserted row, and
  the tiles become the `raster` column of the frame to submit, with the keyword metadata
  on every row.
 */
module Raster {
  import opened Wrappers
  import opened Text
  import opened Frames

  /** The tile size raster2pgsql is asked for when tiling is on. */
  const TileSize: string := "500x500"

  /** What starts the text of every tile in raster2pgsql's SQL output. */
  const Marker: string := "VALUES ('"

  /** What ends the text of a tile. */
  const Terminator: string := "'::"

  /**
    raster2pgsql -s <epsg>, then -t 500x500 when tiling, then -N <no_data> when a no-data
    value is set, then the file name.
   */
  function CommandLine(epsg: int, tiled: bool, noData: Option<int>, filename: string): seq<string> {
    ["raster2pgsql", "-s", IntText(epsg)]
      + (if tiled then ["-t", TileSize] else [])
      + (match noData case Some(n) => ["-N", IntText(n)] case None => [])
      + [filename]
  }

  /** The settings a command line of that shape carries, read back from its words. */
  function ParseCommand(cmd: seq<string>): Option<(int, bool, Option<int>, string)> {
    if |cmd| < 4 || cmd[0] != "raster2pgsql" || cmd[1] != "-s" || ParseInt(cmd[2]).None? then None
    else
      var epsg, rest := ParseInt(cmd[2]).value, cmd[3..];
      if |rest| == 1 then Some((epsg, false, None, rest[0]))
      else if |rest| == 3 && rest[0] == "-t" && rest[1] == TileSize then Some((epsg, true, None, rest[2]))
      else if |rest| == 3 && rest[0] == "-N" && ParseInt(rest[1]).Some? then
        Some((epsg, false, Some(ParseInt(rest[1]).value), rest[2]))
      else if |rest| == 5 && rest[0] == "-t" && rest[1] == TileSize && rest[2] == "-N" && ParseInt(rest[3]).Some? then
        Some((epsg, true, Some(ParseInt(rest[3]).value), rest[4]))
      else None
  }

  /**
    The command line carries every setting: the projection, whether to tile, the no-data
    value if any and the file name can all be read back from it, whatever the file name is.
   */
  lemma CommandRoundTrip(epsg: int, tiled: bool, noData: Option<int>, filename: string)
    ensures ParseCommand(CommandLine(epsg, tiled, noData, filename)) == Some((epsg, tiled, noData, filename))
  {
    IntTextRoundTrip(epsg);
    var cmd := CommandLine(epsg, tiled, noData, filename);
    assert cmd[..3] == ["raster2pgsql", "-s", IntText(epsg)];
    match noData
    case None =>
    case Some(n) =>
      IntTextRoundTrip(n);
  }

  /** The command line, built word by word as _read appends to its list. */
  method BuildCommand(epsg: int, tiled: bool, noData: Option<int>, filename: string) returns (cmd: seq<string>)
    ensures cmd == CommandLine(epsg, tiled, noData, filename)
  {
    cmd := ["raster2pgsql", "-s", IntText(epsg)];
    if tiled {
      cmd := cmd + ["-t"];
      cmd := cmd + [TileSize];
    }
    if noData.Some? {
      cmd := cmd + ["-N"];
      cmd := cmd + [IntText(noData.value)];
    }
    cmd := cmd + [filename];
  }

  /**
    The tiles in raster2pgsql's output: every piece after a marker, cut at its first
    terminator.
   */
  function Tiles(sql: string): (r: seq<string>) {
    var pieces := Split(sql, Marker)[1..];
    seq(|pieces|, k requires 0 <= k < |pieces| => Split(pieces[k], Terminator)[0])
  }

  /** There are as many tiles as there are markers in the output. */
  lemma TileCount(sql: string)
    ensures |Tiles(sql)| == Occurrences(sql, Marker)
  {
    SplitCount(sql, Marker);
  }

  /**
    Tile k is the text that follows marker k + 1 up to the first terminator: a prefix of
    that piece with no terminator in it, which is followed by a terminator unless it is the
    whole piece, and the pieces between the markers make up the output.
   */
  lemma TileCut(sql: string, k: int)
    requires 0 <= k < |Tiles(sql)|
    ensures var piece, tile := Split(sql, Marker)[k + 1], Tiles(sql)[k];
      && |tile| <= |piece| && piece[..|tile|] == tile
      && !Contains(tile, Terminator)
      && (Contains(piece, Terminator) ==> MatchAt(piece, Terminator, |tile|))
      && (!Contains(piece, Terminator) ==> tile == piece)
      && !Contains(piece, Marker)
    ensures Join(Split(sql, Marker), Marker) == sql
  {
    var piece := Split(sql, Marker)[k + 1];
    SplitFirst(piece, Terminator);
    SplitPiecesClean(sql, Marker);
    JoinSplit(sql, Marker);
  }

  /** pd.DataFrame(columns=['raster']) with df['raster'] = tiles: one row per tile. */
  function TileFrame(tiles: seq<string>): (r: Frame)
    ensures WellFormed(r) && r.columns == ["raster"] && |r.rows| == |tiles|
  {
    var r := Frame(["raster"], seq(|tiles|, k requires 0 <= k < |tiles| => map["raster" := Str(tiles[k])]));
    assert forall k :: 0 <= k < |tiles| ==> r.rows[k].Keys == ColumnSet(["raster"]);
    r
  }

  /** The frame _read returns: the tiles, with the keyword metadata set on every row. */
  function RasterFrame(sql: string, data: Dict): (r: Frame)
    ensures WellFormed(r)
  {
    AssignAll(TileFrame(Tiles(sql)), data)
  }

  /**
    One row per tile, in order, each holding its tile under `raster` and every metadata
    key with its value (a key named raster overrides the tile, as the later assignment does).
   */
  lemma RasterRows(sql: string, data: Dict)
    ensures var r, tiles := RasterFrame(sql, data), Tiles(sql);
      |r.rows| == |tiles| && forall k :: 0 <= k < |tiles| ==> r.rows[k] == map["raster" := Str(tiles[k])] + ToMap(data)
    ensures ColumnSet(RasterFrame(sql, data).columns) == {"raster"} + ToMap(data).Keys
  {
    var f := TileFrame(Tiles(sql));
    AssignAllRows(f, data);
    AssignAllColumns(f, data);
    assert ColumnSet(f.columns) == {"raster"};
  }

  /**
    _read: run raster2pgsql on the command line (`run` stands for the subprocess and its
    decoded output), cut the tiles out and set the metadata column by column.
   */
  method Read(epsg: int, tiled: bool, noData: Option<int>, filename: string, data: Dict,
              run: seq<string> -> string) returns (df: Frame)
    ensures df == RasterFrame(run(CommandLine(epsg, tiled, noData, filename)), data)
  {
    var cmd := BuildCommand(epsg, tiled, noData, filename);
    var sql := run(cmd);
    var tiles := Tiles(sql);
    df := AssignConstants(TileFrame(tiles), data);
  }
}
