# snowexsql upload core in Dafny

This project models the part of snowexsql that turns survey files into database rows, and
the helper script that builds the meteorological name tables. It covers:

- **Upload**: what every uploader shares (`BaseUploader`). `trim_columns` keeps only the
  columns the database table has, never `id`. `submit` builds the frame of each data name and
  adds its rows one at a time through `add_one`, which commits a row and counts it. Without
  debug a refused row is recorded as an error and the loop moves on to the next row; with
  debug the first refusal ends the loop.
- **Profile**: `UploadProfileData`. `_read` converts SMP depths from millimetres, standardises
  the depths and shifts `bottom_depth` so that each layer keeps its thickness. `check`
  compares the header with the site information. `build_data` spreads the header over every
  layer, sets `type` and `value` (the mean of the `<name>_sample` columns for multi-sample
  profiles, with each sample column copied to its `sample` label), trims the columns and
  strips the comments.
- **Points**: `PointDataCSV`. `prepare` renames the instruments, adds date, time, UTM zone and
  geometry. `build_data` sets `value`, `type` and, where known, `units`, then trims.
- **Raster**: `UploadRaster._read`. It assembles the raster2pgsql command line, cuts its SQL
  output into one tile per row and sets the keyword metadata on every row.
- **MetNames**: `scripts/upload/parse_met_names.py`. It parses each `original,instrument,name,units`
  line into the rename, instrument and unit tables, splits the `special_cols` text into column
  names, and gives each thermocouple and infrared-target column a name derived from the base
  name of `IRtarget_XXX`.

Support modules:

- `Wrappers`: `Option`, `Result` and `Outcome`.
- `Text`: the Python string operations the code relies on, namely `lower`, `strip`, `replace`,
  `in`, `split` and `str(int)`. `IndexOf` is the `find`-style search behind `in`, `split` and
  `replace`; the code never calls `find` itself. `Join` is a specification aid: it states what
  `split` and `replace` do, and builds the literal text of the special columns from its lines.
  The code's one `join` is in a log message, which is not modelled.
- `Frames`: a pandas frame as a list of unique column labels and one row per record, each row a
  map from exactly those labels to a cell (a string, a number or a missing value).

Helpers outside the core are parameters of the model:

- `standardize_depth` and `check_integrity`
- `remap_data_names`, `add_date_time_keys`, `reproject_point_in_dict` and `add_geom`
- how pandas prints a number as text
- the raster2pgsql subprocess
- the database session's verdict on a row

## Model

| member | source | states |
|---|---|---|
| Upload.KeptColumns | snowxsql/upload.py:88-97 | a column is kept exactly when the frame has it, the table has it and it is not `id`; kept columns stay in the frame's order and stay unique |
| Upload.KeptColumnsIdempotent | snowxsql/upload.py:88-100 | choosing the kept columns of already kept columns changes nothing |
| Upload.TrimColumns | snowxsql/upload.py:79-100 | the trimmed copy has the same rows in the same order; each row holds exactly the kept columns, with its original cells |
| Upload.TrimIdempotent | snowxsql/upload.py:79-100 | trimming a trimmed frame gives it back unchanged |
| Upload.Session.Commit | snowxsql/upload.py:159-162 | a commit either stores the row after the rows committed before, or fails and stores nothing |
| Upload.Uploader.AddOne | snowxsql/upload.py:145-163 | `uploaded` grows by one exactly when the commit succeeds; a refused row is reported as the error and neither the counter nor the session changes |
| Upload.Uploader.Submit | snowxsql/upload.py:111-131 | the session, the counter, the error list and the exception after the nested loop over data names and rows are those of the reference run `SubmitNames` |
| Upload.AddRowsAccounting | snowxsql/upload.py:120-131 | over one frame's rows, committed rows are a prefix-preserving extension taken from the frame and `uploaded` counts them; without debug every row ends up either uploaded or in `errors`; with debug no error is recorded and the exception is a refused row |
| Upload.SubmitAccounting | snowxsql/upload.py:111-131 | without debug the loop ends early exactly when some data name's frame cannot be built, and otherwise `uploaded` plus the number of errors equals the number of rows of all frames; with debug `errors` never grows |
| Upload.AddRowsDebug | snowxsql/upload.py:120-131 | with debug, a frame that raises nothing commits all its rows in order and counts them all; one that raises stops at the first refused row k, having committed and counted exactly the rows before k, and raises for that row |
| Upload.FirstRefusedCons | snowxsql/upload.py:120-131 | the first refused row of the rest, after an accepted first row, is the first refused row of the whole frame, one position later |
| Upload.SubmitDebug | snowxsql/upload.py:111-131 | with debug and no exception, every row of every frame that could be built is committed in order and `uploaded` grows by the number of those rows |
| Frames.SetColumn | snowxsql/upload.py:412 | assigning a column keeps the rows and appends the label only when it is new; each row gets the new cell under that label |
| Frames.AssignAllPrefix | snowxsql/upload.py:302-303 | assigning the header values one after another keeps the frame's labels as a prefix |
| Frames.AssignAllColumns | snowxsql/upload.py:302-303 | the labels after the assignments are the frame's plus every key of the dict |
| Frames.AssignAllRows | snowxsql/upload.py:302-303 | each row after the assignments is the row overridden by the dict, a later entry for the same key winning |
| Frames.AssignConstants | snowxsql/upload.py:483-484 | the loop `for k, v in data.items(): df[k] = v` yields the frame `AssignAll` describes |
| Frames.DivideCell | snowxsql/upload.py:239 | dividing a cell fails exactly on text; a number is divided and a missing cell stays missing |
| Frames.MinusCell | snowxsql/upload.py:249-250 | subtracting cells gives missing when either is missing, even beside text (pandas redoes a failed object subtraction only where neither side is NaN); it fails exactly when one is text and neither is missing; numbers subtract |
| Profile.DivideAll | snowxsql/upload.py:239 | `df['depth'].div(10)` fails exactly when a cell is text, and otherwise divides every cell |
| Profile.MinusAll | snowxsql/upload.py:249-250 | column subtraction fails exactly when some text cell on either side is paired with a cell that is not missing, and otherwise subtracts cell by cell |
| Profile.FormatFor | snowxsql/upload.py:236-241 | the depth format is surface datum exactly for SMP profiles |
| Profile.DepthInput | snowxsql/upload.py:238-239 | for a profile with a `force` column the depths are divided by 10, failing exactly when a depth is text; otherwise they are passed on unchanged |
| Profile.ShiftBottom | snowxsql/upload.py:248-250 | shifting `bottom_depth` fails exactly when some layer has both depths present and one of its three cells text (a missing depth or new depth makes the change missing, so a text bottom beside it is no error); otherwise it changes only that column, to bottom minus the depth change |
| Profile.ShiftedCell | snowxsql/upload.py:249-250 | a shifted bottom depth, defined whenever the shift raises nothing (text allowed beside a missing depth), is `bottom - (depth - new_depth)` for numbers, and missing when any operand is missing |
| Profile.ReadProfile | snowxsql/upload.py:218-257 | `_read` raises KeyError without a `depth` column and fails when an SMP depth is text; a read profile keeps the columns and the number of layers |
| Profile.ReadTextBottomBesideMissing | snowxsql/upload.py:248-254 | a layer with no depth and a text bottom reads without error, its bottom made missing |
| Profile.ReadDepthNotText | snowxsql/upload.py:252-254 | the depth range `abs(max - min)` raises TypeError when a standardised depth is text, so a successful `_read` leaves no text depth |
| Profile.ReadProfileCells | snowxsql/upload.py:244-252 | after `_read` each depth is the standardised depth; every column other than depth and bottom depth keeps its cells |
| Profile.ReadKeepsThickness | snowxsql/upload.py:248-252 | for every layer with numeric depths, the distance between depth and bottom depth is the same before and after standardisation; a missing operand leaves a missing bottom |
| Profile.ProfileUploader.Read | snowxsql/upload.py:218-257 | `_read` stores the read frame on success and raises the error on failure, leaving `df` unchanged |
| Profile.Check | snowxsql/upload.py:259-284 | the check passes exactly when `check_integrity` reports no mismatch; otherwise it raises for the first mismatched key, with both values, or KeyError when either side lacks the key |
| Profile.Assigned | snowxsql/upload.py:299-305 | every row gets every header value and `type` set to the data name; the labels are the frame's, the header's keys and `type` |
| Profile.SampleColumnsSelect | snowxsql/upload.py:309-310 | the sample columns are exactly the columns whose label contains `<name>_sample`, in frame order |
| Profile.SampleMean | snowxsql/upload.py:311 | the row mean fails exactly when a sample cell is text, and is NaN exactly when no sample cell is a number |
| Profile.MeanBounds | snowxsql/upload.py:311 | a row mean lies between any lower and upper bound of the row's numeric samples |
| Profile.DensityMean | snowxsql/upload.py:311 | the mean of 190, 245 and a missing cell is 217.5: missing cells are skipped |
| Profile.CopiesRenamed | snowxsql/upload.py:314-316 | each sample column is copied to its label with `<name>_sample` replaced by `sample` |
| Profile.CopiesMarked | snowxsql/upload.py:315 | every copy's label contains `sample` |
| Profile.CopySamplesAdds | snowxsql/upload.py:314-316 | the copies add no column other than their target labels |
| Profile.CopySamplesKeeps | snowxsql/upload.py:314-316 | a column that no copy targets keeps its cells |
| Profile.CopySamplesCopies | snowxsql/upload.py:314-316 | when no copy overwrites another copy's source or target, every target holds its source's cells, missing cells included |
| Profile.RowMeansSpec | snowxsql/upload.py:311 | the mean over the rows fails exactly when some row's mean fails, and otherwise holds each row's mean |
| Profile.MultiSampleSucceeds | snowxsql/upload.py:308-316 | the multi-sample branch fails exactly when some row has a text sample |
| Profile.MultiSampleColumns | snowxsql/upload.py:308-316 | the branch keeps every column and adds only `value` and labels containing `sample` |
| Profile.MultiSampleCells | snowxsql/upload.py:311-316 | in every row `value` is the text of the row's mean, and every column without `sample` in its label keeps its cell |
| Profile.MultiSampleCopies | snowxsql/upload.py:314-316 | when the copies land apart, each `sample` label holds the original sample cells |
| Profile.SingleValue | snowxsql/upload.py:320 | a single profile raises KeyError without its column; otherwise `value` is the text of the data column's cell |
| Profile.StripComment | snowxsql/upload.py:327 | text comments are stripped of spaces; other cells are unchanged |
| Profile.StripComments | snowxsql/upload.py:326-327 | only the comments column changes, cell by cell |
| Profile.Finish | snowxsql/upload.py:323-327 | the finished frame has the kept columns of the built frame |
| Profile.FinishCells | snowxsql/upload.py:323-327 | a finished row holds exactly the kept labels, with the built cells and comments stripped |
| Profile.BuildData | snowxsql/upload.py:286-329 | a built profile keeps one row per layer and only columns the table has, never `id` |
| Profile.BuildDataSteps | snowxsql/upload.py:299-329 | build_data is the header assignment, the value branch, then trimming and comment stripping, and it fails exactly when the value branch fails |
| Profile.BuildDataHeader | snowxsql/upload.py:302-303 | a header value the table expects, other than `id`, `type`, `value` and `comments` and with no `sample` in its name, reaches every built row |
| Profile.BuildDataType | snowxsql/upload.py:305 | every built row has the data name as its `type` |
| Profile.BuildDataSingle | snowxsql/upload.py:318-320 | a single profile fails, with KeyError, exactly when neither the frame, the header nor `type` supplies its name; otherwise `value` is that cell as text |
| Profile.BuildDataMultiFails | snowxsql/upload.py:308-311 | a multi-sample profile fails exactly when some layer has a text sample |
| Profile.BuildDataMultiMeans | snowxsql/upload.py:308-311 | a built multi-sample layer's `value` is the text of its sample mean |
| Profile.BuildDataComments | snowxsql/upload.py:326-327 | every built row's comment is the original comment stripped of spaces |
| Profile.BuildDataSamples | snowxsql/upload.py:314-316 | when the renamed copies land apart (no copy's target is another copy's source), each renamed sample column the table expects holds the layer's original sample cell |
| Points.Appended | snowxsql/upload.py:390 | the labels after a row-wise apply are the frame's, in order, followed by the new keys |
| Points.AppendedDistinct | snowxsql/upload.py:390 | appending new keys keeps the labels unique |
| Points.ApplyRows | snowxsql/upload.py:390 | a row-wise apply maps every row through the helper and adds its keys to the labels |
| Points.RenameInstruments | snowxsql/upload.py:383-386 | renaming instruments keeps the labels and the rows |
| Points.RenameInstrumentsCells | snowxsql/upload.py:383-386 | only the `instrument` cell is remapped, with the measurement names table; without that column the frame is unchanged |
| Points.DefaultZone | snowxsql/upload.py:395-396 | after the default zone step the frame has a `utm_zone` column |
| Points.DefaultZoneCells | snowxsql/upload.py:395-396 | an existing `utm_zone` column is left alone; otherwise every row gets the uploader's `utm_zone` (12 by default) |
| Points.DefaultSettings | snowxsql/upload.py:374-401 | with the default settings a table without `utm_zone` gets zone 12 on every row, and every geometry is made for EPSG 26912 |
| Points.AddGeometry | snowxsql/upload.py:401 | a `geom` column is added to the labels |
| Points.AddGeometryCells | snowxsql/upload.py:401 | every row gets the geometry built from it with the uploader's EPSG code |
| Points.Prepare | snowxsql/upload.py:376-403 | prepare keeps the number of rows; the labels are the frame's plus the date and time keys, the reprojection keys, `utm_zone` and `geom` |
| Points.PrepareRows | snowxsql/upload.py:376-403 | each prepared row is the row taken through the five steps in the source's order |
| Points.PrepareRowKeys | snowxsql/upload.py:376-403 | a prepared row's keys are its own plus everything the steps add |
| Points.BuildPointData | snowxsql/upload.py:405-422 | build_data raises KeyError exactly when the frame lacks the data name's column, and otherwise keeps one row per point |
| Points.LabelledRows | snowxsql/upload.py:411-417 | before trimming, each row is its table row with value, type and perhaps units set |
| Points.LabelledColumns | snowxsql/upload.py:411-417 | before trimming, the labels are the table's plus value, type and, for a name with known units, units, each appended if new |
| Points.BuildPointColumns | snowxsql/upload.py:405-422 | the built columns are the kept columns of the table's labels followed by value, type and perhaps units |
| Points.BuildPointCells | snowxsql/upload.py:405-422 | a built row holds exactly the labelled cells the table has, never `id`, each unchanged |
| Points.LabelledRowCells | snowxsql/upload.py:411-417 | value is the data column's cell, type the data name, units the name's units when known; every other cell is the table's own |
| Raster.CommandRoundTrip | snowxsql/upload.py:456-468 | the command line carries every setting: EPSG code, tiling, no-data value and file name can all be read back from it |
| Raster.BuildCommand | snowxsql/upload.py:456-468 | appending word by word yields raster2pgsql, `-s` and the code, then `-t 500x500` when tiled, `-N` and the value when set, then the file name |
| Raster.TileCount | snowxsql/upload.py:473-474 | there are as many tiles as occurrences of `VALUES ('` in the output |
| Raster.TileCut | snowxsql/upload.py:473-474 | tile k is the prefix of the text after marker k + 1 up to its first `'::` (all of that text when there is none); that text holds no marker, and the pieces rejoin into the output |
| Raster.TileFrame | snowxsql/upload.py:453-480 | the frame has the single column `raster` and one row per tile |
| Raster.RasterRows | snowxsql/upload.py:480-484 | one row per tile in order, each holding its tile and every metadata key with its value, a key named raster overriding the tile |
| Raster.Read | snowxsql/upload.py:448-486 | `_read` yields the frame of the tiles of the output of the command line its settings describe |
| Text.Lower | scripts/upload/parse_met_names.py:39 | `lower()` keeps the length, leaves no ASCII capital and changes only capitals |
| Text.ReplaceCharCounts | scripts/upload/parse_met_names.py:39 | replacing a by a different b leaves no a; b then occurs as often as a and b did before, and every other character keeps its count |
| Text.RemoveChar | scripts/upload/parse_met_names.py:43 | removing a character keeps every other character and only those; a string without it is unchanged |
| Text.RemoveCharCounts | scripts/upload/parse_met_names.py:43 | removing a character drops all its occurrences and keeps the count of every other character |
| Text.RemoveCharConcat | scripts/upload/parse_met_names.py:43 | removing a character from a concatenation removes it from each part, so the characters that stay keep their order |
| Text.StripSet | snowxsql/upload.py:327 | `strip` leaves no stripped character at either end |
| Text.StripCutsOnlyEnds | snowxsql/upload.py:327 | `strip` removes only stripped characters, and only from the ends |
| Text.StripInfix | snowxsql/upload.py:327 | the stripped string is a contiguous part of the original |
| Text.StripIdempotent | snowxsql/upload.py:327 | stripping twice is stripping once |
| Text.IndexOfSpec | snowxsql/upload.py:310 | the search behind `kw in c` returns the first match, and nothing only when there is no match |
| Text.SplitPiecesClean | snowxsql/upload.py:473 | no piece of a split contains the separator |
| Text.SplitCount | snowxsql/upload.py:473 | a split has one piece more than the occurrences of the separator |
| Text.SplitFirst | snowxsql/upload.py:474 | the first piece is the prefix up to the first separator, or the whole string |
| Text.JoinSplit | snowxsql/upload.py:473 | joining the pieces of a split with the same separator gives back the string |
| Text.SplitJoinChar | scripts/upload/parse_met_names.py:31 | splitting on a one-character separator undoes joining with it when no part holds it |
| Text.SplitHasSecond | scripts/upload/parse_met_names.py:51 | `split('_')[1]` exists exactly when the string holds an underscore |
| Text.ReplaceAbsent | snowxsql/upload.py:315 | replacing a pattern that does not occur changes nothing |
| Text.ReplaceInserts | snowxsql/upload.py:315 | replacing a pattern that occurs leaves its replacement in the result |
| Text.ReplaceSplitJoin | snowxsql/upload.py:315 | `s.replace(t, w)` is `w.join(s.split(t))`: every occurrence is replaced, left to right |
| Text.IntTextRoundTrip | snowxsql/upload.py:456 | `str(n)` of an integer reads back as n |
| MetNames.CanonicalNameClean | scripts/upload/parse_met_names.py:39 | a canonical name has no space, slash or capital |
| MetNames.CanonicalNameStripped | scripts/upload/parse_met_names.py:39 | a canonical name has no white space at either end |
| MetNames.CanonicalNameFixed | scripts/upload/parse_met_names.py:39 | canonicalising a canonical name changes nothing |
| MetNames.UnitsNameClean | scripts/upload/parse_met_names.py:43 | units have no parentheses and no capitals |
| MetNames.Entries | scripts/upload/parse_met_names.py:36-37 | one parsed entry per line |
| MetNames.BuildStops | scripts/upload/parse_met_names.py:36-43 | once a line has failed, later lines change nothing |
| MetNames.BuildFails | scripts/upload/parse_met_names.py:36-43 | the line loop succeeds exactly when every line has four fields, and fails with the IndexError of the first short line |
| MetNames.BuildRename | scripts/upload/parse_met_names.py:40-41 | rename has a key for every line's original name and no other; the value is the canonical name of the last line with that original name |
| MetNames.BuildTables | scripts/upload/parse_met_names.py:39-43 | instruments and units have the same keys, exactly the lines' canonical names; each holds the last line's instrument and units for that name |
| MetNames.BuildStep | scripts/upload/parse_met_names.py:36-43 | one more line either fails with its index or adds its entry |
| MetNames.ParseLines | scripts/upload/parse_met_names.py:36-43 | the loop computes the tables, or the short-line error, that `Parsed` defines |
| MetNames.StripAll | scripts/upload/parse_met_names.py:31 | one string per piece, each with no white space at either end and no longer than its piece |
| MetNames.NonEmpty | scripts/upload/parse_met_names.py:31 | keeps exactly the non-empty strings, in order |
| MetNames.TokensClean | scripts/upload/parse_met_names.py:31 | every special column is non-empty and stripped, holds no space, tab or newline, and is made of characters of the text |
| MetNames.SpecialColsTextLacks | scripts/upload/parse_met_names.py:18-29 | the special_cols text holds no dash and no capital X |
| MetNames.SpecialColsLack | scripts/upload/parse_met_names.py:18-31 | no special column holds a dash or a capital X |
| MetNames.SuffixCases | scripts/upload/parse_met_names.py:49-62 | a column gets no suffix exactly when it holds neither TCstringC nor IRtarget; it raises IndexError exactly when it holds one of them and no underscore; a suffix starts with an underscore |
| MetNames.SuffixThermocouple | scripts/upload/parse_met_names.py:50-56 | a thermocouple column's suffix is its second token followed by below_soil for `TCstringC-s` columns, and by above_soil otherwise |
| MetNames.SuffixTarget | scripts/upload/parse_met_names.py:58-62 | an infrared target's suffix is its location, with 30degN and 30degS spelt out |
| MetNames.SpecialColsAboveSoil | scripts/upload/parse_met_names.py:29-56 | no special column is a below-soil thermocouple: the text has no `TCstringC-s` |
| MetNames.BaseNotSpecial | scripts/upload/parse_met_names.py:29-34 | `IRtarget_XXX` is not itself a special column, so the loop never renames its own base |
| MetNames.PatternsStop | scripts/upload/parse_met_names.py:47-71 | once a column has failed, later columns change nothing |
| MetNames.PatternsNext | scripts/upload/parse_met_names.py:47-71 | one more column is one more step |
| MetNames.AddPatternNames | scripts/upload/parse_met_names.py:47-71 | the nested loop over columns and special names computes the tables `Patterns` defines; the base is always the first special name, and the inner loop breaks after it |
| MetNames.NamingNonEmpty | scripts/upload/parse_met_names.py:49-62 | every suffix in a naming is non-empty |
| MetNames.NamingStep | scripts/upload/parse_met_names.py:47-64 | the naming of one more column adds that column's suffix when it has one |
| MetNames.BaseNotDerived | scripts/upload/parse_met_names.py:66 | no derived name equals the base name |
| MetNames.DerivedStep | scripts/upload/parse_met_names.py:65-69 | adding one named column to the reference adds its rename entry and its inherited instrument and units |
| MetNames.PatternStepDerived | scripts/upload/parse_met_names.py:47-71 | one loop step on the reference for some columns gives the reference for one more column, or that column's error |
| MetNames.PatternsReference | scripts/upload/parse_met_names.py:47-71 | when the base name exists and the loop succeeds, its tables are the reference `Derived` for the columns' naming |
| MetNames.PatternsUnnamed | scripts/upload/parse_met_names.py:47-71 | columns without a pattern leave the tables as they were |
| MetNames.PatternsSucceed | scripts/upload/parse_met_names.py:47-71 | the pattern loop succeeds exactly when every column's suffix can be computed and, if some column gets one, the base name is in rename and its name in instruments and units |
| MetNames.DerivedRenames | scripts/upload/parse_met_names.py:65-67 | each named column is renamed to the base name plus its suffix; other rename entries are unchanged; the keys are the old ones plus the named columns |
| MetNames.DerivedInherits | scripts/upload/parse_met_names.py:68-69 | each derived name has the instrument and units of the base name |
| MetNames.DerivedKeeps | scripts/upload/parse_met_names.py:68-69 | entries of other names keep their values; instruments and units gain exactly the derived names |
| MetNames.RunScript | scripts/upload/parse_met_names.py:36-71 | the script runs the line loop, then the pattern loop over the special columns, yielding `MetTables` |
| MetNames.MetTablesDerived | scripts/upload/parse_met_names.py:36-71 | when the script succeeds and the lines define the base name, the final tables are the parsed tables with every special column named after `IRtarget_XXX` plus its suffix |

## Left out

- File and process I/O is not modelled:
  - `pd.read_csv` and the header parser (`DataHeader`)
  - reading `met_names.txt` and pretty-printing the tables
  - the raster2pgsql subprocess and its UTF-8 decoding (the parameter `run`)
- Logging, the progress bar and the error report at the end of `submit` are left out. That
  report formats each exception as a pair, which these exceptions are not, so it would raise
  once errors exist.
- The SQLAlchemy table classes and the session are a single predicate `refuses` on the rows
  committed so far and the new row. Building the record and committing it count as one step
  that either stores the row or raises.
- `add_one` never rolls the session back, and SQLAlchemy refuses every later commit on a session
  whose flush failed until it is rolled back. `refuses` sees only the rows committed so far, not
  earlier failures, so this poisoned session is not captured: without debug the model lets later
  rows commit where the source would record them all as errors.
- `UploadProfileData.submit` (upload.py:331-357) is not modelled; `BaseUploader.submit` is
  modelled instead. It differs from the base loop in three ways: it keeps no error list, it never
  increments `uploaded`, and it ignores `debug`, so every failure of `build_data` or of a commit
  propagates at once.
- `BaseUploader.__init__` and `UploadProfileData.__init__` are not modelled; they read the file
  and copy settings.
- `standardize_depth`, `check_integrity`, `remap_data_names`, `add_date_time_keys`,
  `reproject_point_in_dict` and `add_geom` are outside this model. They are function
  parameters.
- The row helpers of `prepare` are assumed to add a fixed set of keys to every row (the
  predicate `AddsKeys`).
- Profile.SampleMean: follows pandas 2, where `mean(axis=1)` raises TypeError on a text cell.
  pandas 1.x (`numeric_only=None`) would instead drop object columns and average the rest; that
  behaviour is not modelled.
- Floating point is not modelled: cells are real numbers. How pandas prints a number
  (`astype(str)`) is the parameter `numText`.
- A missing cell printed as text is `nan`, which is what `astype(str)` produces; some
  descriptions of the data write it `NaN`.
- `lower()` lowers only ASCII letters. `strip()` with no argument cuts the characters for which
  Python's `str.isspace` holds (Text.Whitespace): the ASCII white space, the separators U+001C to
  U+001F, and the Unicode spaces U+0085, U+00A0, U+1680, U+2000 to U+200A, U+2028, U+2029, U+202F,
  U+205F and U+3000.
- The no-data value of a raster is an integer.
- Points.ApplyRows: the position at which `apply` puts new labels is fixed as appended at the
  end; the model states only the set of labels after it.
- Profile.MultiSampleCopies, Profile.BuildDataSamples: stated only when no copy lands on another copy's source or
  target. Otherwise the result depends on the order of the copies.
- MetNames.MetTablesDerived: states the final tables only when the script succeeds and the
  lines define `IRtarget_XXX` and its name. The other cases are covered by PatternsSucceed and
  BuildFails.
- MetNames: a script that raises part-way has already updated some tables. The model returns
  only the error, because the script prints nothing in that case.
