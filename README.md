# NI tourist map: nearest-facility annotation, modelled in Dafny

This project models the data-integration script of the NI tourist map. The script has two forms.
`NI_TouristMap/Integrated_Data_Analysis.py` runs the steps inline. `NI_TouristMap/Integrated_Data_Analysis_numpy.py` restates each step as a named function.

The heart of the script is an annotation loop. It runs once over the tourist sites (polygons, queried at their centroid) and once over the coastal spots (points). For each row it does the following:

- It measures the distance from the query location to every transport station and to every GP practice. A station or practice without a geometry gets a NaN distance.
- It takes the first position of the smallest distance in each series (`argmin`) and that distance (`min`). Both skip NaN.
- It writes four cells into that row only:
  - `Near_T_Hub`: the station's name, title-cased.
  - `Near_GP`: the practice's `PracticeName`, unchanged.
  - `Trans_Dist` and `GP_Dist`: both distances divided by 1000 (metres to km).
- After the loop, both km columns are rounded to two decimals, half to even.

Around the loop there are table stages:

- The postcode/practice inner join.
- The `startswith("BT")` filter.
- The column drop.
- The column projections.
- The join of the practices with the annotated sites on `PracticeName == Near_GP`.
- The renaming of the output columns.

How the model is laid out:

- `errors.dfy`: the exceptions the script can raise (`Error`), plus `Result` and `Option`.
- `geometry.dfy`: planar points and shapes. A polygon carries its centroid. `Metric` is the distance function geopandas provides, taken as a parameter.
- `units.dfy`: metres to km, and `round(2)` (half to even) on exact reals.
- `text.dfy`: `str.title()` on ASCII letters, and `startswith`.
- `nearest.dfy`: first `argmin`, `min`, and the `find_nearest_*` / `find_minimum_distance_*` helpers, over distance series whose NaN entries (a reference without a geometry) are `None`.
- `frames.dfy`: tables as values, in pandas' semantics:
  - `.loc` cell writes. Writing to a new column adds it, with NaN in every other row.
  - Whole-column writes.
  - Column rounding.
  - The prefix filter.
  - Drop, select and rename.
  - The inner equality join.
- `annotate.dfy`: one pass of the loop body (`AnnotateRow`), the whole loop (`Run`), and the rounding after it (`RoundDistances`). The loop reads query rows from a snapshot of the table (the reprojected copy `iterrows()` walks over) and writes into the live table.
- `helpers.dfy`: the per-row and whole-column helpers of the `_numpy` form.
- `querytable.dfy`: the query table as a class `GeoFrame`, whose methods update its columns and rows in place. The methods are:
  - `SetCell`, `SetColumn`, `RoundColumn`.
  - `AnnotateOne` (one pass of the loop body) and `AnnotateNearest` (the loop).
  - `RoundDistanceColumns`.
  - The four `_numpy` annotation helpers.
  - `Centroids`.
  - `RenameOutputColumns`.

  Each method is proved equal to the function in `frames.dfy`, `annotate.dfy` or `helpers.dfy` that specifies it.
- `pipeline.dfy`: the concrete stages of the script, with their column lists and key names. It also holds the whole-pipeline property: every annotated site meets its practice in the join at line 193.

The transport and practice tables are values passed to every operation. That they are never modified therefore follows from the types. Only the query table is a mutable object.

Where the `_numpy` form uses `ind` without receiving it (lines 861 and 889), the model takes the row as a parameter.

## Model

| member | source | states |
|---|---|---|
| Geometry.Centroid | NI_TouristMap/Integrated_Data_Analysis.py:156 | a point's centroid is the point itself; a polygon's is the centroid it carries |
| Units.ToKm | NI_TouristMap/Integrated_Data_Analysis.py:172-173 | the stored km value times 1000 is the metre distance; non-negative stays non-negative |
| Units.RoundHalfEven | NI_TouristMap/Integrated_Data_Analysis.py:176-177 | the result is an integer within 0.5 of the input; on an exact half it is the even neighbour |
| Units.Round2Spec | NI_TouristMap/Integrated_Data_Analysis.py:176-177 | `round(2)` gives a whole number of hundredths within 0.005 of the input, ties going to the even hundredth |
| Units.Round2OfHundredths | NI_TouristMap/Integrated_Data_Analysis.py:176-177 | a value that already has two decimals is left unchanged by `round(2)` |
| Units.RoundHalfEvenOfInteger | NI_TouristMap/Integrated_Data_Analysis.py:176-177 | an integer rounds to itself |
| Units.Round2Idempotent | NI_TouristMap/Integrated_Data_Analysis.py:176-177 | rounding an already rounded column changes nothing |
| Units.RoundHalfEvenMonotone | NI_TouristMap/Integrated_Data_Analysis.py:176-177 | rounding to an integer preserves order |
| Units.Round2Monotone | NI_TouristMap/Integrated_Data_Analysis.py:176-177 | rounding to hundredths never reverses the order of two distances |
| Units.StoredKm | NI_TouristMap/Integrated_Data_Analysis.py:172-177 | the value finally stored (convert to km, then round) is within 0.005 km of metres/1000 and non-negative for a non-negative distance |
| Units.StoredKmExample | NI_TouristMap/Integrated_Data_Analysis.py:172-177 | 1234.5 m is stored as 1.23 km; 3 m as 0.0 km |
| Units.StoredKmTieExample | NI_TouristMap/Integrated_Data_Analysis.py:172-177 | on exact reals, halves go to the even hundredth: 1235 m gives 1.24, 1225 m gives 1.22 |
| Units.ConvertThenRoundMatters | NI_TouristMap/Integrated_Data_Analysis.py:172-177 | the order convert-then-round differs from round-then-convert |
| Text.ToUpper | NI_TouristMap/Integrated_Data_Analysis.py:168 | lower-case letters become upper-case, all other characters are kept |
| Text.ToLower | NI_TouristMap/Integrated_Data_Analysis.py:168 | upper-case letters become lower-case, all other characters are kept |
| Text.TitleFrom | NI_TouristMap/Integrated_Data_Analysis.py:168 | title-casing the rest of a name keeps its length |
| Text.TitleCase | NI_TouristMap/Integrated_Data_Analysis.py:168 | `str.title()` keeps the length of the station name |
| Text.TitleFromAt | NI_TouristMap/Integrated_Data_Analysis.py:168 | each character is upper-cased after a non-letter and lower-cased after a letter |
| Text.TitleCaseAt | NI_TouristMap/Integrated_Data_Analysis.py:168 | a letter that starts a word is upper-case, any other letter lower-case; non-letters are unchanged |
| Text.TitleCaseKeepsCasedness | NI_TouristMap/Integrated_Data_Analysis.py:168 | letters stay letters and separators stay separators |
| Text.TitleCaseIdempotent | NI_TouristMap/Integrated_Data_Analysis.py:168 | a stored hub name is already in title case |
| Text.TitleFromAppend | NI_TouristMap/Integrated_Data_Analysis.py:168 | title-casing a concatenation is title-casing each part, the second part continuing from the last character of the first |
| Nearest.DistanceSeries | NI_TouristMap/Integrated_Data_Analysis.py:158-159 | one distance per reference row, in table order; NaN (`None`) exactly where the row has no geometry |
| Nearest.FirstArgMin | NI_TouristMap/Integrated_Data_Analysis.py:161 | `argmin` skips NaN: it returns a position holding the smallest number, with every earlier number strictly larger |
| Nearest.FirstMinUnique | NI_TouristMap/Integrated_Data_Analysis.py:161 | the first position of the minimum is unique |
| Nearest.TieGoesToEarlier | NI_TouristMap/Integrated_Data_Analysis.py:161 | of two equally near facilities the one earlier in the table is chosen |
| Nearest.FirstArgMinDependsOnOrder | NI_TouristMap/Integrated_Data_Analysis.py:161 | two series with NaN at the same positions, whose numbers are ordered alike, have the same `argmin` |
| Nearest.NearestBySquaredDistance | NI_TouristMap/Integrated_Data_Analysis.py:158-161 | for a metric that orders points like the Euclidean distance, the chosen facility is the first one nearest by squared distance, missing points skipped on both sides |
| Nearest.FindNearest | NI_TouristMap/Integrated_Data_Analysis_numpy.py:798-801 | `find_nearest_transport_hub` (and `find_nearest_gp_practice` 827-830, `find_minimum_distance_to_station` 1300-1303, `find_minimum_distance_to_gp` 1330-1333): a series without any number (empty, or every reference without a geometry) raises; otherwise `(i, d)` with `series[i] == d`, `d` no larger than any number of the series and every earlier number larger |
| Nearest.SeriesMin | NI_TouristMap/Integrated_Data_Analysis.py:162 | `min()` is NaN (`None`) exactly when the series holds no number; otherwise it is an entry of the series and no larger than any number in it |
| Nearest.MinDistances | NI_TouristMap/Integrated_Data_Analysis_numpy.py:769-772 | `calculate_distances_to_nearest_points` returns the smallest distance to a hub and to a practice, NaN exactly when no facility of that kind has a geometry, otherwise attained by some facility and no larger than the distance to any facility with a geometry |
| Nearest.FindNearestAgreesWithMin | NI_TouristMap/Integrated_Data_Analysis.py:161-162 | `argmin` and `min` fail together, and the distance at the chosen index is the minimum |
| Frames.WithCell | NI_TouristMap/Integrated_Data_Analysis.py:168 | `.loc[i, col] = v` sets the cell; a new column is appended with NaN in every other row; all other cells keep their values |
| Frames.WithCellWellFormed | NI_TouristMap/Integrated_Data_Analysis.py:168 | a cell write keeps column names unique and every row complete |
| Frames.WithColumn | NI_TouristMap/Integrated_Data_Analysis_numpy.py:1369 | `df[col] = v` gives every row the value `v` in that column and keeps every other cell |
| Frames.RoundCell | NI_TouristMap/Integrated_Data_Analysis.py:176 | a number becomes a whole number of hundredths within 0.005 of it; NaN stays NaN |
| Frames.RoundedColumn | NI_TouristMap/Integrated_Data_Analysis.py:176 | `df.col.round(2)` fails on a missing or non-numeric column; otherwise it rounds that column in every row and keeps every other cell |
| Frames.RoundedColumnIdempotent | NI_TouristMap/Integrated_Data_Analysis.py:176 | rounding a column twice gives the same table as rounding it once |
| Frames.KeepPrefixed | NI_TouristMap/Integrated_Data_Analysis.py:120 | the kept rows are rows of the input whose cell starts with the prefix |
| Frames.KeptIndicesExactly | NI_TouristMap/Integrated_Data_Analysis.py:120 | the kept positions are increasing, and a position is kept exactly when its cell starts with the prefix |
| Frames.KeptRowsAtIndices | NI_TouristMap/Integrated_Data_Analysis.py:120 | the k-th kept row is the input row at the k-th kept position |
| Frames.KeepPrefixedExactly | NI_TouristMap/Integrated_Data_Analysis.py:120 | the filter keeps exactly the prefixed rows, in their original order |
| Frames.FilterByPrefix | NI_TouristMap/Integrated_Data_Analysis.py:120 | the boolean mask raises on a missing column or a non-text cell; otherwise the same columns, and a row is kept exactly when it starts with the prefix |
| Frames.Without | NI_TouristMap/Integrated_Data_Analysis.py:123 | the remaining names are exactly the names not dropped, still distinct |
| Frames.DropColumns | NI_TouristMap/Integrated_Data_Analysis.py:123 | `drop(columns=...)` raises when a listed column is absent; otherwise it keeps exactly the other columns with their values |
| Frames.SelectColumns | NI_TouristMap/Integrated_Data_Analysis.py:187 | `df[[...]]` raises when a listed column is absent; otherwise exactly those columns, in that order, with their values |
| Frames.RenameRow | NI_TouristMap/Integrated_Data_Analysis.py:202 | each cell moves to its new name with its value |
| Frames.RenamedNames | NI_TouristMap/Integrated_Data_Analysis.py:202 | every column name is replaced by its new name, in place |
| Frames.RowRenameInjective | NI_TouristMap/Integrated_Data_Analysis.py:202 | when the new column names are distinct, no two cells of a row collide |
| Frames.RenamedRowKeys | NI_TouristMap/Integrated_Data_Analysis.py:202 | a renamed row has a cell for exactly the renamed columns |
| Frames.RenameColumns | NI_TouristMap/Integrated_Data_Analysis.py:202 | `rename(columns=...)` renames columns in place, ignores names that are not columns, and keeps every value under its new name |
| Frames.MatchesOfMembership | NI_TouristMap/Integrated_Data_Analysis.py:193 | the matches of one left row are exactly that row joined to each right row with an equal key |
| Frames.JoinRowsMembership | NI_TouristMap/Integrated_Data_Analysis.py:193 | a joined row is in the result exactly when it combines a left and a right row with equal keys |
| Frames.JoinRowsKeys | NI_TouristMap/Integrated_Data_Analysis.py:193 | every joined row has the columns of both sides |
| Frames.JoinRowsHasPairs | NI_TouristMap/Integrated_Data_Analysis.py:193 | every pair with equal keys is in the join |
| Frames.ConcatDistinct | NI_TouristMap/Integrated_Data_Analysis.py:193 | disjoint column lists concatenate to a list of distinct names |
| Frames.InnerJoin | NI_TouristMap/Integrated_Data_Analysis.py:193 | `pd.merge(..., how="inner")` (also `merge_dataframes_and_geodataframes`, numpy 1048) raises when a key column is missing; otherwise it has the columns of both sides and contains every pair of rows with equal keys |
| Frames.InnerJoinOnlyPairs | NI_TouristMap/Integrated_Data_Analysis.py:193 | every joined row is a left row next to a right row with an equal key |
| Frames.JoinedKeysAgree | NI_TouristMap/Integrated_Data_Analysis.py:114 | in every joined row both key columns hold the same value |
| Frames.Geometries | NI_TouristMap/Integrated_Data_Analysis.py:158 | the geometry column, in table order, absent exactly for rows without a geometry |
| Annotate.QueryLocation | NI_TouristMap/Integrated_Data_Analysis.py:156 | a site is queried at its polygon's centroid, and a site without a geometry raises at `.centroid`; a coastal spot (line 223) is queried at its point, and a spot without a geometry is queried with none, without raising |
| Annotate.Distances | NI_TouristMap/Integrated_Data_Analysis.py:158-159 | `table.distance(pt)`: the k-th entry is NaN exactly when row k or the query has no geometry, otherwise the distance from row k's geometry to the query |
| Annotate.DistancesPresent | NI_TouristMap/Integrated_Data_Analysis.py:158-159 | a distance series holds a number exactly when the query and some reference row have a geometry |
| Annotate.StationName | NI_TouristMap/Integrated_Data_Analysis.py:168 | the title-cased `Station` of the chosen row; raises when the column is missing or not text |
| Annotate.PracticeName | NI_TouristMap/Integrated_Data_Analysis.py:169 | the `PracticeName` cell of the chosen row exactly as stored; raises when the column is missing |
| Annotate.Expected | NI_TouristMap/Integrated_Data_Analysis.py:156-173 | the four values the loop body writes for a query row, present exactly when the body gets through; an empty-argmin error means a reference table has no row with a geometry or a coastal spot has none, and a coastal spot without a geometry always ends in that error (the all-NaN `argmin` of lines 225-228) |
| Annotate.ExpectedIsNearest | NI_TouristMap/Integrated_Data_Analysis.py:158-173 | the hub is the title-cased name at the first nearest station, the practice the unchanged name at the first nearest practice, and each km value times 1000 is that minimum distance |
| Annotate.WithCellUntouched | NI_TouristMap/Integrated_Data_Analysis.py:168-173 | writing an annotation cell of row i changes nothing outside the annotation cells of row i |
| Annotate.UntouchedTransitive | NI_TouristMap/Integrated_Data_Analysis.py:168-173 | successive writes to row i together change nothing else |
| Annotate.WriteAnnotation | NI_TouristMap/Integrated_Data_Analysis.py:168-173 | the four writes leave row i holding the annotation and change no other cell |
| Annotate.AnnotateRow | NI_TouristMap/Integrated_Data_Analysis.py:156-173 | one pass gets through exactly when the expected annotation exists, then row i holds it; otherwise it raises that error; only row i's annotation cells change; a partial write happens only when `PracticeName` is missing |
| Annotate.FrozenAfterPass | NI_TouristMap/Integrated_Data_Analysis.py:155-173 | a pass on row i followed by later passes keeps row i's annotation and every cell of the earlier rows |
| Annotate.AnnotatableFromAll | NI_TouristMap/Integrated_Data_Analysis.py:155 | the loop can finish from row i exactly when every remaining row is annotatable |
| Annotate.CarriesAt | NI_TouristMap/Integrated_Data_Analysis.py:155 | after the loop a single remaining row holds its own annotation |
| Annotate.CarriesFromAll | NI_TouristMap/Integrated_Data_Analysis.py:155 | after the loop each remaining row holds its own annotation |
| Annotate.RunFrom | NI_TouristMap/Integrated_Data_Analysis.py:155-173 | the loop from row i keeps earlier rows, finishes exactly when every remaining row is annotatable, and then each of those rows holds its annotation |
| Annotate.Run | NI_TouristMap/Integrated_Data_Analysis.py:155-173 | the whole loop (and the coastal loop at 222-240): cells outside the annotation columns keep their values, it finishes exactly when every row is annotatable, and then every row holds its own annotation |
| Annotate.RoundDistances | NI_TouristMap/Integrated_Data_Analysis.py:176-177 | rounds `Trans_Dist` then `GP_Dist` in every row and keeps every other cell; raises for the first missing or non-numeric column in that order |
| Annotate.RoundedCarried | NI_TouristMap/Integrated_Data_Analysis.py:176-177 | a row that held an annotation holds the rounded distances after the rounding |
| Annotate.StoredDistancesRound | NI_TouristMap/Integrated_Data_Analysis.py:176-177 | the rounding gets through when every row holds numeric distances |
| Annotate.RoundableAfterRun | NI_TouristMap/Integrated_Data_Analysis.py:155-177 | after a completed loop over a non-empty table the rounding cannot fail |
| Annotate.RoundedAfterRun | NI_TouristMap/Integrated_Data_Analysis.py:155-177 | after the loop and the rounding every row holds its own distances rounded to hundredths |
| Annotate.StoredDistanceIsRoundedMinimum | NI_TouristMap/Integrated_Data_Analysis.py:158-177 | the finally stored distance is the minimum distance converted to km and then rounded |
| Helpers.AssignNames | NI_TouristMap/Integrated_Data_Analysis_numpy.py:861-862 | `assign_nearest_points_to_columns` writes the title-cased station name and the practice name into row `ind` only. It gets through exactly when both labels exist, the station is text and the practices have `PracticeName`. Each failure names its error: a missing label, a missing `Station`, a non-text station, a missing `PracticeName`. Nothing is written when the station cannot be read; when the practice cannot be read, `Near_T_Hub` already holds the station |
| Helpers.AddDistances | NI_TouristMap/Integrated_Data_Analysis_numpy.py:889-890 | `add_distances_to_columns` stores both distances in km (times 1000 gives the metres) in row `ind` only |
| Helpers.RowHelpersMatchLoop | NI_TouristMap/Integrated_Data_Analysis_numpy.py:836-890 | the two per-row helpers, given what `find_nearest_*` returns, make exactly the writes of one pass of the inline loop |
| Helpers.AssignNamesToAll | NI_TouristMap/Integrated_Data_Analysis_numpy.py:1369-1372 | `assign_nearest_stations_to_coastline` gives every row the same hub and practice name and keeps every other cell |
| Helpers.AddDistancesToAll | NI_TouristMap/Integrated_Data_Analysis_numpy.py:1406-1409 | `add_distances_to_coastline` gives every row the same two km distances and keeps every other cell |
| Helpers.ColumnPass | NI_TouristMap/Integrated_Data_Analysis_numpy.py:1369-1409 | one spot annotated with the whole-column helpers keeps the table well formed and its row count |
| Helpers.ColumnPassGetsThrough | NI_TouristMap/Integrated_Data_Analysis_numpy.py:1369-1409 | the whole-column pass gets through for exactly the spots the loop body gets through |
| Helpers.ColumnPassAnnotatesEveryRow | NI_TouristMap/Integrated_Data_Analysis_numpy.py:1369-1409 | after a whole-column pass every row, not just the spot's own, holds the spot's annotation |
| Helpers.CarriesOne | NI_TouristMap/Integrated_Data_Analysis.py:168-173 | a row holds at most one annotation |
| Helpers.ColumnPassesOverwriteEarlierSpots | NI_TouristMap/Integrated_Data_Analysis_numpy.py:1369-1409 | two spots with different annotations, passed one after the other: the first spot's row no longer holds its own annotation |
| Helpers.RowPassesKeepEarlierSpots | NI_TouristMap/Integrated_Data_Analysis.py:235-240 | the same two spots written row by row: each row keeps its own annotation |
| QueryTables.GeoFrame.SetCell | NI_TouristMap/Integrated_Data_Analysis.py:168 | an in-place `.loc` write leaves the table equal to `Frames.WithCell` of the old table |
| QueryTables.GeoFrame.SetColumn | NI_TouristMap/Integrated_Data_Analysis_numpy.py:1369 | an in-place whole-column write leaves the table equal to `Frames.WithColumn` of the old table |
| QueryTables.GeoFrame.AnnotateOne | NI_TouristMap/Integrated_Data_Analysis.py:156-173 | the in-place loop body ends in the state, and with the error, that `Annotate.AnnotateRow` gives for the old table |
| QueryTables.GeoFrame.AnnotateNearest | NI_TouristMap/Integrated_Data_Analysis.py:155-173 | the in-place loop (and the coastal one at 222-240) ends in the state, and with the error, that `Annotate.Run` gives for the old table |
| QueryTables.GeoFrame.RoundColumn | NI_TouristMap/Integrated_Data_Analysis.py:176 | an in-place column rounding gives `Frames.RoundedColumn` of the old table, or its error with the table unchanged |
| QueryTables.GeoFrame.RoundDistanceColumns | NI_TouristMap/Integrated_Data_Analysis_numpy.py:913-914 | `round_distances` (and `round_distances_to_cm`, 1439-1442) ends as `Annotate.RoundDistances` of the old table |
| QueryTables.GeoFrame.AssignNearestNames | NI_TouristMap/Integrated_Data_Analysis_numpy.py:861-862 | the in-place `assign_nearest_points_to_columns` ends as `Helpers.AssignNames` |
| QueryTables.GeoFrame.AddDistances | NI_TouristMap/Integrated_Data_Analysis_numpy.py:889-890 | the in-place `add_distances_to_columns` ends as `Helpers.AddDistances` |
| QueryTables.GeoFrame.AssignNearestToAllRows | NI_TouristMap/Integrated_Data_Analysis_numpy.py:1369-1372 | the in-place `assign_nearest_stations_to_coastline` ends as `Helpers.AssignNamesToAll` |
| QueryTables.GeoFrame.AddDistancesToAllRows | NI_TouristMap/Integrated_Data_Analysis_numpy.py:1406-1409 | the in-place `add_distances_to_coastline` ends as `Helpers.AddDistancesToAll` |
| QueryTables.GeoFrame.Centroids | NI_TouristMap/Integrated_Data_Analysis_numpy.py:735-739 | `calculate_centroids` returns one centroid per row, in row order, each the query location of that row; it fails exactly when some row has no geometry |
| QueryTables.GeoFrame.RenameOutputColumns | NI_TouristMap/Integrated_Data_Analysis_numpy.py:1125 | the in-place `rename_columns_in_output_df` ends as `Frames.RenameColumns` with the output renaming |
| Pipeline.MergeByPostalCode | NI_TouristMap/Integrated_Data_Analysis_numpy.py:468 | the postcode/practice join (line 114) raises on a missing key; otherwise it has both sides' columns, `postcode` equals `Postcode` in every row, and every matching pair is present |
| Pipeline.FilterNorthernIrelandPostcodes | NI_TouristMap/Integrated_Data_Analysis_numpy.py:515 | keeps exactly the rows whose `postcode` starts with "BT", in their original order; raises on a missing column or a non-text postcode |
| Pipeline.RemoveUnnecessaryColumns | NI_TouristMap/Integrated_Data_Analysis_numpy.py:539 | removes exactly `id`, `Postcode`, `LCG` and `Registered_Patients`, keeping the other columns and their values; raises when one of them is absent |
| Pipeline.NorthernIrelandPractices | NI_TouristMap/Integrated_Data_Analysis.py:114-123 | the merge, filter and drop together give the columns of both inputs minus the four dropped ones, and every postcode starts with "BT" |
| Pipeline.SelectTouristColumns | NI_TouristMap/Integrated_Data_Analysis_numpy.py:985 | `filter_necessary_columns`: exactly `SITE` and the four annotation columns, values kept |
| Pipeline.SelectOutputColumns | NI_TouristMap/Integrated_Data_Analysis_numpy.py:1099 | `filter_necessary_columns_and_create_output_df`: exactly the six output columns, values kept |
| Pipeline.SelectCoastalColumns | NI_TouristMap/Integrated_Data_Analysis_numpy.py:1498 | `filter_and_create_coastal_out`: exactly the eight coastal columns, values kept |
| Pipeline.OutputNamesRename | NI_TouristMap/Integrated_Data_Analysis_numpy.py:1125 | the output renaming maps `SITE` to "Tourist Sites", `postcode` to "PostCode" and keeps every other name |
| Pipeline.OutputRenameKeepsDistinct | NI_TouristMap/Integrated_Data_Analysis_numpy.py:1125 | the renamed output columns are still distinct |
| Pipeline.OutputRenameColumns | NI_TouristMap/Integrated_Data_Analysis_numpy.py:1125 | the output table's columns become "Tourist Sites", the four annotation columns, and "PostCode" |
| Pipeline.OutputRenameValues | NI_TouristMap/Integrated_Data_Analysis_numpy.py:1125 | every value is kept: the site and postcode under their new names, every other cell as it was |
| Pipeline.AnnotatedPracticeExists | NI_TouristMap/Integrated_Data_Analysis.py:169 | every annotated `Near_GP` value is the `PracticeName` of some practice row |
| Pipeline.PracticeRow | NI_TouristMap/Integrated_Data_Analysis.py:169 | gives the practice row whose `PracticeName` is the annotated value |
| Pipeline.MergeKeepsEverySite | NI_TouristMap/Integrated_Data_Analysis.py:193 | when every `Near_GP` is some practice's name, the join succeeds and every site appears in it next to a practice whose `PracticeName` is that site's `Near_GP` |
| Pipeline.AnnotatedPracticeIsNearest | NI_TouristMap/Integrated_Data_Analysis.py:158-169 | the practice name of an annotation is the `PracticeName` of the first nearest practice row |
| Pipeline.EverySiteMeetsItsPractice | NI_TouristMap/Integrated_Data_Analysis.py:187-193 | when every site's `Near_GP` is its annotation's practice, each row of `tourist_out` appears in the join next to the practice row nearest to its site, which has that name |
| Pipeline.LoopedSitesMeetTheirPractices | NI_TouristMap/Integrated_Data_Analysis.py:155-193 | after a completed loop over a non-empty table the rounding cannot fail, and with a `SITE` column the projection cannot either; after loop, rounding, projection and join, every site appears in the join next to the practice row nearest to it |
| Pipeline.RoundedKeepsTouristColumns | NI_TouristMap/Integrated_Data_Analysis.py:176-187 | once a row carries the annotation columns and the sites have `SITE`, the rounded table has every `tourist_out` column |

## Left out

- File reading and writing (`read_file`, `read_csv`, `to_file`, `to_csv`) and the `.head()` / `.crs` inspections: they are I/O and debugging aids.
- Reprojection (`to_crs`), geometry repair (`buffer(0)`), clipping (`overlay`) and `points_from_xy`: coordinates are taken as already projected and planar. The `to_crs` result discarded at line 252 has no effect and is not modelled.
- Geometry.Shape: empty geometries are not represented. In the script their distance is NaN and `argmin` skips them, as it skips a row without a geometry.
- Annotate.QueryLocation: a coastal spot without a geometry ends in the all-NaN `argmin` error, as under shapely 2. Under shapely 1.x, `distance(None)` raises a TypeError at line 225 instead; either way the loop stops at that row with the table unchanged.
- Distances and polygon centroids: geopandas and shapely compute them. The distance is a parameter (`Geometry.Metric`), and a polygon carries its centroid. `Nearest.NearestBySquaredDistance` ties the choice to squared Euclidean distance for a metric that orders points like it.
- IEEE floating point: `/ 1000` and `round(2)` are modelled on exact reals. Rounding is half to even, as numpy does on the double `x*100`. Float representation effects near halves are not modelled: for 1225 m the double `1225 / 1000` lies just above 1.225 and the script stores 1.23, where `Units.StoredKmTieExample` gives 1.22.
- Text.TitleCase: `str.title()` is modelled on ASCII letters only. Other Unicode letters are treated as separators and are not case-mapped.
- Frames.InnerJoin: both sides must have disjoint column names. pandas' `_x`/`_y` suffixing of shared names is not modelled. The row order is left row by left row, with each left row's matches in right-table order. The contract states which rows the join holds, not how often each occurs: that one output row per matching pair comes from the definition of `JoinRows` and is not stated as an `ensures`.
- Frames.InnerJoin: only `how="inner"` of `merge_dataframes_and_geodataframes` (numpy 1015-1049) is modelled. The other join kinds are never used by the script.
- Frames.WithCell: writing to a row label the table does not have is not modelled. pandas would then add a row, but the loop only writes labels it is iterating over.
- Frames.RenameColumns: requires that no two columns get the same name after renaming. pandas would allow duplicate names, which the table model cannot hold.
- Annotate.RoundDistances: for a table that never received the distance columns (for example an empty query table), the rounding raises a missing-column error. This is what the attribute access `tourist.Trans_Dist` does.
- Pipeline.EverySiteMeetsItsPractice: requires `PracticeName` to be a practice column and the practice columns to be disjoint from the tourist output columns. The first follows from any completed pass; the second is needed by the join model above.
- Annotate.References: requires each reference table to have a `geometry` column, as every GeoDataFrame read from a file has. A row may still lack a geometry there; its distance is NaN and `argmin` and `min` skip it.
- Nearest.FindNearest: when no reference has a geometry, pandas' `argmin` either raises or returns -1 (which the following `.loc` then rejects), depending on the pandas version. The model raises `EmptyArgmin` in both cases.
- `find_distances_to_stations_and_gp_for_coastline` (numpy 1242-1274): it relies on geopandas' index-aligned distance between two tables, which cannot be seen here.
- `find_closest_station_for_coastline` (numpy 1216): it has a docstring and no body.
- NI_TouristMap/NI_TouristMap.py and NI_TouristMap/NI_TouristMap_numpy.py: map rendering and HTML export are not part of this model.

## Findings

| source | as written | input that shows it | evidently intended | confidence | as-written member | corrected member |
|---|---|---|---|---|---|---|
| NI_TouristMap/Integrated_Data_Analysis_numpy.py:1369-1409 | `assign_nearest_stations_to_coastline` and `add_distances_to_coastline` assign one value to the whole column (`coastline_data["Near_T_Hub"] = ...`) | two coastal spots whose nearest station differ, annotated one after the other as the docstring example at line 1366 calls it: the first spot's row ends up with the second spot's station and distances | write only the current spot's row, `coastline_data.loc[ind, ...]`, as the inline loop at lines 1338-1339 and 1379-1380 does | medium, not executed | Helpers.ColumnPassesOverwriteEarlierSpots | Helpers.RowPassesKeepEarlierSpots |
