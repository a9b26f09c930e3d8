/** The query table (tourist sites, coastal spots, the output table) as an object
    whose columns and rows the pipeline updates in place: `.loc` cell writes,
    whole-column assignments, column rounding and `rename(..., inplace=True)`.
    Each method is proved against the function that specifies it. */
module QueryTables {
  import opened Errors
  import opened Geometry
  import opened Units
  import opened Nearest
  import opened Frames
  import opened Annotate
  import Helpers
  import Pipeline

  class GeoFrame {
    var columns: seq<string>
    var rows: seq<Row>

    ghost predicate Valid()
      reads this
    {
      WellFormed(Frame(columns, rows))
    }

    /** The table as a value. */
    function View(): (f: Frame)
      reads this
      ensures f.columns == columns && f.rows == rows
    {
      Frame(columns, rows)
    }

    constructor (f: Frame)
      requires WellFormed(f)
      ensures Valid() && View() == f
    {
      columns := f.columns;
      rows := f.rows;
    }

    /** `df.loc[i, col] = v`: a column that does not exist yet is first added with
        NaN in every row, then the cell is set. */
    method SetCell(i: nat, col: string, v: Value)
      requires Valid() && i < |rows|
      modifies this
      ensures Valid() && View() == WithCell(old(View()), i, col, v)
    {
      WithCellWellFormed(View(), i, col, v);
      if col in columns {
        rows := rows[i := rows[i][col := v]];
      } else {
        var old_rows := rows;
        columns := columns + [col];
        rows := seq(|old_rows|, j requires 0 <= j < |old_rows| => old_rows[j][col := if j == i then v else NaN]);
      }
    }

    /** `df[col] = v`: every row of the column set to the same value. */
    method SetColumn(col: string, v: Value)
      requires Valid()
      modifies this
      ensures Valid() && View() == WithColumn(old(View()), col, v)
    {
      if col !in columns {
        columns := columns + [col];
      }
      var old_rows := rows;
      rows := seq(|old_rows|, j requires 0 <= j < |old_rows| => old_rows[j][col := v]);
    }

    /** The loop body for row `i` (lines 156-173 / 223-240), with the query geometry
        read from `src`. */
    method AnnotateOne(i: nat, src: Row, transport: Frame, gps: Frame, kind: QueryKind, metric: Metric) returns (err: Option<Error>)
      requires Valid() && i < |rows| && References(transport, gps)
      modifies this
      ensures Valid()
      ensures AnnotateRow(old(View()), i, src, transport, gps, kind, metric) ==
        if err.None? then Done(View()) else Stopped(View(), err.value)
    {
      var loc := QueryLocation(src, kind);
      if loc.Err? {
        return Some(loc.error);
      }
      var distTrans := Distances(transport, loc.value, metric);
      var distGp := Distances(gps, loc.value, metric);
      var nT := FindNearest(distTrans);
      if nT.Err? {
        return Some(nT.error);
      }
      var nG := FindNearest(distGp);
      if nG.Err? {
        return Some(nG.error);
      }
      var hub := StationName(transport, nT.value.index);
      if hub.Err? {
        return Some(hub.error);
      }
      SetCell(i, NearHub, Str(hub.value));
      var gp := PracticeName(gps, nG.value.index);
      if gp.Err? {
        return Some(gp.error);
      }
      SetCell(i, NearGp, gp.value);
      SetCell(i, TransDist, Num(ToKm(nT.value.distance)));
      SetCell(i, GpDist, Num(ToKm(nG.value.distance)));
      return None;
    }

    /** The annotation loop (lines 155-173 / 222-240): row after row, in order, until
        the first exception, which is returned. */
    method AnnotateNearest(transport: Frame, gps: Frame, kind: QueryKind, metric: Metric) returns (err: Option<Error>)
      requires Valid() && References(transport, gps)
      modifies this
      ensures Valid()
      ensures Run(old(View()), transport, gps, kind, metric) ==
        if err.None? then Done(View()) else Stopped(View(), err.value)
    {
      var snap := View();
      ghost var goal := RunFrom(snap, snap, 0, transport, gps, kind, metric);
      RunStartsAtFirstRow(snap, transport, gps, kind, metric);
      var i := 0;
      err := None;
      while i < |snap.rows|
        invariant 0 <= i <= |snap.rows|
        invariant Valid() && |rows| == |snap.rows|
        invariant err.None? && RunFrom(snap, View(), i, transport, gps, kind, metric) == goal
      {
        ghost var before := View();
        RunFromStep(snap, before, i, transport, gps, kind, metric);
        err := AnnotateOne(i, snap.rows[i], transport, gps, kind, metric);
        if err.Some? {
          assert goal == Stopped(View(), err.value);
          return;
        }
        i := i + 1;
      }
      assert goal == Done(View());
    }

    /** `df.col = df.col.round(2)`: the rounded column is computed first and then
        assigned, so a failure leaves the table unchanged. */
    method RoundColumn(col: string) returns (err: Option<Error>)
      requires Valid()
      modifies this
      ensures Valid()
      ensures var r := RoundedColumn(old(View()), col);
        && (r.Ok? ==> err.None? && View() == r.value)
        && (r.Err? ==> err == Some(r.error) && View() == old(View()))
    {
      if col !in columns {
        return Some(MissingColumn(col));
      }
      assert col in ColumnSet(columns);
      var out: seq<Row> := [];
      var j := 0;
      while j < |rows|
        invariant 0 <= j <= |rows| && |out| == j
        invariant forall k :: 0 <= k < j ==> Numeric(rows[k][col]) && out[k] == rows[k][col := RoundCell(rows[k][col])]
      {
        var v := rows[j][col];
        if !Numeric(v) {
          return Some(NotNumeric(col));
        }
        out := out + [rows[j][col := RoundCell(v)]];
        j := j + 1;
      }
      rows := out;
      return None;
    }

    /** `round_distances` / `round_distances_to_cm` (lines 176-177 / 243-244):
        `Trans_Dist`, then `GP_Dist`. */
    method RoundDistanceColumns() returns (err: Option<Error>)
      requires Valid()
      modifies this
      ensures Valid()
      ensures RoundDistances(old(View())) == if err.None? then Done(View()) else Stopped(View(), err.value)
    {
      err := RoundColumn(TransDist);
      if err.Some? {
        return;
      }
      err := RoundColumn(GpDist);
    }

    /** `assign_nearest_points_to_columns`, for row `ind`. */
    method AssignNearestNames(ind: nat, iT: int, iG: int, transport: Frame, gps: Frame) returns (err: Option<Error>)
      requires Valid() && ind < |rows| && WellFormed(transport) && WellFormed(gps)
      modifies this
      ensures Valid()
      ensures Helpers.AssignNames(old(View()), ind, iT, iG, transport, gps) ==
        if err.None? then Done(View()) else Stopped(View(), err.value)
    {
      if !(0 <= iT < |transport.rows|) {
        return Some(MissingLabel(iT));
      }
      var hub := StationName(transport, iT);
      if hub.Err? {
        return Some(hub.error);
      }
      SetCell(ind, NearHub, Str(hub.value));
      if !(0 <= iG < |gps.rows|) {
        return Some(MissingLabel(iG));
      }
      var gp := PracticeName(gps, iG);
      if gp.Err? {
        return Some(gp.error);
      }
      SetCell(ind, NearGp, gp.value);
      return None;
    }

    /** `add_distances_to_columns`, for row `ind`. */
    method AddDistances(ind: nat, metresT: real, metresG: real)
      requires Valid() && ind < |rows|
      modifies this
      ensures Valid() && View() == Helpers.AddDistances(old(View()), ind, metresT, metresG)
    {
      SetCell(ind, TransDist, Num(ToKm(metresT)));
      SetCell(ind, GpDist, Num(ToKm(metresG)));
    }

    /** `assign_nearest_stations_to_coastline`: whole columns. */
    method AssignNearestToAllRows(iT: int, iG: int, transport: Frame, gps: Frame) returns (err: Option<Error>)
      requires Valid() && WellFormed(transport) && WellFormed(gps)
      modifies this
      ensures Valid()
      ensures Helpers.AssignNamesToAll(old(View()), iT, iG, transport, gps) ==
        if err.None? then Done(View()) else Stopped(View(), err.value)
    {
      if !(0 <= iT < |transport.rows|) {
        return Some(MissingLabel(iT));
      }
      var hub := StationName(transport, iT);
      if hub.Err? {
        return Some(hub.error);
      }
      SetColumn(NearHub, Str(hub.value));
      if !(0 <= iG < |gps.rows|) {
        return Some(MissingLabel(iG));
      }
      var gp := PracticeName(gps, iG);
      if gp.Err? {
        return Some(gp.error);
      }
      SetColumn(NearGp, gp.value);
      return None;
    }

    /** `add_distances_to_coastline`: whole columns. */
    method AddDistancesToAllRows(metresT: real, metresG: real)
      requires Valid()
      modifies this
      ensures Valid() && View() == Helpers.AddDistancesToAll(old(View()), metresT, metresG)
    {
      SetColumn(TransDist, Num(ToKm(metresT)));
      SetColumn(GpDist, Num(ToKm(metresG)));
    }

    /** `calculate_centroids`: the centroid of every row's geometry, in row order. A
        row without a geometry stops the loop. */
    method Centroids() returns (r: Result<seq<Point>>)
      requires Valid()
      ensures r.Ok? <==> forall k :: 0 <= k < |rows| ==> QueryLocation(rows[k], SiteCentroid).Ok?
      ensures r.Ok? ==> |r.value| == |rows|
      ensures r.Ok? ==> forall k :: 0 <= k < |rows| ==> QueryLocation(rows[k], SiteCentroid) == Ok(Some(Pt(r.value[k])))
      ensures r.Err? ==> exists k :: 0 <= k < |rows| && QueryLocation(rows[k], SiteCentroid) == Err(r.error)
    {
      var centroids: seq<Point> := [];
      var k := 0;
      while k < |rows|
        invariant 0 <= k <= |rows| && |centroids| == k
        invariant forall m :: 0 <= m < k ==> QueryLocation(rows[m], SiteCentroid) == Ok(Some(Pt(centroids[m])))
      {
        var loc := QueryLocation(rows[k], SiteCentroid);
        if loc.Err? {
          return Err(loc.error);
        }
        centroids := centroids + [loc.value.value.at];
        k := k + 1;
      }
      return Ok(centroids);
    }

    /** `rename_columns_in_output_df`: `SITE` becomes "Tourist Sites" and `postcode`
        becomes "PostCode", in place; other names and all values stay. */
    method RenameOutputColumns()
      requires Valid() && RenameKeepsDistinct(columns, Pipeline.OutputNames)
      modifies this
      ensures Valid() && View() == RenameColumns(old(View()), Pipeline.OutputNames)
    {
      var renamed := RenameColumns(View(), Pipeline.OutputNames);
      columns, rows := renamed.columns, renamed.rows;
    }
  }
}
