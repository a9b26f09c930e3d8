/** The helper functions of the `_numpy` variant of the script, each restating
    one step of the annotation loop. The row label `ind`, which those helpers use
    without receiving it, is a parameter here. Two of the coastline helpers write
    a whole column instead of one row. */
module Helpers {
  import opened Errors
  import opened Geometry
  import opened Text
  import opened Units
  import opened Nearest
  import opened Frames
  import opened Annotate

  /** `assign_nearest_points_to_columns`: row `ind` gets the title-cased `Station` of
      the transport row labelled `iT`, then the `PracticeName` of the practice row
      labelled `iG`. A label the table lacks is a KeyError. When the practice cannot
      be read, `Near_T_Hub` has already been written. */
  function AssignNames(f: Frame, ind: nat, iT: int, iG: int, transport: Frame, gps: Frame): (o: Outcome)
    requires WellFormed(f) && ind < |f.rows| && WellFormed(transport) && WellFormed(gps)
    ensures WellFormed(o.frame) && |o.frame.rows| == |f.rows| && ColumnsGrow(f, o.frame) && Untouched(f, o.frame, ind)
    ensures o.Done? <==>
      && 0 <= iT < |transport.rows| && "Station" in transport.columns && transport.rows[iT]["Station"].Str?
      && 0 <= iG < |gps.rows| && "PracticeName" in gps.columns
    ensures o.Done? ==>
      && NearHub in o.frame.rows[ind] && NearGp in o.frame.rows[ind]
      && o.frame.rows[ind][NearHub] == Str(TitleCase(transport.rows[iT]["Station"].s))
      && o.frame.rows[ind][NearGp] == gps.rows[iG]["PracticeName"]
    ensures o.Stopped? && !(0 <= iT < |transport.rows|) ==> o.error == MissingLabel(iT)
    ensures o.Stopped? && 0 <= iT < |transport.rows| && "Station" !in transport.columns ==>
      o.error == MissingColumn("Station")
    ensures o.Stopped? && 0 <= iT < |transport.rows| && "Station" in transport.columns && !transport.rows[iT]["Station"].Str? ==>
      o.error == NotText("Station")
    ensures o.Stopped? && !(0 <= iT < |transport.rows| && "Station" in transport.columns && transport.rows[iT]["Station"].Str?) ==>
      o.frame == f
    ensures o.Stopped? && 0 <= iT < |transport.rows| && "Station" in transport.columns && transport.rows[iT]["Station"].Str? ==>
      && NearHub in o.frame.rows[ind]
      && o.frame.rows[ind][NearHub] == Str(TitleCase(transport.rows[iT]["Station"].s))
      && o.error == (if 0 <= iG < |gps.rows| then MissingColumn("PracticeName") else MissingLabel(iG))
  {
    if !(0 <= iT < |transport.rows|) then Stopped(f, MissingLabel(iT))
    else
      match StationName(transport, iT)
      case Err(e) => Stopped(f, e)
      case Ok(hub) =>
        WithCellUntouched(f, ind, NearHub, Str(hub));
        var f1 := WithCell(f, ind, NearHub, Str(hub));
        if !(0 <= iG < |gps.rows|) then Stopped(f1, MissingLabel(iG))
        else
          match PracticeName(gps, iG)
          case Err(e) => Stopped(f1, e)
          case Ok(gp) =>
            WithCellUntouched(f1, ind, NearGp, gp);
            UntouchedTransitive(f, f1, WithCell(f1, ind, NearGp, gp), ind);
            Done(WithCell(f1, ind, NearGp, gp))
  }

  /** `add_distances_to_columns`: row `ind` gets both distances, metres divided by 1000. */
  function AddDistances(f: Frame, ind: nat, metresT: real, metresG: real): (g: Frame)
    requires WellFormed(f) && ind < |f.rows|
    ensures WellFormed(g) && |g.rows| == |f.rows| && ColumnsGrow(f, g) && Untouched(f, g, ind)
    ensures TransDist in g.rows[ind] && GpDist in g.rows[ind]
    ensures g.rows[ind][TransDist].Num? && g.rows[ind][TransDist].r * 1000.0 == metresT
    ensures g.rows[ind][GpDist].Num? && g.rows[ind][GpDist].r * 1000.0 == metresG
  {
    WithCellUntouched(f, ind, TransDist, Num(ToKm(metresT)));
    var f1 := WithCell(f, ind, TransDist, Num(ToKm(metresT)));
    WithCellUntouched(f1, ind, GpDist, Num(ToKm(metresG)));
    UntouchedTransitive(f, f1, WithCell(f1, ind, GpDist, Num(ToKm(metresG))), ind);
    WithCell(f1, ind, GpDist, Num(ToKm(metresG)))
  }

  /** The per-row helpers, called with what `find_nearest_transport_hub` and
      `find_nearest_gp_practice` return, make exactly the writes of one pass of the
      loop. */
  lemma RowHelpersMatchLoop(f: Frame, i: nat, src: Row, transport: Frame, gps: Frame, kind: QueryKind, metric: Metric)
    requires WellFormed(f) && i < |f.rows| && References(transport, gps)
    requires Annotatable(src, transport, gps, kind, metric)
    ensures var q := QueryLocation(src, kind).value;
      var nT := FindNearest(Distances(transport, q, metric)).value;
      var nG := FindNearest(Distances(gps, q, metric)).value;
      var named := AssignNames(f, i, nT.index, nG.index, transport, gps);
      && named.Done?
      && AddDistances(named.frame, i, nT.distance, nG.distance) == AnnotateRow(f, i, src, transport, gps, kind, metric).frame
  {
  }

  /** `assign_nearest_stations_to_coastline`: the whole `Near_T_Hub` column gets the
      title-cased `Station` at label `iT`, then the whole `Near_GP` column the
      `PracticeName` at label `iG`; every row ends up holding the same two names. */
  function AssignNamesToAll(f: Frame, iT: int, iG: int, transport: Frame, gps: Frame): (o: Outcome)
    requires WellFormed(f) && WellFormed(transport) && WellFormed(gps)
    ensures WellFormed(o.frame) && |o.frame.rows| == |f.rows| && ColumnsGrow(f, o.frame)
    ensures forall j, c :: 0 <= j < |f.rows| && c in f.rows[j] && c != NearHub && c != NearGp ==>
      c in o.frame.rows[j] && o.frame.rows[j][c] == f.rows[j][c]
    ensures o.Done? <==>
      && 0 <= iT < |transport.rows| && "Station" in transport.columns && transport.rows[iT]["Station"].Str?
      && 0 <= iG < |gps.rows| && "PracticeName" in gps.columns
    ensures o.Done? ==> forall j :: 0 <= j < |f.rows| ==>
      && NearHub in o.frame.rows[j] && NearGp in o.frame.rows[j]
      && o.frame.rows[j][NearHub] == Str(TitleCase(transport.rows[iT]["Station"].s))
      && o.frame.rows[j][NearGp] == gps.rows[iG]["PracticeName"]
  {
    if !(0 <= iT < |transport.rows|) then Stopped(f, MissingLabel(iT))
    else
      match StationName(transport, iT)
      case Err(e) => Stopped(f, e)
      case Ok(hub) =>
        var f1 := WithColumn(f, NearHub, Str(hub));
        if !(0 <= iG < |gps.rows|) then Stopped(f1, MissingLabel(iG))
        else
          match PracticeName(gps, iG)
          case Err(e) => Stopped(f1, e)
          case Ok(gp) => Done(WithColumn(f1, NearGp, gp))
  }

  /** `add_distances_to_coastline`: both distance columns set, in every row, to the
      same kilometre values. */
  function AddDistancesToAll(f: Frame, metresT: real, metresG: real): (g: Frame)
    requires WellFormed(f)
    ensures WellFormed(g) && |g.rows| == |f.rows| && ColumnsGrow(f, g)
    ensures forall j, c :: 0 <= j < |f.rows| && c in f.rows[j] && c != TransDist && c != GpDist ==>
      c in g.rows[j] && g.rows[j][c] == f.rows[j][c]
    ensures forall j :: 0 <= j < |f.rows| ==>
      TransDist in g.rows[j] && GpDist in g.rows[j] &&
      g.rows[j][TransDist] == Num(ToKm(metresT)) && g.rows[j][GpDist] == Num(ToKm(metresG))
  {
    WithColumn(WithColumn(f, TransDist, Num(ToKm(metresT))), GpDist, Num(ToKm(metresG)))
  }

  /** One pass of the coastline loop written with the whole-column helpers: the
      nearest station and practice of `src`, written into every row. */
  function ColumnPass(f: Frame, src: Row, transport: Frame, gps: Frame, kind: QueryKind, metric: Metric): (o: Outcome)
    requires WellFormed(f) && References(transport, gps)
    ensures WellFormed(o.frame) && |o.frame.rows| == |f.rows|
  {
    match QueryLocation(src, kind)
    case Err(e) => Stopped(f, e)
    case Ok(q) =>
      match FindNearest(Distances(transport, q, metric))
      case Err(e) => Stopped(f, e)
      case Ok(nT) =>
        match FindNearest(Distances(gps, q, metric))
        case Err(e) => Stopped(f, e)
        case Ok(nG) =>
          match AssignNamesToAll(f, nT.index, nG.index, transport, gps)
          case Stopped(g, e) => Stopped(g, e)
          case Done(g) => Done(AddDistancesToAll(g, nT.distance, nG.distance))
  }

  /** A whole-column pass gets through exactly the query rows the loop body gets
      through. */
  lemma ColumnPassGetsThrough(f: Frame, src: Row, transport: Frame, gps: Frame, kind: QueryKind, metric: Metric)
    requires WellFormed(f) && References(transport, gps)
    ensures ColumnPass(f, src, transport, gps, kind, metric).Done? <==> Annotatable(src, transport, gps, kind, metric)
  {
    if QueryLocation(src, kind).Ok? {
      var q := QueryLocation(src, kind).value;
      if SomePresent(Distances(transport, q, metric)) && SomePresent(Distances(gps, q, metric)) {
        var nT := FindNearest(Distances(transport, q, metric)).value;
        var nG := FindNearest(Distances(gps, q, metric)).value;
        assert nT.index == FirstArgMin(Distances(transport, q, metric));
      }
    }
  }

  /** When it gets through, every row, not only the one being annotated, carries
      the annotation of `src`. */
  lemma ColumnPassAnnotatesEveryRow(f: Frame, src: Row, transport: Frame, gps: Frame, kind: QueryKind, metric: Metric)
    requires WellFormed(f) && References(transport, gps)
    requires Annotatable(src, transport, gps, kind, metric)
    ensures var o := ColumnPass(f, src, transport, gps, kind, metric);
      o.Done? && forall j :: 0 <= j < |f.rows| ==> Carries(o.frame.rows[j], Expected(src, transport, gps, kind, metric).value)
  {
    var q := QueryLocation(src, kind).value;
    var nT := FindNearest(Distances(transport, q, metric)).value;
    var nG := FindNearest(Distances(gps, q, metric)).value;
    var g := AssignNamesToAll(f, nT.index, nG.index, transport, gps).frame;
    var h := AddDistancesToAll(g, nT.distance, nG.distance);
    assert ColumnPass(f, src, transport, gps, kind, metric) == Done(h);
    var a := Expected(src, transport, gps, kind, metric).value;
    forall j | 0 <= j < |f.rows|
      ensures Carries(h.rows[j], a)
    {
      assert h.rows[j][NearHub] == g.rows[j][NearHub] && h.rows[j][NearGp] == g.rows[j][NearGp];
    }
  }

  /** A row holds at most one annotation. */
  lemma CarriesOne(out: Row, a: Annotation, b: Annotation)
    requires Carries(out, a) && Carries(out, b)
    ensures a == b
  {
    assert Str(a.hub) == Str(b.hub) && Num(a.transKm) == Num(b.transKm) && Num(a.gpKm) == Num(b.gpKm);
  }

  /** Two coastline spots whose annotations differ, annotated one after the other
      with the whole-column helpers: the first spot's row ends up holding the
      second spot's annotation, not its own — while the loop leaves each row with
      its own annotation (`Annotate.Run`). */
  lemma ColumnPassesOverwriteEarlierSpots(f: Frame, s0: Row, s1: Row, transport: Frame, gps: Frame, kind: QueryKind, metric: Metric)
    requires WellFormed(f) && |f.rows| >= 2 && References(transport, gps)
    requires Annotatable(s0, transport, gps, kind, metric) && Annotatable(s1, transport, gps, kind, metric)
    requires Expected(s0, transport, gps, kind, metric) != Expected(s1, transport, gps, kind, metric)
    ensures var g := ColumnPass(f, s0, transport, gps, kind, metric).frame;
      var h := ColumnPass(g, s1, transport, gps, kind, metric).frame;
      !Carries(h.rows[0], Expected(s0, transport, gps, kind, metric).value)
  {
    var g := ColumnPass(f, s0, transport, gps, kind, metric).frame;
    var h := ColumnPass(g, s1, transport, gps, kind, metric).frame;
    ColumnPassAnnotatesEveryRow(f, s0, transport, gps, kind, metric);
    ColumnPassAnnotatesEveryRow(g, s1, transport, gps, kind, metric);
    if Carries(h.rows[0], Expected(s0, transport, gps, kind, metric).value) {
      CarriesOne(h.rows[0], Expected(s0, transport, gps, kind, metric).value, Expected(s1, transport, gps, kind, metric).value);
      assert false;
    }
  }

  /** The same two spots annotated with per-row writes (the per-row helpers, as
      `RowHelpersMatchLoop` shows, or the loop itself): each row keeps its own
      annotation. */
  lemma RowPassesKeepEarlierSpots(f: Frame, s0: Row, s1: Row, transport: Frame, gps: Frame, kind: QueryKind, metric: Metric)
    requires WellFormed(f) && |f.rows| >= 2 && References(transport, gps)
    requires Annotatable(s0, transport, gps, kind, metric) && Annotatable(s1, transport, gps, kind, metric)
    ensures var g := AnnotateRow(f, 0, s0, transport, gps, kind, metric).frame;
      var h := AnnotateRow(g, 1, s1, transport, gps, kind, metric).frame;
      && Carries(h.rows[0], Expected(s0, transport, gps, kind, metric).value)
      && Carries(h.rows[1], Expected(s1, transport, gps, kind, metric).value)
  {
    var g := AnnotateRow(f, 0, s0, transport, gps, kind, metric).frame;
    var h := AnnotateRow(g, 1, s1, transport, gps, kind, metric).frame;
    assert forall c :: c in AnnotatedColumns ==> c in g.rows[0] && h.rows[0][c] == g.rows[0][c];
  }
}
