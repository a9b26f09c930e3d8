/** The nearest-facility annotation: for every row of a query table (tourist
    sites or coastal spots) the nearest transport hub and the nearest GP
    practice are found and four cells of that row are written — the hub's name
    title-cased, the practice's name unchanged, and both distances in kilometres.
    `AnnotateRow` and `Run` specify one pass of the loop and the whole loop as
    values; the class in module `QueryTables` performs them in place. */
module Annotate {
  import opened Errors
  import opened Geometry
  import opened Text
  import opened Units
  import opened Nearest
  import opened Frames

  const NearHub := "Near_T_Hub"
  const NearGp := "Near_GP"
  const TransDist := "Trans_Dist"
  const GpDist := "GP_Dist"

  /** The four columns the loop writes. */
  const AnnotatedColumns: set<string> := {NearHub, NearGp, TransDist, GpDist}

  /** What is measured from: a tourist site's polygon centroid, or a coastal spot itself. */
  datatype QueryKind = SiteCentroid | SpotPoint

  /** The reference tables (stations, practices): well formed GeoDataFrames, each
      with its geometry column; a row may still hold no geometry there. */
  predicate References(transport: Frame, gps: Frame)
  {
    WellFormed(transport) && WellFormed(gps) && "geometry" in transport.columns && "geometry" in gps.columns
  }

  /** `row["geometry"].centroid` for tourist sites, `row["geometry"]` for coastal
      spots. A site without a geometry raises at `.centroid`; a spot without one is
      queried with no geometry at all (`None`), which every distance is NaN from. */
  function QueryLocation(row: Row, kind: QueryKind): (r: Result<Option<Shape>>)
    ensures r.Err? <==> "geometry" !in row || (kind == SiteCentroid && !row["geometry"].Geo?)
    ensures r.Ok? ==> (r.value.Some? <==> row["geometry"].Geo?)
    ensures r.Ok? && r.value.Some? && kind == SpotPoint ==> r.value.value == row["geometry"].g
    ensures r.Ok? && kind == SiteCentroid ==> r.value == Some(Pt(Centroid(row["geometry"].g)))
  {
    if "geometry" !in row then Err(MissingColumn("geometry"))
    else if !row["geometry"].Geo? then (if kind == SiteCentroid then Err(NotGeometry) else Ok(None))
    else if kind == SpotPoint then Ok(Some(row["geometry"].g))
    else Ok(Some(Pt(Centroid(row["geometry"].g))))
  }

  /** `refs.distance(q)`: the distance from `q` to every reference row, in row
      order, NaN for a row without a geometry and NaN throughout when there is no
      query geometry. */
  function Distances(refs: Frame, q: Option<Shape>, metric: Metric): (s: seq<Option<real>>)
    ensures |s| == |refs.rows|
    ensures forall k :: 0 <= k < |refs.rows| ==>
      (s[k].Some? <==> q.Some? && "geometry" in refs.rows[k] && refs.rows[k]["geometry"].Geo?)
    ensures forall k :: 0 <= k < |refs.rows| && s[k].Some? ==> s[k].value == metric(refs.rows[k]["geometry"].g, q.value)
  {
    if q.None? then seq(|refs.rows|, k => None)
    else DistanceSeries(Geometries(refs), q.value, metric)
  }

  /** A distance series holds a number exactly when there is a query geometry and
      some reference row has a geometry. */
  lemma DistancesPresent(refs: Frame, q: Option<Shape>, metric: Metric)
    ensures SomePresent(Distances(refs, q, metric)) <==> q.Some? && SomePresent(Geometries(refs))
  {
    var s, gs := Distances(refs, q, metric), Geometries(refs);
    if q.Some? && SomePresent(gs) {
      var k :| 0 <= k < |gs| && gs[k].Some?;
      assert s[k].Some?;
    }
  }

  /** `transport.loc[k].Station.title()`: an AttributeError when there is no `Station`
      column or the cell is not a string. */
  function StationName(transport: Frame, k: nat): (r: Result<string>)
    requires WellFormed(transport) && k < |transport.rows|
    ensures r.Err? <==> !("Station" in transport.columns && transport.rows[k]["Station"].Str?)
    ensures r.Ok? ==> r.value == TitleCase(transport.rows[k]["Station"].s)
  {
    if "Station" !in transport.columns then Err(MissingColumn("Station"))
    else if !transport.rows[k]["Station"].Str? then Err(NotText("Station"))
    else Ok(TitleCase(transport.rows[k]["Station"].s))
  }

  /** `post_gp.loc[k].PracticeName`: the cell as it is, whatever it holds. */
  function PracticeName(gps: Frame, k: nat): (r: Result<Value>)
    requires WellFormed(gps) && k < |gps.rows|
    ensures r.Err? <==> "PracticeName" !in gps.columns
    ensures r.Ok? ==> r.value == gps.rows[k]["PracticeName"]
  {
    if "PracticeName" !in gps.columns then Err(MissingColumn("PracticeName"))
    else Ok(gps.rows[k]["PracticeName"])
  }

  /** The four values the loop body writes for one query row. */
  datatype Annotation = Annotation(hub: string, gp: Value, transKm: real, gpKm: real)

  /** A query row the loop body gets through: it has a geometry, each reference
      table has a row with a geometry, the nearest station's name is a string and
      the practices have a `PracticeName` column. */
  predicate Annotatable(src: Row, transport: Frame, gps: Frame, kind: QueryKind, metric: Metric)
    requires References(transport, gps)
  {
    && QueryLocation(src, kind).Ok?
    && var dT := Distances(transport, QueryLocation(src, kind).value, metric);
      && SomePresent(dT) && SomePresent(Distances(gps, QueryLocation(src, kind).value, metric))
      && "Station" in transport.columns
      && transport.rows[FirstArgMin(dT)]["Station"].Str?
      && "PracticeName" in gps.columns
  }

  /** The annotation of one query row, or the exception the loop body raises for it. */
  function Expected(src: Row, transport: Frame, gps: Frame, kind: QueryKind, metric: Metric): (r: Result<Annotation>)
    requires References(transport, gps)
    ensures r.Ok? <==> Annotatable(src, transport, gps, kind, metric)
    ensures r.Err? && r.error == EmptyArgmin ==>
      || (kind == SpotPoint && "geometry" in src && !src["geometry"].Geo?)
      || !SomePresent(Geometries(transport)) || !SomePresent(Geometries(gps))
    ensures kind == SpotPoint && "geometry" in src && !src["geometry"].Geo? ==> r == Err(EmptyArgmin)
  {
    match QueryLocation(src, kind)
    case Err(e) => Err(e)
    case Ok(q) =>
      DistancesPresent(transport, q, metric);
      DistancesPresent(gps, q, metric);
      match FindNearest(Distances(transport, q, metric))
      case Err(e) => Err(e)
      case Ok(nT) =>
        match FindNearest(Distances(gps, q, metric))
        case Err(e) => Err(e)
        case Ok(nG) =>
          match StationName(transport, nT.index)
          case Err(e) => Err(e)
          case Ok(hub) =>
            match PracticeName(gps, nG.index)
            case Err(e) => Err(e)
            case Ok(gp) => Ok(Annotation(hub, gp, ToKm(nT.distance), ToKm(nG.distance)))
  }

  /** The annotation names the station at the first position of the smallest
      distance, title-cased, with that smallest distance in km; and the practice
      at the first position of its smallest distance, name unchanged, with that
      distance in km. */
  lemma ExpectedIsNearest(src: Row, transport: Frame, gps: Frame, kind: QueryKind, metric: Metric)
    requires References(transport, gps)
    requires Expected(src, transport, gps, kind, metric).Ok?
    ensures var a := Expected(src, transport, gps, kind, metric).value;
      var q := QueryLocation(src, kind).value;
      var dT, dG := Distances(transport, q, metric), Distances(gps, q, metric);
      && (exists k: nat :: IsFirstMin(dT, k) && transport.rows[k]["Station"].Str?
            && a.hub == TitleCase(transport.rows[k]["Station"].s) && a.transKm * 1000.0 == dT[k].value)
      && (exists k: nat :: IsFirstMin(dG, k) && a.gp == gps.rows[k]["PracticeName"] && a.gpKm * 1000.0 == dG[k].value)
  {
    var q := QueryLocation(src, kind).value;
    var dT, dG := Distances(transport, q, metric), Distances(gps, q, metric);
    assert IsFirstMin(dT, FirstArgMin(dT));
    assert IsFirstMin(dG, FirstArgMin(dG));
  }

  /** The row holds the annotation in its four annotation cells. */
  predicate Carries(out: Row, a: Annotation)
  {
    && AnnotatedColumns <= out.Keys
    && out[NearHub] == Str(a.hub) && out[NearGp] == a.gp
    && out[TransDist] == Num(a.transKm) && out[GpDist] == Num(a.gpKm)
  }

  /** The columns of `g` are those of `f` followed by annotation columns only. */
  predicate ColumnsGrow(f: Frame, g: Frame)
  {
    f.columns <= g.columns && forall c :: c in g.columns && c !in f.columns ==> c in AnnotatedColumns
  }

  /** Only the annotation cells of row `i` may differ between `f` and `g`. */
  predicate Untouched(f: Frame, g: Frame, i: nat)
    requires |f.rows| == |g.rows|
  {
    forall j, c :: 0 <= j < |f.rows| && c in f.rows[j] && (j != i || c !in AnnotatedColumns) ==>
      c in g.rows[j] && g.rows[j][c] == f.rows[j][c]
  }

  lemma WithCellUntouched(f: Frame, i: nat, col: string, v: Value)
    requires WellFormed(f) && i < |f.rows| && col in AnnotatedColumns
    ensures WellFormed(WithCell(f, i, col, v))
    ensures ColumnsGrow(f, WithCell(f, i, col, v)) && Untouched(f, WithCell(f, i, col, v), i)
  {
    WithCellWellFormed(f, i, col, v);
  }

  lemma UntouchedTransitive(f: Frame, g: Frame, h: Frame, i: nat)
    requires |f.rows| == |g.rows| == |h.rows|
    requires Untouched(f, g, i) && Untouched(g, h, i)
    requires ColumnsGrow(f, g) && ColumnsGrow(g, h)
    ensures Untouched(f, h, i) && ColumnsGrow(f, h)
  {
  }

  /** The four writes of a successful pass, in the order of the source. */
  function WriteAnnotation(f: Frame, i: nat, a: Annotation): (g: Frame)
    requires WellFormed(f) && i < |f.rows|
    ensures WellFormed(g) && |g.rows| == |f.rows| && ColumnsGrow(f, g) && Untouched(f, g, i)
    ensures Carries(g.rows[i], a)
  {
    var f1 := WithCell(f, i, NearHub, Str(a.hub));
    WithCellUntouched(f, i, NearHub, Str(a.hub));
    var f2 := WithCell(f1, i, NearGp, a.gp);
    WithCellUntouched(f1, i, NearGp, a.gp);
    var f3 := WithCell(f2, i, TransDist, Num(a.transKm));
    WithCellUntouched(f2, i, TransDist, Num(a.transKm));
    var f4 := WithCell(f3, i, GpDist, Num(a.gpKm));
    WithCellUntouched(f3, i, GpDist, Num(a.gpKm));
    UntouchedTransitive(f, f1, f2, i);
    UntouchedTransitive(f, f2, f3, i);
    UntouchedTransitive(f, f3, f4, i);
    f4
  }

  /** How a pass or a run of the loop ends: with every write done, or stopped by an
      exception, with the table as the writes before it left it. */
  datatype Outcome = Done(frame: Frame) | Stopped(frame: Frame, error: Error)

  /** One pass of the loop body for row `i`, reading the query geometry from `src`
      (the row of the reprojected copy being iterated) and writing into `f`. The
      steps come in the order of the source: both distance series, both `argmin`s,
      the station name and the `Near_T_Hub` write, the practice name, then the
      other three writes. When the practice name cannot be read, the `Near_T_Hub`
      write has already happened. */
  function AnnotateRow(f: Frame, i: nat, src: Row, transport: Frame, gps: Frame, kind: QueryKind, metric: Metric): (o: Outcome)
    requires WellFormed(f) && i < |f.rows| && References(transport, gps)
    ensures WellFormed(o.frame) && |o.frame.rows| == |f.rows| && ColumnsGrow(f, o.frame) && Untouched(f, o.frame, i)
    ensures o.Done? <==> Expected(src, transport, gps, kind, metric).Ok?
    ensures o.Done? ==> Carries(o.frame.rows[i], Expected(src, transport, gps, kind, metric).value)
    ensures o.Stopped? ==> o.error == Expected(src, transport, gps, kind, metric).error
    ensures o.Stopped? && o.frame != f ==> o.error == MissingColumn("PracticeName")
  {
    match QueryLocation(src, kind)
    case Err(e) => Stopped(f, e)
    case Ok(q) =>
      match FindNearest(Distances(transport, q, metric))
      case Err(e) => Stopped(f, e)
      case Ok(nT) =>
        match FindNearest(Distances(gps, q, metric))
        case Err(e) => Stopped(f, e)
        case Ok(nG) =>
          match StationName(transport, nT.index)
          case Err(e) => Stopped(f, e)
          case Ok(hub) =>
            match PracticeName(gps, nG.index)
            case Err(e) =>
              WithCellUntouched(f, i, NearHub, Str(hub));
              Stopped(WithCell(f, i, NearHub, Str(hub)), e)
            case Ok(gp) =>
              Done(WriteAnnotation(f, i, Annotation(hub, gp, ToKm(nT.distance), ToKm(nG.distance))))
  }

  /** Rows before `i` keep every cell, and every row keeps its cells outside the
      annotation columns. */
  predicate Frozen(f: Frame, g: Frame, i: nat)
    requires |f.rows| == |g.rows|
  {
    forall j, c :: 0 <= j < |f.rows| && c in f.rows[j] && (j < i || c !in AnnotatedColumns) ==>
      c in g.rows[j] && g.rows[j][c] == f.rows[j][c]
  }

  lemma FrozenAfterPass(f: Frame, g: Frame, h: Frame, i: nat, a: Annotation)
    requires |f.rows| == |g.rows| == |h.rows| && i < |f.rows|
    requires Untouched(f, g, i) && Frozen(g, h, i + 1) && Carries(g.rows[i], a)
    ensures Frozen(f, h, i) && Carries(h.rows[i], a)
  {
    forall j, c | 0 <= j < |f.rows| && c in f.rows[j] && (j < i || c !in AnnotatedColumns)
      ensures c in h.rows[j] && h.rows[j][c] == f.rows[j][c]
    {
      assert c in g.rows[j] && g.rows[j][c] == f.rows[j][c];
    }
    assert g.rows[i][NearHub] == h.rows[i][NearHub] && g.rows[i][NearGp] == h.rows[i][NearGp];
    assert g.rows[i][TransDist] == h.rows[i][TransDist] && g.rows[i][GpDist] == h.rows[i][GpDist];
  }

  /** Every entry of `b` from `i` on holds. */
  predicate AllFrom(b: seq<bool>, i: nat)
    requires i <= |b|
    decreases |b| - i
  {
    i == |b| || (b[i] && AllFrom(b, i + 1))
  }

  lemma {:induction false} AllFromEvery(b: seq<bool>, i: nat)
    requires i <= |b|
    ensures AllFrom(b, i) <==> forall k :: i <= k < |b| ==> b[k]
    decreases |b| - i
  {
    if i < |b| {
      AllFromEvery(b, i + 1);
      if b[i] && AllFrom(b, i + 1) {
        forall k | i <= k < |b|
          ensures b[k]
        {
          if k > i {
            assert i + 1 <= k;
          }
        }
      }
    }
  }

  /** Whether the loop body gets through each query row, row by row. */
  function Verdicts(snap: Frame, transport: Frame, gps: Frame, kind: QueryKind, metric: Metric): (v: seq<bool>)
    requires References(transport, gps)
    ensures |v| == |snap.rows|
    ensures forall k :: 0 <= k < |snap.rows| ==> v[k] == Annotatable(snap.rows[k], transport, gps, kind, metric)
  {
    seq(|snap.rows|, k requires 0 <= k < |snap.rows| => Annotatable(snap.rows[k], transport, gps, kind, metric))
  }

  /** Every query row from `i` on is annotatable. */
  predicate AnnotatableFrom(snap: Frame, i: nat, transport: Frame, gps: Frame, kind: QueryKind, metric: Metric)
    requires i <= |snap.rows| && References(transport, gps)
  {
    AllFrom(Verdicts(snap, transport, gps, kind, metric), i)
  }

  /** The query row `src` is annotatable and `out` carries its annotation. */
  predicate CarriesOwn(out: Row, src: Row, transport: Frame, gps: Frame, kind: QueryKind, metric: Metric)
    requires References(transport, gps)
  {
    Expected(src, transport, gps, kind, metric).Ok? && Carries(out, Expected(src, transport, gps, kind, metric).value)
  }

  /** Every row of `g` from `i` on carries the annotation of its query row in `snap`. */
  predicate CarriesFrom(snap: Frame, g: Frame, i: nat, transport: Frame, gps: Frame, kind: QueryKind, metric: Metric)
    requires i <= |snap.rows| == |g.rows| && References(transport, gps)
    decreases |snap.rows| - i
  {
    i == |snap.rows| ||
    (CarriesOwn(g.rows[i], snap.rows[i], transport, gps, kind, metric) && CarriesFrom(snap, g, i + 1, transport, gps, kind, metric))
  }

  lemma AnnotatableFromAll(snap: Frame, i: nat, transport: Frame, gps: Frame, kind: QueryKind, metric: Metric)
    requires i <= |snap.rows| && References(transport, gps)
    ensures AnnotatableFrom(snap, i, transport, gps, kind, metric) <==>
      forall k :: i <= k < |snap.rows| ==> Annotatable(snap.rows[k], transport, gps, kind, metric)
  {
    AllFromEvery(Verdicts(snap, transport, gps, kind, metric), i);
  }

  lemma {:induction false} CarriesAt(snap: Frame, g: Frame, i: nat, k: nat, transport: Frame, gps: Frame, kind: QueryKind, metric: Metric)
    requires i <= k < |snap.rows| == |g.rows| && References(transport, gps)
    requires CarriesFrom(snap, g, i, transport, gps, kind, metric)
    ensures CarriesOwn(g.rows[k], snap.rows[k], transport, gps, kind, metric)
    decreases k - i
  {
    if k > i {
      CarriesAt(snap, g, i + 1, k, transport, gps, kind, metric);
    }
  }

  lemma CarriesFromAll(snap: Frame, g: Frame, i: nat, transport: Frame, gps: Frame, kind: QueryKind, metric: Metric)
    requires i <= |snap.rows| == |g.rows| && References(transport, gps)
    requires CarriesFrom(snap, g, i, transport, gps, kind, metric)
    ensures forall k :: i <= k < |snap.rows| ==> CarriesOwn(g.rows[k], snap.rows[k], transport, gps, kind, metric)
  {
    forall k | i <= k < |snap.rows|
      ensures CarriesOwn(g.rows[k], snap.rows[k], transport, gps, kind, metric)
    {
      CarriesAt(snap, g, i, k, transport, gps, kind, metric);
    }
  }

  /** The loop from row `i` on, over the table `f` the earlier rows left, reading
      the query rows from `snap`, the table as it stood when the loop began (the
      reprojected copy the loop iterates has the same rows). It is done exactly
      when every remaining row is annotatable, and then every remaining row carries
      its annotation. Whatever happens, earlier rows and every cell outside the
      annotation columns keep their values, and the only new columns are
      annotation columns. */
  function RunFrom(snap: Frame, f: Frame, i: nat, transport: Frame, gps: Frame, kind: QueryKind, metric: Metric): (o: Outcome)
    requires WellFormed(f) && |f.rows| == |snap.rows| && i <= |snap.rows| && References(transport, gps)
    ensures WellFormed(o.frame) && |o.frame.rows| == |f.rows| && ColumnsGrow(f, o.frame) && Frozen(f, o.frame, i)
    ensures o.Done? <==> AnnotatableFrom(snap, i, transport, gps, kind, metric)
    ensures o.Done? ==> CarriesFrom(snap, o.frame, i, transport, gps, kind, metric)
    decreases |snap.rows| - i
  {
    if i == |snap.rows| then Done(f)
    else
      match AnnotateRow(f, i, snap.rows[i], transport, gps, kind, metric)
      case Stopped(g, e) => Stopped(g, e)
      case Done(g) =>
        var o := RunFrom(snap, g, i + 1, transport, gps, kind, metric);
        FrozenAfterPass(f, g, o.frame, i, Expected(snap.rows[i], transport, gps, kind, metric).value);
        o
  }

  /** The whole loop over the query table `snap` (lines 155-173 for tourist sites,
      222-240 for coastal spots). */
  function Run(snap: Frame, transport: Frame, gps: Frame, kind: QueryKind, metric: Metric): (o: Outcome)
    requires WellFormed(snap) && References(transport, gps)
    ensures WellFormed(o.frame) && |o.frame.rows| == |snap.rows| && ColumnsGrow(snap, o.frame)
    ensures forall j, c :: 0 <= j < |snap.rows| && c in snap.rows[j] && c !in AnnotatedColumns ==>
      c in o.frame.rows[j] && o.frame.rows[j][c] == snap.rows[j][c]
    ensures o.Done? <==> forall k :: 0 <= k < |snap.rows| ==> Annotatable(snap.rows[k], transport, gps, kind, metric)
    ensures o.Done? ==> forall k :: 0 <= k < |snap.rows| ==>
      Expected(snap.rows[k], transport, gps, kind, metric).Ok? &&
      Carries(o.frame.rows[k], Expected(snap.rows[k], transport, gps, kind, metric).value)
  {
    var o := RunFrom(snap, snap, 0, transport, gps, kind, metric);
    AnnotatableFromAll(snap, 0, transport, gps, kind, metric);
    if o.Done? then
      CarriesFromAll(snap, o.frame, 0, transport, gps, kind, metric);
      o
    else o
  }

  /** One step of the loop: row `i` is annotated, then the loop goes on from row
      `i + 1` over the new table, unless the pass stopped. */
  lemma RunFromStep(snap: Frame, f: Frame, i: nat, transport: Frame, gps: Frame, kind: QueryKind, metric: Metric)
    requires WellFormed(f) && |f.rows| == |snap.rows| && i < |snap.rows| && References(transport, gps)
    ensures var p := AnnotateRow(f, i, snap.rows[i], transport, gps, kind, metric);
      RunFrom(snap, f, i, transport, gps, kind, metric) ==
        if p.Done? then RunFrom(snap, p.frame, i + 1, transport, gps, kind, metric) else p
  {
  }

  /** The whole loop is the loop from its first row on, over the unchanged table. */
  lemma RunStartsAtFirstRow(snap: Frame, transport: Frame, gps: Frame, kind: QueryKind, metric: Metric)
    requires WellFormed(snap) && References(transport, gps)
    ensures Run(snap, transport, gps, kind, metric) == RunFrom(snap, snap, 0, transport, gps, kind, metric)
  {
  }

  /** Lines 176-177 (243-244): `Trans_Dist` is rounded to two decimals, then
      `GP_Dist`. Nothing but those two columns changes; when `GP_Dist` cannot be
      rounded, `Trans_Dist` already has been. */
  function RoundDistances(f: Frame): (o: Outcome)
    requires WellFormed(f)
    ensures WellFormed(o.frame) && o.frame.columns == f.columns && |o.frame.rows| == |f.rows|
    ensures o.Done? <==> TransDist in f.columns && GpDist in f.columns && NumericColumn(f, TransDist) && NumericColumn(f, GpDist)
    ensures o.Done? ==> forall j :: 0 <= j < |f.rows| ==>
      o.frame.rows[j][TransDist] == RoundCell(f.rows[j][TransDist]) && o.frame.rows[j][GpDist] == RoundCell(f.rows[j][GpDist])
    ensures forall j, c :: 0 <= j < |f.rows| && c in f.rows[j] && c != TransDist && c != GpDist ==> o.frame.rows[j][c] == f.rows[j][c]
    ensures o.Stopped? ==> o.error == (if TransDist !in f.columns then MissingColumn(TransDist)
                                      else if !NumericColumn(f, TransDist) then NotNumeric(TransDist)
                                      else if GpDist !in f.columns then MissingColumn(GpDist)
                                      else NotNumeric(GpDist))
  {
    match RoundedColumn(f, TransDist)
    case Err(e) => Stopped(f, e)
    case Ok(g) =>
      assert GpDist in f.columns ==> (NumericColumn(g, GpDist) <==> NumericColumn(f, GpDist));
      match RoundedColumn(g, GpDist)
      case Err(e) => Stopped(g, e)
      case Ok(h) => Done(h)
  }

  /** The row holds the annotation's two distances rounded to hundredths of a km. */
  predicate HoldsRounded(out: Row, a: Annotation)
  {
    && TransDist in out && out[TransDist] == Num(Round2(a.transKm))
    && GpDist in out && out[GpDist] == Num(Round2(a.gpKm))
  }

  /** Rounding a row that carries an annotation rounds exactly its two stored
      distances. */
  lemma RoundedCarried(f: Frame, k: nat, a: Annotation)
    requires WellFormed(f) && k < |f.rows| && Carries(f.rows[k], a)
    requires RoundDistances(f).Done?
    ensures HoldsRounded(RoundDistances(f).frame.rows[k], a)
  {
  }

  /** The row holds a number in each of the two distance columns. */
  predicate DistancesStored(out: Row)
  {
    TransDist in out && out[TransDist].Num? && GpDist in out && out[GpDist].Num?
  }

  /** A non-empty table with numbers in both distance columns can be rounded. */
  lemma StoredDistancesRound(f: Frame)
    requires WellFormed(f) && |f.rows| > 0
    requires forall j :: 0 <= j < |f.rows| ==> DistancesStored(f.rows[j])
    ensures RoundDistances(f).Done?
  {
    assert DistancesStored(f.rows[0]);
  }

  /** After a loop that got through a non-empty table, both distance columns exist
      and hold numbers, so rounding them cannot fail. */
  lemma RoundableAfterRun(snap: Frame, transport: Frame, gps: Frame, kind: QueryKind, metric: Metric)
    requires WellFormed(snap) && References(transport, gps) && |snap.rows| > 0
    requires Run(snap, transport, gps, kind, metric).Done?
    ensures RoundDistances(Run(snap, transport, gps, kind, metric).frame).Done?
  {
    var f := Run(snap, transport, gps, kind, metric).frame;
    forall j | 0 <= j < |f.rows|
      ensures DistancesStored(f.rows[j])
    {
      assert Carries(f.rows[j], Expected(snap.rows[j], transport, gps, kind, metric).value);
    }
    StoredDistancesRound(f);
  }

  /** After a loop that got through a non-empty table, rounding cannot fail, and
      each stored distance is the annotation's kilometre value rounded. */
  lemma RoundedAfterRun(snap: Frame, transport: Frame, gps: Frame, kind: QueryKind, metric: Metric)
    requires WellFormed(snap) && References(transport, gps) && |snap.rows| > 0
    requires Run(snap, transport, gps, kind, metric).Done?
    ensures var r := RoundDistances(Run(snap, transport, gps, kind, metric).frame);
      && r.Done?
      && forall k :: 0 <= k < |snap.rows| ==>
        HoldsRounded(r.frame.rows[k], Expected(snap.rows[k], transport, gps, kind, metric).value)
  {
    var f := Run(snap, transport, gps, kind, metric).frame;
    RoundableAfterRun(snap, transport, gps, kind, metric);
    forall k | 0 <= k < |snap.rows|
      ensures HoldsRounded(RoundDistances(f).frame.rows[k], Expected(snap.rows[k], transport, gps, kind, metric).value)
    {
      RoundedCarried(f, k, Expected(snap.rows[k], transport, gps, kind, metric).value);
    }
  }

  /** The stored distance of a row is `StoredKm` of the first smallest distance:
      convert to kilometres, then round. */
  lemma StoredDistanceIsRoundedMinimum(src: Row, transport: Frame, gps: Frame, kind: QueryKind, metric: Metric)
    requires References(transport, gps)
    requires Expected(src, transport, gps, kind, metric).Ok?
    ensures var a := Expected(src, transport, gps, kind, metric).value;
      var q := QueryLocation(src, kind).value;
      var dT, dG := Distances(transport, q, metric), Distances(gps, q, metric);
      && Round2(a.transKm) == StoredKm(dT[FirstArgMin(dT)].value)
      && Round2(a.gpKm) == StoredKm(dG[FirstArgMin(dG)].value)
  {
  }
}
