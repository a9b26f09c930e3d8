/** Nearest-neighbour selection over one reference set: the distance from a
    query geometry to every reference geometry, then `argmin` (the FIRST
    position holding the minimum) and `min` of that series. A reference row
    without a geometry has a NaN distance, written `None` here; `argmin` and
    `min` skip it, as pandas does by default. */
module Nearest {
  import opened Errors
  import opened Geometry

  /** Some position of `s` holds a value. */
  predicate SomePresent<T>(s: seq<Option<T>>)
  {
    exists i :: 0 <= i < |s| && s[i].Some?
  }

  /** `GeoSeries.distance(q)`: one distance per reference geometry, in order,
      NaN where the reference has no geometry. */
  function DistanceSeries(refs: seq<Option<Shape>>, q: Shape, metric: Metric): (s: seq<Option<real>>)
    ensures |s| == |refs|
    ensures forall i :: 0 <= i < |refs| ==> (s[i].Some? <==> refs[i].Some?)
    ensures forall i :: 0 <= i < |refs| && refs[i].Some? ==> s[i].value == metric(refs[i].value, q)
  {
    seq(|refs|, i requires 0 <= i < |refs| => if refs[i].Some? then Some(metric(refs[i].value, q)) else None)
  }

  /** Position `k` holds the smallest number of `s` and no earlier position holds it. */
  ghost predicate IsFirstMin(s: seq<Option<real>>, k: nat)
  {
    && k < |s| && s[k].Some?
    && (forall j :: 0 <= j < |s| && s[j].Some? ==> s[k].value <= s[j].value)
    && (forall j :: 0 <= j < k && s[j].Some? ==> s[k].value < s[j].value)
  }

  /** pandas' `Series.argmin()` on a series holding at least one number. */
  function FirstArgMin(s: seq<Option<real>>): (k: nat)
    requires SomePresent(s)
    ensures IsFirstMin(s, k)
  {
    var front := s[..|s| - 1];
    var last := s[|s| - 1];
    assert forall j :: 0 <= j < |front| ==> front[j] == s[j];
    if !SomePresent(front) then |s| - 1
    else
      var k := FirstArgMin(front);
      if last.Some? && last.value < s[k].value then |s| - 1 else k
  }

  /** There is only one first minimum, so any procedure that finds one agrees with `argmin`. */
  lemma FirstMinUnique(s: seq<Option<real>>, k: nat, m: nat)
    requires IsFirstMin(s, k) && IsFirstMin(s, m)
    ensures k == m
  {
    assert s[k].value <= s[m].value && s[m].value <= s[k].value;
  }

  /** Ties go to the earlier position: two equal smallest values, the first is chosen. */
  lemma TieGoesToEarlier(s: seq<Option<real>>, i: nat, j: nat)
    requires i < j < |s|
    requires s[i].Some? && s[i] == s[j]
    requires forall k :: 0 <= k < |s| && s[k].Some? ==> s[i].value <= s[k].value
    ensures FirstArgMin(s) <= i
  {
  }

  /** `argmin` depends only on which positions hold numbers and how those compare,
      not on the numbers themselves. */
  lemma {:induction false} FirstArgMinDependsOnOrder(s: seq<Option<real>>, t: seq<Option<real>>)
    requires |s| == |t| && SomePresent(s)
    requires forall i :: 0 <= i < |s| ==> (s[i].Some? <==> t[i].Some?)
    requires forall i, j :: 0 <= i < |s| && 0 <= j < |s| && s[i].Some? && s[j].Some? ==>
      (s[i].value <= s[j].value <==> t[i].value <= t[j].value)
    ensures SomePresent(t) && FirstArgMin(s) == FirstArgMin(t)
  {
    var k := FirstArgMin(s);
    assert t[k].Some?;
    forall j | 0 <= j < |t| && t[j].Some?
      ensures t[k].value <= t[j].value
    {
      assert s[k].value <= s[j].value;
    }
    forall j | 0 <= j < k && t[j].Some?
      ensures t[k].value < t[j].value
    {
      assert !(s[j].value <= s[k].value);
    }
    assert IsFirstMin(t, k);
    FirstMinUnique(t, k, FirstArgMin(t));
  }

  /** Squared distances from a query point to reference points, in order, NaN
      where a reference point is missing. */
  function SquaredDistances(refs: seq<Option<Point>>, q: Point): (s: seq<Option<real>>)
    ensures |s| == |refs|
    ensures forall i :: 0 <= i < |refs| ==> (s[i].Some? <==> refs[i].Some?)
    ensures forall i :: 0 <= i < |refs| && refs[i].Some? ==> s[i].value == SqDist(refs[i].value, q)
  {
    seq(|refs|, i requires 0 <= i < |refs| => if refs[i].Some? then Some(SqDist(refs[i].value, q)) else None)
  }

  function AsShapes(ps: seq<Option<Point>>): (gs: seq<Option<Shape>>)
    ensures |gs| == |ps|
    ensures forall i :: 0 <= i < |ps| ==> (gs[i].Some? <==> ps[i].Some?)
    ensures forall i :: 0 <= i < |ps| && ps[i].Some? ==> gs[i].value == Pt(ps[i].value)
  {
    seq(|ps|, i requires 0 <= i < |ps| => if ps[i].Some? then Some(Pt(ps[i].value)) else None)
  }

  /** For point layers and a Euclidean metric, the nearest reference point is the
      one with the smallest squared distance: no square root is needed to choose it. */
  lemma NearestBySquaredDistance(refs: seq<Option<Point>>, q: Point, metric: Metric)
    requires SomePresent(refs)
    requires OrdersLikeEuclid(metric)
    ensures SomePresent(DistanceSeries(AsShapes(refs), Pt(q), metric))
    ensures FirstArgMin(DistanceSeries(AsShapes(refs), Pt(q), metric)) == FirstArgMin(SquaredDistances(refs, q))
  {
    var s := DistanceSeries(AsShapes(refs), Pt(q), metric);
    var t := SquaredDistances(refs, q);
    var w :| 0 <= w < |refs| && refs[w].Some?;
    assert t[w].Some?;
    forall i, j | 0 <= i < |t| && 0 <= j < |t| && t[i].Some? && t[j].Some?
      ensures t[i].value <= t[j].value <==> s[i].value <= s[j].value
    {
      assert s[i].value == metric(Pt(refs[i].value), Pt(q)) && s[j].value == metric(Pt(refs[j].value), Pt(q));
    }
    FirstArgMinDependsOnOrder(t, s);
  }

  /** The nearest reference: its position and its distance. */
  datatype Nearest = Nearest(index: nat, distance: real)

  /** `(series.argmin(), series.min())`, as the inline loop computes them and as
      `find_nearest_transport_hub`, `find_nearest_gp_practice`,
      `find_minimum_distance_to_station` and `find_minimum_distance_to_gp` return them.
      A series without any number (no reference, or none with a geometry) has no
      `argmin`. */
  function FindNearest(series: seq<Option<real>>): (r: Result<Nearest>)
    ensures r.Err? <==> !SomePresent(series)
    ensures r.Err? ==> r.error == EmptyArgmin
    ensures r.Ok? ==> r.value.index < |series| && series[r.value.index] == Some(r.value.distance)
    ensures r.Ok? ==> forall j :: 0 <= j < |series| && series[j].Some? ==> r.value.distance <= series[j].value
    ensures r.Ok? ==> forall j :: 0 <= j < r.value.index && series[j].Some? ==> r.value.distance < series[j].value
  {
    if !SomePresent(series) then Err(EmptyArgmin)
    else
      var k := FirstArgMin(series);
      Ok(Nearest(k, series[k].value))
  }

  /** `series.min()`: NaN (here `None`) for a series without any number,
      otherwise the smallest number. */
  function SeriesMin(series: seq<Option<real>>): (m: Option<real>)
    ensures m.None? <==> !SomePresent(series)
    ensures m.Some? ==> (exists k :: 0 <= k < |series| && series[k] == m)
    ensures m.Some? ==> forall j :: 0 <= j < |series| && series[j].Some? ==> m.value <= series[j].value
  {
    if !SomePresent(series) then None else series[FirstArgMin(series)]
  }

  /** `calculate_distances_to_nearest_points`: the two minima, over the transport
      hubs and over the GP practices, from the same query geometry. */
  function MinDistances(q: Shape, hubs: seq<Option<Shape>>, practices: seq<Option<Shape>>, metric: Metric): (r: (Option<real>, Option<real>))
    ensures r.0.None? <==> !SomePresent(hubs)
    ensures r.1.None? <==> !SomePresent(practices)
    ensures r.0.Some? ==> forall j :: 0 <= j < |hubs| && hubs[j].Some? ==> r.0.value <= metric(hubs[j].value, q)
    ensures r.1.Some? ==> forall j :: 0 <= j < |practices| && practices[j].Some? ==> r.1.value <= metric(practices[j].value, q)
    ensures r.0.Some? ==> exists j :: 0 <= j < |hubs| && hubs[j].Some? && r.0.value == metric(hubs[j].value, q)
    ensures r.1.Some? ==> exists j :: 0 <= j < |practices| && practices[j].Some? && r.1.value == metric(practices[j].value, q)
  {
    var dT, dP := DistanceSeries(hubs, q, metric), DistanceSeries(practices, q, metric);
    assert SomePresent(hubs) ==> SomePresent(dT);
    assert SomePresent(practices) ==> SomePresent(dP);
    (SeriesMin(dT), SeriesMin(dP))
  }

  /** The distance `FindNearest` reports is the one `series.min()` reports. */
  lemma FindNearestAgreesWithMin(series: seq<Option<real>>)
    ensures FindNearest(series).Ok? <==> SeriesMin(series).Some?
    ensures FindNearest(series).Ok? ==> FindNearest(series).value.distance == SeriesMin(series).value
  {
  }
}
