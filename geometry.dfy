/** Planar geometry as the annotation engine sees it: points in a projected
    coordinate system (metres), shapes reduced to what the engine reads from
    them, and the distance function it is given. */
module Geometry {

  /** A location in a planar, projected coordinate system (metres). */
  datatype Point = Point(x: real, y: real)

  /** A geometry cell of a GeoDataFrame. A polygon is represented by its
      centroid only: computing the centroid of a polygon is not part of this model. */
  datatype Shape = Pt(at: Point) | Area(centroid: Point)

  /** The `.centroid` of a geometry: a point is its own centroid. */
  function Centroid(g: Shape): (c: Point)
    ensures g.Pt? ==> c == g.at
    ensures g.Area? ==> c == g.centroid
  {
    match g
    case Pt(p) => p
    case Area(c) => c
  }

  /** Squared Euclidean distance: monotone in the distance itself and free of square roots. */
  function SqDist(p: Point, q: Point): (d: real)
    ensures d >= 0.0
  {
    var dx, dy := p.x - q.x, p.y - q.y;
    SquareNonNegative(dx);
    SquareNonNegative(dy);
    dx * dx + dy * dy
  }

  /** The distance `GeoSeries.distance` computes between a reference geometry
      and a query geometry; it is a parameter of every operation that needs it. */
  type Metric = (Shape, Shape) -> real

  /** The metric ranks reference points around a query point exactly as planar
      Euclidean distance does, which is all that nearest-neighbour selection
      depends on: comparing squared distances is comparing distances. */
  ghost predicate OrdersLikeEuclid(metric: Metric)
  {
    forall p: Point, r: Point, q: Point {:trigger metric(Pt(p), Pt(q)), metric(Pt(r), Pt(q))} ::
      metric(Pt(p), Pt(q)) <= metric(Pt(r), Pt(q)) <==> SqDist(p, q) <= SqDist(r, q)
  }

  lemma SquareNonNegative(a: real)
    ensures a * a >= 0.0
  {
    if a < 0.0 {
      assert a * a == (-a) * (-a);
    }
  }
}
