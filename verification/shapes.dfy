/**
 * Abstract geometry shared by the reconciliation steps: a polygon is
 * represented by the set of points it encloses, so intersection and
 * difference are set operations and an empty polygon is the empty set.
 */
module Shapes {
  import opened Options

  datatype Point = Point(x: int, y: int)

  /** The area a polygon encloses. */
  type Region = set<Point>

  /** A baseline: an ordered polyline. */
  type Baseline = seq<Point>

  /** An existing text line as the document holds it: its outline and optional baseline. */
  datatype Line = Line(coords: Region, baseline: Option<Baseline>)
}
