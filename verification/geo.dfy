/** The distance metric the tour builder consumes. The repository calls
    geopy's geodesic distance, a floating-point computation on an ellipsoid;
    here it is a parameter about which nothing is assumed. */
module Geo {

  /** A `[lat, lon]` pair of the request, in degrees. */
  datatype Coord = Coord(lat: real, lon: real)

  /** `distance.distance(candidate, previous)`: any real-valued function of
      two points. No symmetry, non-negativity or triangle inequality is used. */
  type Metric = (Coord, Coord) -> real

  /** The distance from `from` to every row, in row order (the list built at
      each step of the tour loop). */
  function Distances(metric: Metric, rows: seq<Coord>, from: Coord): (ds: seq<real>)
    ensures |ds| == |rows|
    ensures forall i :: 0 <= i < |rows| ==> ds[i] == metric(rows[i], from)
  {
    seq(|rows|, i requires 0 <= i < |rows| => metric(rows[i], from))
  }
}
