/** Boundary projection: `distmesh::utils::project_points_to_function`.
    The distance of every point is evaluated first; then each point with a
    positive distance (outside the domain) is moved by one Newton step along
    the finite-difference gradient. The Newton step itself is floating-point
    numerics and is a parameter here: `newton(x, d)` stands for
    `x - d * grad(x) / |grad(x)|^2` with the forward-difference gradient. */
module Projection {
  import opened Vectors

  /** The point list after one projection: outside points take their Newton
      step, the others stay. */
  function Projected(dist: Point -> real, newton: (Point, real) -> Point, ps: seq<Point>): (r: seq<Point>)
    ensures |r| == |ps|
  {
    seq(|ps|, i requires 0 <= i < |ps| => if dist(ps[i]) > 0.0 then newton(ps[i], dist(ps[i])) else ps[i])
  }

  /** `project_points_to_function`, in place on the point buffer: the row count
      is unchanged, a point at or inside the boundary is left alone, and each
      outside point is replaced by its Newton step. */
  method ProjectPoints(dist: Point -> real, newton: (Point, real) -> Point, points: array<Point>)
    modifies points
    ensures forall i :: 0 <= i < points.Length && dist(old(points[i])) <= 0.0 ==>
      points[i] == old(points[i])
    ensures forall i :: 0 <= i < points.Length && dist(old(points[i])) > 0.0 ==>
      points[i] == newton(old(points[i]), dist(old(points[i])))
    ensures points[..] == Projected(dist, newton, old(points[..]))
  {
    // evaluate distance function at points
    var distance := new real[points.Length];
    var point := 0;
    while point < points.Length
      invariant 0 <= point <= points.Length
      invariant points[..] == old(points[..])
      invariant forall j :: 0 <= j < point ==> distance[j] == dist(points[j])
    {
      distance[point] := dist(points[point]);
      point := point + 1;
    }

    // move the points outside of the boundary
    ghost var before := points[..];
    point := 0;
    while point < points.Length
      invariant 0 <= point <= points.Length
      invariant forall j :: 0 <= j < points.Length ==> distance[j] == dist(before[j])
      invariant forall j :: 0 <= j < point && dist(before[j]) <= 0.0 ==> points[j] == before[j]
      invariant forall j :: 0 <= j < point && dist(before[j]) > 0.0 ==>
        points[j] == newton(before[j], dist(before[j]))
      invariant forall j :: point <= j < points.Length ==> points[j] == before[j]
    {
      if distance[point] > 0.0 {
        points[point] := newton(points[point], distance[point]);
      }
      point := point + 1;
    }
  }
}
