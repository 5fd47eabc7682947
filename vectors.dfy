/** Coordinate rows and index pairs shared by the mesh modules.
    A row of an Eigen point array (one point, one coordinate per dimension)
    is a sequence of exact reals; floating-point rounding is not modelled. */
module Vectors {

  /** One point: its coordinates, dimension by dimension. */
  type Point = seq<real>

  /** An edge ("bar") as a row of the N x 2 bar array: two point indices. */
  datatype Bar = Bar(first: int, second: int)

  /** Every row of `ps` has `dim` coordinates. */
  predicate Rows(ps: seq<Point>, dim: nat) {
    forall i :: 0 <= i < |ps| ==> |ps[i]| == dim
  }

  /** Coordinate-wise sum, as Eigen's row `+`. */
  function Add(a: Point, b: Point): (r: Point)
    requires |a| == |b|
    ensures |r| == |a|
    ensures forall k :: 0 <= k < |a| ==> r[k] == a[k] + b[k]
  {
    seq(|a|, k requires 0 <= k < |a| => a[k] + b[k])
  }

  /** Coordinate-wise difference, as Eigen's row `-`. */
  function Sub(a: Point, b: Point): (r: Point)
    requires |a| == |b|
    ensures |r| == |a|
    ensures forall k :: 0 <= k < |a| ==> r[k] == a[k] - b[k]
  {
    seq(|a|, k requires 0 <= k < |a| => a[k] - b[k])
  }

  /** A scalar multiple of a row. */
  function Scale(c: real, a: Point): (r: Point)
    ensures |r| == |a|
    ensures forall k :: 0 <= k < |a| ==> r[k] == c * a[k]
  {
    seq(|a|, k requires 0 <= k < |a| => c * a[k])
  }

  /** The z component of the cross product of two 2-D vectors. */
  function Cross(v1: Point, v2: Point): real
    requires |v1| == 2 && |v2| == 2
  {
    v1[0] * v2[1] - v1[1] * v2[0]
  }

  /** The sum of column `k` over all rows. */
  function ColumnSum(ps: seq<Point>, k: nat): real
    requires forall i :: 0 <= i < |ps| ==> k < |ps[i]|
  {
    if ps == [] then 0.0 else ColumnSum(ps[..|ps| - 1], k) + ps[|ps| - 1][k]
  }
}
