/** The edge-driven point update of the `distmesh` main loop
    (`src/distmesh.cpp`, the "move points" loop). Each bar carries a force
    row; its first endpoint gains `deltaT * force`, its second endpoint loses
    it, and an endpoint whose index lies in the fixed-point prefix is skipped. */
module Moves {
  import opened Vectors

  /** What the move loop reads is well formed: one `dim`-wide force row per
      bar, `dim`-wide point rows, and bar endpoints that index the points. */
  predicate MoveReady(ps: seq<Point>, bars: seq<Bar>, forces: seq<Point>, dim: nat) {
    Rows(ps, dim) && Rows(forces, dim) && |forces| == |bars| &&
    forall e :: 0 <= e < |bars| ==> 0 <= bars[e].first < |ps| && 0 <= bars[e].second < |ps|
  }

  lemma MoveReadyPrefix(ps: seq<Point>, bars: seq<Bar>, forces: seq<Point>, dim: nat, n: nat)
    requires MoveReady(ps, bars, forces, dim) && n <= |bars|
    ensures MoveReady(ps, bars[..n], forces[..n], dim)
  {
  }

  /** One bar's update: `+= deltaT * f` on the first endpoint and `-= deltaT * f`
      on the second, each only when that endpoint is not fixed. */
  function MoveOne(q: seq<Point>, b: Bar, f: Point, fixedCount: nat, dt: real): seq<Point>
    requires 0 <= b.first < |q| && 0 <= b.second < |q|
    requires |q[b.first]| == |f| && |q[b.second]| == |f|
  {
    var q1 := if b.first >= fixedCount then q[b.first := Add(q[b.first], Scale(dt, f))] else q;
    if b.second >= fixedCount then q1[b.second := Sub(q1[b.second], Scale(dt, f))] else q1
  }

  /** The points after the bars have been applied in order. */
  function Moved(ps: seq<Point>, bars: seq<Bar>, forces: seq<Point>, dim: nat, fixedCount: nat, dt: real)
    : (r: seq<Point>)
    requires MoveReady(ps, bars, forces, dim)
    ensures |r| == |ps| && Rows(r, dim)
    decreases |bars|
  {
    if bars == [] then ps
    else
      var n := |bars| - 1;
      MoveReadyPrefix(ps, bars, forces, dim, n);
      var q := Moved(ps, bars[..n], forces[..n], dim, fixedCount, dt);
      MoveOne(q, bars[n], forces[n], fixedCount, dt)
  }

  /** Coordinate `k` of the total displacement of point `i`: `deltaT` times the
      forces of the bars that start at `i`, minus those of the bars that end there. */
  function Displacement(bars: seq<Bar>, forces: seq<Point>, dt: real, i: int, k: nat): real
    requires |forces| == |bars|
    requires forall e :: 0 <= e < |forces| ==> k < |forces[e]|
  {
    if bars == [] then 0.0
    else
      var n := |bars| - 1;
      Displacement(bars[..n], forces[..n], dt, i, k)
        + (if bars[n].first == i then dt * forces[n][k] else 0.0)
        - (if bars[n].second == i then dt * forces[n][k] else 0.0)
  }

  /** The move loop of `distmesh`, in place on the point buffer. */
  method MoveEdges(points: array<Point>, dim: nat, bars: seq<Bar>, forces: seq<Point>,
                   fixedCount: nat, deltaT: real)
    requires MoveReady(points[..], bars, forces, dim)
    modifies points
    ensures points[..] == Moved(old(points[..]), bars, forces, dim, fixedCount, deltaT)
  {
    ghost var start := points[..];
    var edge := 0;
    while edge < |bars|
      invariant 0 <= edge <= |bars|
      invariant MoveReady(start, bars[..edge], forces[..edge], dim)
      invariant points[..] == Moved(start, bars[..edge], forces[..edge], dim, fixedCount, deltaT)
    {
      ghost var before := points[..];
      MoveReadyPrefix(start, bars, forces, dim, edge + 1);
      assert bars[..edge + 1][..edge] == bars[..edge];
      assert forces[..edge + 1][..edge] == forces[..edge];
      var b := bars[edge];
      if b.first >= fixedCount {
        points[b.first] := Add(points[b.first], Scale(deltaT, forces[edge]));
      }
      if b.second >= fixedCount {
        points[b.second] := Sub(points[b.second], Scale(deltaT, forces[edge]));
      }
      assert points[..] == MoveOne(before, b, forces[edge], fixedCount, deltaT);
      edge := edge + 1;
    }
    assert bars[..edge] == bars && forces[..edge] == forces;
  }

  /** No row in the fixed-point prefix is ever changed by the move loop. */
  lemma {:induction false} MovedFixed(ps: seq<Point>, bars: seq<Bar>, forces: seq<Point>, dim: nat,
                                      fixedCount: nat, dt: real, i: nat)
    requires MoveReady(ps, bars, forces, dim)
    requires i < fixedCount && i < |ps|
    ensures Moved(ps, bars, forces, dim, fixedCount, dt)[i] == ps[i]
    decreases |bars|
  {
    if bars != [] {
      var n := |bars| - 1;
      MoveReadyPrefix(ps, bars, forces, dim, n);
      MovedFixed(ps, bars[..n], forces[..n], dim, fixedCount, dt, i);
    }
  }

  /** One bar's effect on coordinate `k` of a free row. */
  lemma MoveOneFree(q: seq<Point>, b: Bar, f: Point, fixedCount: nat, dt: real, i: nat, k: nat)
    requires 0 <= b.first < |q| && 0 <= b.second < |q|
    requires |q[b.first]| == |f| && |q[b.second]| == |f|
    requires fixedCount <= i < |q| && k < |f| && |q[i]| == |f|
    ensures MoveOne(q, b, f, fixedCount, dt)[i][k] ==
      q[i][k] + (if b.first == i then dt * f[k] else 0.0) - (if b.second == i then dt * f[k] else 0.0)
  {
  }

  /** A free row moves by exactly its total displacement. */
  lemma {:induction false} MovedFree(ps: seq<Point>, bars: seq<Bar>, forces: seq<Point>, dim: nat,
                                     fixedCount: nat, dt: real, i: nat, k: nat)
    requires MoveReady(ps, bars, forces, dim)
    requires fixedCount <= i < |ps| && k < dim
    ensures Moved(ps, bars, forces, dim, fixedCount, dt)[i][k] ==
      ps[i][k] + Displacement(bars, forces, dt, i, k)
    decreases |bars|
  {
    if bars != [] {
      var n := |bars| - 1;
      MoveReadyPrefix(ps, bars, forces, dim, n);
      MovedFree(ps, bars[..n], forces[..n], dim, fixedCount, dt, i, k);
      var q := Moved(ps, bars[..n], forces[..n], dim, fixedCount, dt);
      MoveOneFree(q, bars[n], forces[n], fixedCount, dt, i, k);
    }
  }

  /** Replacing one row changes a column sum by the change in that row. */
  lemma {:induction false} ColumnSumUpdate(ps: seq<Point>, i: nat, row: Point, k: nat)
    requires i < |ps| && k < |row|
    requires forall j :: 0 <= j < |ps| ==> k < |ps[j]|
    ensures ColumnSum(ps[i := row], k) == ColumnSum(ps, k) - ps[i][k] + row[k]
    decreases |ps|
  {
    var n := |ps| - 1;
    assert ps[i := row][..n] == if i == n then ps[..n] else ps[..n][i := row];
    if i < n {
      ColumnSumUpdate(ps[..n], i, row, k);
    }
  }

  /** With no fixed endpoint, every bar adds to one endpoint what it takes
      from the other, so each coordinate sum over all points is conserved. */
  lemma {:induction false} MovedConserves(ps: seq<Point>, bars: seq<Bar>, forces: seq<Point>, dim: nat,
                                          fixedCount: nat, dt: real, k: nat)
    requires MoveReady(ps, bars, forces, dim) && k < dim
    requires forall e :: 0 <= e < |bars| ==> bars[e].first >= fixedCount && bars[e].second >= fixedCount
    ensures ColumnSum(Moved(ps, bars, forces, dim, fixedCount, dt), k) == ColumnSum(ps, k)
    decreases |bars|
  {
    if bars != [] {
      var n := |bars| - 1;
      MoveReadyPrefix(ps, bars, forces, dim, n);
      MovedConserves(ps, bars[..n], forces[..n], dim, fixedCount, dt, k);
      var q := Moved(ps, bars[..n], forces[..n], dim, fixedCount, dt);
      var b, f := bars[n], forces[n];
      var q1 := q[b.first := Add(q[b.first], Scale(dt, f))];
      ColumnSumUpdate(q, b.first, Add(q[b.first], Scale(dt, f)), k);
      assert ColumnSum(q1, k) == ColumnSum(q, k) + dt * f[k];
      assert |q1[b.second]| == dim;
      ColumnSumUpdate(q1, b.second, Sub(q1[b.second], Scale(dt, f)), k);
    }
  }
}
