/** The DistMesh driver: `distmesh::boundingBox` and the main loop of
    `distmesh::distmesh`. Each step retriangulates when the points have moved
    far enough since the last triangulation, computes one repulsive force per
    bar, moves the free endpoints, projects outside points back onto the
    boundary, and stops when the step moved the points little enough or the
    step cap is reached. The numerical parts (distance function, Newton step,
    Delaunay triangulation, desired bar lengths, displacement norms) are
    parameters. */
module DistMesh {
  import opened Vectors
  import Bars
  import PointList
  import Moves
  import Projection

  datatype Option<T> = None | Some(value: T)

  // ---- the bounding box ----

  /** `boundingBox(d)`: a 2 x d array, row 0 all -1.0 and row 1 all 1.0. */
  function BoundingBox(dimension: nat): (box: seq<Point>)
    ensures |box| == 2 && |box[0]| == dimension && |box[1]| == dimension
    ensures forall k :: 0 <= k < dimension ==> box[0][k] == -1.0 && box[1][k] == 1.0
  {
    [seq(dimension, _ => -1.0), seq(dimension, _ => 1.0)]
  }

  /** The box read column by column, as the point sampler reads its
      dimension-by-dimension minimum and maximum. */
  function Intervals(box: seq<Point>): (ivs: seq<PointList.Interval>)
    requires |box| == 2 && |box[0]| == |box[1]|
    ensures |ivs| == |box[0]|
    ensures forall k :: 0 <= k < |ivs| ==> ivs[k].lo == box[0][k] && ivs[k].hi == box[1][k]
  {
    seq(|box[0]|, k requires 0 <= k < |box[0]| => PointList.Interval(box[0][k], box[1][k]))
  }

  /** The default box is a valid sampling box: the cube [-1, 1]^d in every dimension. */
  lemma BoundingBoxIsCube(dimension: nat)
    ensures var ivs := Intervals(BoundingBox(dimension));
      PointList.ValidBox(ivs) && |ivs| == dimension &&
      forall k :: 0 <= k < dimension ==> ivs[k] == PointList.Interval(-1.0, 1.0)
  {
  }

  // ---- the numerical parameters ----

  /** The floating-point parts of the algorithm, taken as given:
      `dist` is the distance function, `newton` one projection step
      (`x - d * grad / |grad|^2`), `delaunay` the external triangulator,
      `ratio(ps, bars, e)` is `(desired - length) / length` for bar `e`, and
      `displacement(a, b)` the largest row norm of `a - b`. */
  datatype Numerics = Numerics(
    dist: Point -> real,
    newton: (Point, real) -> Point,
    delaunay: seq<Point> -> seq<seq<int>>,
    ratio: (seq<Point>, seq<Bar>, nat) -> real,
    displacement: (seq<Point>, seq<Point>) -> real)

  /** The configuration constants and the initial point distance `h0`. */
  datatype Config = Config(
    h0: real,
    maxSteps: nat,
    deltaT: real,
    retriangulationThreshold: real,
    geometryEvaluationThreshold: real,
    pointsMovementThreshold: real)

  /** What the model assumes of the parameters: a Newton step keeps the
      dimension, and the triangulator returns simplices of `dim + 1` valid
      point indices. */
  ghost predicate ValidNumerics(num: Numerics, dim: nat) {
    (forall x: Point, d: real :: |num.newton(x, d)| == |x|) &&
    (forall ps: seq<Point> :: Bars.Shaped(dim, num.delaunay(ps)) && Bars.IndicesBelow(num.delaunay(ps), |ps|))
  }

  // ---- one step ----

  /** Coordinate `k` summed over the vertices of a simplex. */
  function VertexSum(ps: seq<Point>, dim: nat, row: seq<int>, k: nat): real
    requires Rows(ps, dim) && k < dim
    requires forall j :: 0 <= j < |row| ==> 0 <= row[j] < |ps|
  {
    if row == [] then 0.0 else VertexSum(ps, dim, row[..|row| - 1], k) + ps[row[|row| - 1]][k]
  }

  /** The weight of one vertex: one over the vertex count. */
  function Weight(m: nat): real
    requires m > 0
  {
    1.0 / (m as real)
  }

  /** The running sum of the centroid loop after the vertices of `row`: each
      vertex divided by the vertex count `m` of the whole simplex and added in
      column order. */
  function CentroidSum(ps: seq<Point>, dim: nat, row: seq<int>, m: nat): (c: Point)
    requires Rows(ps, dim) && |row| <= m
    requires forall j :: 0 <= j < |row| ==> 0 <= row[j] < |ps|
    ensures |c| == dim
  {
    if row == [] then seq(dim, _ => 0.0)
    else
      var n := |row| - 1;
      Add(CentroidSum(ps, dim, row[..n], m), Scale(Weight(m), ps[row[n]]))
  }

  /** The centroid of a simplex, as the loop over `triangulation.cols()` computes it. */
  function Centroid(ps: seq<Point>, dim: nat, row: seq<int>): (c: Point)
    requires Rows(ps, dim)
    requires forall j :: 0 <= j < |row| ==> 0 <= row[j] < |ps|
    ensures |c| == dim
  {
    CentroidSum(ps, dim, row, |row|)
  }

  lemma Accumulate(c: real, a: real, w: real, x: real, s0: real, s: real)
    requires c == a + w * x && a == w * s0 && s == s0 + x
    ensures c == w * s
  {
  }

  /** One turn of the centroid loop adds the last vertex, weighted. */
  lemma CentroidSumLast(ps: seq<Point>, dim: nat, row: seq<int>, m: nat, k: nat)
    requires Rows(ps, dim) && |row| <= m && row != [] && k < dim
    requires forall j :: 0 <= j < |row| ==> 0 <= row[j] < |ps|
    ensures CentroidSum(ps, dim, row, m)[k] ==
      CentroidSum(ps, dim, row[..|row| - 1], m)[k] + Weight(m) * ps[row[|row| - 1]][k]
  {
  }

  /** Coordinate `k` of the running sum is the sum of the vertices so far,
      each weighted by one over the vertex count. */
  lemma {:induction false} CentroidSumCoord(ps: seq<Point>, dim: nat, row: seq<int>, m: nat, k: nat)
    requires Rows(ps, dim) && |row| <= m && 0 < m && k < dim
    requires forall j :: 0 <= j < |row| ==> 0 <= row[j] < |ps|
    ensures CentroidSum(ps, dim, row, m)[k] == Weight(m) * VertexSum(ps, dim, row, k)
  {
    if row != [] {
      var init := row[..|row| - 1];
      CentroidSumCoord(ps, dim, init, m, k);
      CentroidSumLast(ps, dim, row, m, k);
      Accumulate(CentroidSum(ps, dim, row, m)[k], CentroidSum(ps, dim, init, m)[k],
                 Weight(m), ps[row[|row| - 1]][k],
                 VertexSum(ps, dim, init, k), VertexSum(ps, dim, row, k));
    }
  }

  lemma WeightIsDivision(s: real, m: real)
    requires m > 0.0
    ensures (1.0 / m) * s == s / m
  {
  }

  /** The centroid is the vertex mean: coordinate `k` is the sum of the
      vertices' coordinates `k` divided by the number of vertices. */
  lemma CentroidMean(ps: seq<Point>, dim: nat, row: seq<int>, k: nat)
    requires Rows(ps, dim) && row != [] && k < dim
    requires forall j :: 0 <= j < |row| ==> 0 <= row[j] < |ps|
    ensures Centroid(ps, dim, row)[k] == VertexSum(ps, dim, row, k) / (|row| as real)
  {
    CentroidSumCoord(ps, dim, row, |row|, k);
    WeightIsDivision(VertexSum(ps, dim, row, k), |row| as real);
  }

  /** The triangle (0,0), (3,0), (0,3) has its centroid at (1,1). */
  lemma CentroidOfTriangle()
    ensures Centroid([[0.0, 0.0], [3.0, 0.0], [0.0, 3.0]], 2, [0, 1, 2]) == [1.0, 1.0]
  {
    var ps: seq<Point> := [[0.0, 0.0], [3.0, 0.0], [0.0, 3.0]];
    var row := [0, 1, 2];
    assert row[..2] == [0, 1] && row[..2][..1] == [0] && row[..2][..1][..0] == [];
    assert VertexSum(ps, 2, [0], 0) == 0.0 && VertexSum(ps, 2, [0], 1) == 0.0;
    assert VertexSum(ps, 2, [0, 1], 0) == 3.0 && VertexSum(ps, 2, [0, 1], 1) == 0.0;
    assert VertexSum(ps, 2, row, 0) == 3.0 && VertexSum(ps, 2, row, 1) == 3.0;
    CentroidMean(ps, 2, row, 0);
    CentroidMean(ps, 2, row, 1);
    var c := Centroid(ps, 2, row);
    assert c[0] == 1.0 && c[1] == 1.0;
  }

  /** The centroid test: a simplex is kept when its centroid lies safely inside. */
  predicate KeepSimplex(num: Numerics, cfg: Config, ps: seq<Point>, dim: nat, row: seq<int>)
    requires Rows(ps, dim)
    requires forall j :: 0 <= j < |row| ==> 0 <= row[j] < |ps|
  {
    num.dist(Centroid(ps, dim, row)) < -cfg.geometryEvaluationThreshold * cfg.h0
  }

  /** `selectMaskedArrayElements` with the centroid mask: the simplices that
      pass the centroid test, in their original order. */
  function KeptSimplices(num: Numerics, cfg: Config, ps: seq<Point>, dim: nat, tri: seq<seq<int>>)
    : (r: seq<seq<int>>)
    requires Rows(ps, dim) && Bars.Shaped(dim, tri) && Bars.IndicesBelow(tri, |ps|)
    ensures Bars.Shaped(dim, r) && Bars.IndicesBelow(r, |ps|)
    ensures forall t :: 0 <= t < |r| ==> KeepSimplex(num, cfg, ps, dim, r[t])
    ensures |r| <= |tri|
  {
    if tri == [] then []
    else
      var n := |tri| - 1;
      var r0 := KeptSimplices(num, cfg, ps, dim, tri[..n]);
      assert forall t :: 0 <= t < n ==> tri[..n][t] == tri[t];
      r0 + (if KeepSimplex(num, cfg, ps, dim, tri[n]) then [tri[n]] else [])
  }

  /** A simplex survives the mask exactly when it is one of the given simplices
      and passes the centroid test. */
  lemma {:induction false} KeptSimplicesMember(num: Numerics, cfg: Config, ps: seq<Point>, dim: nat,
                                               tri: seq<seq<int>>, row: seq<int>)
    requires Rows(ps, dim) && Bars.Shaped(dim, tri) && Bars.IndicesBelow(tri, |ps|)
    requires forall j :: 0 <= j < |row| ==> 0 <= row[j] < |ps|
    ensures row in KeptSimplices(num, cfg, ps, dim, tri) <==> row in tri && KeepSimplex(num, cfg, ps, dim, row)
  {
    if tri != [] {
      var n := |tri| - 1;
      assert forall t :: 0 <= t < n ==> tri[..n][t] == tri[t];
      KeptSimplicesMember(num, cfg, ps, dim, tri[..n], row);
      assert tri == tri[..n] + [tri[n]];
    }
  }

  /** The force on each bar: the edge vector scaled by the clamped relative
      length deficit, so bars only ever push their endpoints apart. */
  function Forces(num: Numerics, ps: seq<Point>, dim: nat, bars: seq<Bar>): (f: seq<Point>)
    requires Rows(ps, dim)
    requires forall e :: 0 <= e < |bars| ==> 0 <= bars[e].first < |ps| && 0 <= bars[e].second < |ps|
    ensures |f| == |bars| && Rows(f, dim)
  {
    seq(|bars|, e requires 0 <= e < |bars| => BarForce(num, ps, dim, bars, e))
  }

  /** The force on bar `e`. */
  function BarForce(num: Numerics, ps: seq<Point>, dim: nat, bars: seq<Bar>, e: nat): (v: Point)
    requires Rows(ps, dim)
    requires e < |bars| && 0 <= bars[e].first < |ps| && 0 <= bars[e].second < |ps|
    ensures |v| == dim
  {
    var r := num.ratio(ps, bars, e);
    Scale(if r > 0.0 then r else 0.0, Sub(ps[bars[e].first], ps[bars[e].second]))
  }

  /** Repulsion: every coordinate of a bar's force has the sign of the edge
      vector from its second endpoint to its first. */
  lemma ForcesRepulsive(num: Numerics, ps: seq<Point>, dim: nat, bars: seq<Bar>, e: nat, k: nat)
    requires Rows(ps, dim)
    requires forall e :: 0 <= e < |bars| ==> 0 <= bars[e].first < |ps| && 0 <= bars[e].second < |ps|
    requires e < |bars| && k < dim
    ensures var d := ps[bars[e].first][k] - ps[bars[e].second][k];
      Forces(num, ps, dim, bars)[e][k] * d >= 0.0
  {
    var d := ps[bars[e].first][k] - ps[bars[e].second][k];
    var r := num.ratio(ps, bars, e);
    var c := if r > 0.0 then r else 0.0;
    assert Forces(num, ps, dim, bars)[e][k] == c * d;
    assert d * d >= 0.0;
    assert (c * d) * d == c * (d * d);
  }

  /** The state carried from one step to the next: the points, the snapshot
      taken at the last retriangulation (`None` while it is the INFINITY
      buffer), the current simplices and the current bars. */
  datatype State = State(points: seq<Point>, snapshot: Option<seq<Point>>,
                         tri: seq<seq<int>>, bars: seq<Bar>)

  /** The state is well formed: `dim`-wide rows, `dim + 1` valid indices per
      simplex, valid bar endpoints. */
  predicate Wf(dim: nat, s: State) {
    Rows(s.points, dim) && Bars.Shaped(dim, s.tri) && Bars.IndicesBelow(s.tri, |s.points|) &&
    forall e :: 0 <= e < |s.bars| ==> 0 <= s.bars[e].first < |s.points| && 0 <= s.bars[e].second < |s.points|
  }

  /** The retriangulation test; the INFINITY buffer always triggers it. */
  predicate NeedsRetriangulation(num: Numerics, cfg: Config, s: State) {
    s.snapshot.None? ||
    num.displacement(s.points, s.snapshot.value) > cfg.retriangulationThreshold * cfg.h0
  }

  /** Retriangulation: triangulate, drop simplices whose centroid is not safely
      inside, recompute the bars, and take a snapshot of the points. */
  ghost function Retriangulate(num: Numerics, cfg: Config, dim: nat, s: State): (r: State)
    requires ValidNumerics(num, dim) && Wf(dim, s)
    ensures Wf(dim, r) && r.points == s.points && r.snapshot == Some(s.points)
  {
    var tri := KeptSimplices(num, cfg, s.points, dim, num.delaunay(s.points));
    var bars := Bars.SortedBars(Bars.AllBars(dim, tri));
    assert forall e :: 0 <= e < |bars| ==> 0 <= bars[e].first < |s.points| && 0 <= bars[e].second < |s.points| by {
      forall e | 0 <= e < |bars|
        ensures 0 <= bars[e].first < |s.points| && 0 <= bars[e].second < |s.points|
      {
        Bars.SortedBarsSpec(Bars.AllBars(dim, tri));
        assert bars[e] in bars;
        Bars.BarEndpointsBelow(dim, tri, |s.points|, bars[e]);
      }
    }
    State(s.points, Some(s.points), tri, bars)
  }

  /** After a retriangulation, a simplex is current exactly when the
      triangulator produced it and its centroid passes the test, and a bar is
      current exactly when it is a canonical cyclic pair of a current simplex;
      the bars are listed once each, in ascending order. */
  lemma RetriangulateMask(num: Numerics, cfg: Config, dim: nat, s: State, row: seq<int>, b: Bar)
    requires ValidNumerics(num, dim) && Wf(dim, s)
    requires forall j :: 0 <= j < |row| ==> 0 <= row[j] < |s.points|
    ensures var r := Retriangulate(num, cfg, dim, s);
      (row in r.tri <==> row in num.delaunay(s.points) && KeepSimplex(num, cfg, s.points, dim, row)) &&
      (b in r.bars <==> b in Bars.AllBars(dim, r.tri)) &&
      Bars.StrictlySorted(r.bars)
  {
    var tri := KeptSimplices(num, cfg, s.points, dim, num.delaunay(s.points));
    KeptSimplicesMember(num, cfg, s.points, dim, num.delaunay(s.points), row);
    Bars.SortedBarsSpec(Bars.AllBars(dim, tri));
  }

  /** The retriangulation branch of a step: retriangulate when the test asks
      for it, otherwise keep the state. */
  ghost function Refresh(num: Numerics, cfg: Config, dim: nat, s: State): (r: State)
    requires ValidNumerics(num, dim) && Wf(dim, s)
    ensures Wf(dim, r) && r.points == s.points
  {
    if NeedsRetriangulation(num, cfg, s) then Retriangulate(num, cfg, dim, s) else s
  }

  /** The movement part of a step: the bar forces move the free endpoints,
      then the outside points are projected; simplices, bars and snapshot stay. */
  function Advance(num: Numerics, cfg: Config, dim: nat, fixedCount: nat, s: State): (r: State)
    requires Wf(dim, s)
    requires forall x: Point, d: real :: |num.newton(x, d)| == |x|
    ensures Wf(dim, r) && |r.points| == |s.points|
  {
    var forces := Forces(num, s.points, dim, s.bars);
    var moved := Moves.Moved(s.points, s.bars, forces, dim, fixedCount, cfg.deltaT);
    var projected := Projection.Projected(num.dist, num.newton, moved);
    assert Rows(projected, dim);
    s.(points := projected)
  }

  /** One iteration of the main loop, up to the convergence test. */
  ghost function Step(num: Numerics, cfg: Config, dim: nat, fixedCount: nat, s: State): (r: State)
    requires ValidNumerics(num, dim) && Wf(dim, s)
    ensures Wf(dim, r) && |r.points| == |s.points|
  {
    Advance(num, cfg, dim, fixedCount, Refresh(num, cfg, dim, s))
  }

  /** The state before the first step: the initial points, the INFINITY
      snapshot, the initial triangulation and no bars yet. */
  function Initial(num: Numerics, initialPoints: seq<Point>): State {
    State(initialPoints, None, num.delaunay(initialPoints), [])
  }

  /** The stop test between the points before and after a step. */
  predicate Converged(num: Numerics, cfg: Config, before: seq<Point>, after: seq<Point>) {
    num.displacement(after, before) < cfg.pointsMovementThreshold * cfg.h0
  }

  /** `trace` lists the states of a run: it starts well formed and each state
      is one step from the one before. */
  ghost predicate IsRun(num: Numerics, cfg: Config, dim: nat, fixedCount: nat, trace: seq<State>)
    requires ValidNumerics(num, dim)
  {
    |trace| >= 1 && Wf(dim, trace[0]) &&
    forall k :: 0 <= k < |trace| - 1 ==>
      Wf(dim, trace[k]) && trace[k + 1] == Step(num, cfg, dim, fixedCount, trace[k])
  }

  /** A run extended by one step is a run. */
  lemma RunExtend(num: Numerics, cfg: Config, dim: nat, fixedCount: nat, trace: seq<State>)
    requires ValidNumerics(num, dim) && IsRun(num, cfg, dim, fixedCount, trace)
    requires Wf(dim, trace[|trace| - 1])
    ensures IsRun(num, cfg, dim, fixedCount,
                  trace + [Step(num, cfg, dim, fixedCount, trace[|trace| - 1])])
  {
    var t := trace + [Step(num, cfg, dim, fixedCount, trace[|trace| - 1])];
    forall k | 0 <= k < |t| - 1
      ensures Wf(dim, t[k]) && t[k + 1] == Step(num, cfg, dim, fixedCount, t[k])
    {
      assert t[k] == trace[k];
      if k < |trace| - 1 {
        assert t[k + 1] == trace[k + 1];
      }
    }
  }

  // ---- the main loop ----

  /** The retriangulation branch of the main loop: when the points have moved
      far enough since the snapshot (always, while the snapshot is the INFINITY
      buffer), triangulate, drop the simplices whose centroid is outside, find
      the unique bars and take a new snapshot; otherwise keep everything. */
  method MaybeRetriangulate(num: Numerics, cfg: Config, dim: nat, points: seq<Point>,
                            retriangulationBuffer: Option<seq<Point>>, triangulation: seq<seq<int>>,
                            bars: seq<Bar>)
    returns (retriangulationBuffer': Option<seq<Point>>, triangulation': seq<seq<int>>, bars': seq<Bar>)
    requires ValidNumerics(num, dim) && Wf(dim, State(points, retriangulationBuffer, triangulation, bars))
    ensures State(points, retriangulationBuffer', triangulation', bars') ==
      Refresh(num, cfg, dim, State(points, retriangulationBuffer, triangulation, bars))
  {
    var s := State(points, retriangulationBuffer, triangulation, bars);
    retriangulationBuffer', triangulation', bars' := retriangulationBuffer, triangulation, bars;
    if NeedsRetriangulation(num, cfg, s) {
      // update the triangulation and reject simplices whose centroid is outside
      triangulation' := num.delaunay(points);
      triangulation' := KeptSimplices(num, cfg, points, dim, triangulation');
      // find unique bars
      bars' := Bars.FindUniqueBars(dim, triangulation');
      // store current point positions
      retriangulationBuffer' := Some(points);
    }
  }

  /** The body of the main loop up to the convergence test, in place on the
      point buffer: retriangulate if needed, compute the forces, remember the
      points for the stop test, move, project. */
  method StepInPlace(num: Numerics, cfg: Config, dim: nat, fixedCount: nat, buffer: array<Point>,
                     retriangulationBuffer: Option<seq<Point>>, triangulation: seq<seq<int>>, bars: seq<Bar>)
    returns (retriangulationBuffer': Option<seq<Point>>, triangulation': seq<seq<int>>, bars': seq<Bar>,
             stopBuffer: seq<Point>)
    requires ValidNumerics(num, dim) && Wf(dim, State(buffer[..], retriangulationBuffer, triangulation, bars))
    modifies buffer
    ensures stopBuffer == old(buffer[..])
    ensures State(buffer[..], retriangulationBuffer', triangulation', bars') ==
      Step(num, cfg, dim, fixedCount, State(old(buffer[..]), retriangulationBuffer, triangulation, bars))
  {
    retriangulationBuffer', triangulation', bars' :=
      MaybeRetriangulate(num, cfg, dim, buffer[..], retriangulationBuffer, triangulation, bars);

    // calculate the force vector of each bar
    var forces := Forces(num, buffer[..], dim, bars');

    // store current point positions
    stopBuffer := buffer[..];

    // move points, then project points outside of the domain to the boundary
    Moves.MoveEdges(buffer, dim, bars', forces, fixedCount, cfg.deltaT);
    Projection.ProjectPoints(num.dist, num.newton, buffer);
  }

  /** A fresh point buffer holding a copy of `ps`. */
  method NewBuffer(ps: seq<Point>) returns (buffer: array<Point>)
    ensures fresh(buffer) && buffer[..] == ps
  {
    buffer := new Point[|ps|](i requires 0 <= i < |ps| => ps[i]);
    assert buffer[..] == ps;
  }

  /** One pass of the main loop: the step from the last state of the run so
      far, then the stop test on how far it moved the points. */
  method Iteration(num: Numerics, cfg: Config, dim: nat, fixedCount: nat, ghost trace: seq<State>,
                   buffer: array<Point>, retriangulationBuffer: Option<seq<Point>>,
                   triangulation: seq<seq<int>>, bars: seq<Bar>)
    returns (retriangulationBuffer': Option<seq<Point>>, triangulation': seq<seq<int>>, bars': seq<Bar>,
             converged: bool, ghost trace': seq<State>)
    requires ValidNumerics(num, dim) && IsRun(num, cfg, dim, fixedCount, trace)
    requires Wf(dim, trace[|trace| - 1])
    requires State(buffer[..], retriangulationBuffer, triangulation, bars) == trace[|trace| - 1]
    modifies buffer
    ensures trace' == trace + [Step(num, cfg, dim, fixedCount, trace[|trace| - 1])]
    ensures IsRun(num, cfg, dim, fixedCount, trace') && Wf(dim, trace'[|trace|])
    ensures State(buffer[..], retriangulationBuffer', triangulation', bars') == trace'[|trace|]
    ensures converged == Converged(num, cfg, trace[|trace| - 1].points, trace'[|trace|].points)
  {
    ghost var s := trace[|trace| - 1];
    var stopBuffer;
    retriangulationBuffer', triangulation', bars', stopBuffer :=
      StepInPlace(num, cfg, dim, fixedCount, buffer, retriangulationBuffer, triangulation, bars);

    // stop when the maximum point movement is below the threshold
    converged := Converged(num, cfg, stopBuffer, buffer[..]);

    RunExtend(num, cfg, dim, fixedCount, trace);
    trace' := trace + [Step(num, cfg, dim, fixedCount, s)];
  }

  /** No step among the first `n` of the run met the stop test. */
  ghost predicate NoStopBefore(num: Numerics, cfg: Config, trace: seq<State>, n: int) {
    forall k :: 0 <= k < n && k + 1 < |trace| ==> !Converged(num, cfg, trace[k].points, trace[k + 1].points)
  }

  /** Extending the run keeps what was said about its earlier steps. */
  lemma NoStopBeforeNext(num: Numerics, cfg: Config, trace: seq<State>, next: State, n: nat)
    requires NoStopBefore(num, cfg, trace, n) && n + 1 < |trace|
    requires !Converged(num, cfg, trace[n].points, trace[n + 1].points)
    ensures NoStopBefore(num, cfg, trace + [next], n + 1)
  {
    var t := trace + [next];
    forall k | 0 <= k < n + 1 && k + 1 < |t|
      ensures !Converged(num, cfg, t[k].points, t[k + 1].points)
    {
      assert t[k] == trace[k] && t[k + 1] == trace[k + 1];
    }
  }

  /** `distmesh`: from the initial points, runs steps until the first one that
      converges or until `maxSteps` steps; returns the points, the simplices,
      the number of steps taken and (as a ghost) the states it went through. */
  method Distmesh(num: Numerics, cfg: Config, dim: nat, initialPoints: seq<Point>, fixedCount: nat)
    returns (points: seq<Point>, triangulation: seq<seq<int>>, steps: nat, ghost trace: seq<State>)
    requires ValidNumerics(num, dim) && Rows(initialPoints, dim)
    ensures IsRun(num, cfg, dim, fixedCount, trace) && trace[0] == Initial(num, initialPoints)
    ensures |trace| == steps + 1 && steps <= cfg.maxSteps
    ensures points == trace[steps].points && triangulation == trace[steps].tri
    ensures forall k :: 0 <= k < steps - 1 ==> !Converged(num, cfg, trace[k].points, trace[k + 1].points)
    ensures steps < cfg.maxSteps ==>
      steps >= 1 && Converged(num, cfg, trace[steps - 1].points, trace[steps].points)
  {
    var buffer := NewBuffer(initialPoints);

    // create initial triangulation
    triangulation := Initial(num, initialPoints).tri;

    // buffer for the retriangulation criterion, initially INFINITY
    var retriangulationBuffer: Option<seq<Point>> := None;

    // main distmesh loop
    var bars: seq<Bar> := [];
    var step := 0;
    var stopped := false;
    trace := [Initial(num, initialPoints)];
    while step < cfg.maxSteps && !stopped
      invariant 0 <= step <= cfg.maxSteps && |trace| == step + 1
      invariant IsRun(num, cfg, dim, fixedCount, trace) && trace[0] == Initial(num, initialPoints)
      invariant State(buffer[..], retriangulationBuffer, triangulation, bars) == trace[step]
      invariant Wf(dim, trace[step])
      invariant NoStopBefore(num, cfg, trace, step - 1)
      invariant stopped ==> step >= 1 && Converged(num, cfg, trace[step - 1].points, trace[step].points)
      invariant !stopped && step >= 1 ==> !Converged(num, cfg, trace[step - 1].points, trace[step].points)
    {
      ghost var prev := trace;
      var converged;
      retriangulationBuffer, triangulation, bars, converged, trace :=
        Iteration(num, cfg, dim, fixedCount, trace, buffer, retriangulationBuffer, triangulation, bars);
      if step >= 1 {
        NoStopBeforeNext(num, cfg, prev, trace[step + 1], step - 1);
      }
      step := step + 1;
      stopped := converged;
    }
    points := buffer[..];
    steps := step;
  }

  // ---- what a run guarantees ----

  /** Every state of a run is well formed and has the initial number of points. */
  lemma {:induction false} RunWellFormed(num: Numerics, cfg: Config, dim: nat, fixedCount: nat,
                                         trace: seq<State>, k: nat)
    requires ValidNumerics(num, dim) && IsRun(num, cfg, dim, fixedCount, trace) && k < |trace|
    ensures Wf(dim, trace[k]) && |trace[k].points| == |trace[0].points|
  {
    if k > 0 {
      RunWellFormed(num, cfg, dim, fixedCount, trace, k - 1);
    }
  }

  /** A run is determined by its first state: two runs from the same state
      agree as far as both go. */
  lemma {:induction false} RunDeterministic(num: Numerics, cfg: Config, dim: nat, fixedCount: nat,
                                            t1: seq<State>, t2: seq<State>, k: nat)
    requires ValidNumerics(num, dim)
    requires IsRun(num, cfg, dim, fixedCount, t1) && IsRun(num, cfg, dim, fixedCount, t2)
    requires t1[0] == t2[0] && k < |t1| && k < |t2|
    ensures t1[k] == t2[k]
  {
    if k > 0 {
      RunDeterministic(num, cfg, dim, fixedCount, t1, t2, k - 1);
    }
  }

  /** The point is inside the domain or on its boundary. */
  predicate Inside(num: Numerics, p: Point) {
    num.dist(p) <= 0.0
  }

  /** One step changes a fixed point only by projecting it, which needs it to be outside. */
  lemma StepFixed(num: Numerics, cfg: Config, dim: nat, fixedCount: nat, s: State, i: nat)
    requires ValidNumerics(num, dim) && Wf(dim, s)
    requires i < fixedCount && i < |s.points|
    requires Inside(num, s.points[i])
    ensures Step(num, cfg, dim, fixedCount, s).points[i] == s.points[i]
  {
    var s1 := Refresh(num, cfg, dim, s);
    var forces := Forces(num, s1.points, dim, s1.bars);
    Moves.MovedFixed(s1.points, s1.bars, forces, dim, fixedCount, cfg.deltaT, i);
  }

  /** A fixed point that starts inside or on the boundary stays where it is for
      the whole run. */
  lemma {:induction false} RunFixed(num: Numerics, cfg: Config, dim: nat, fixedCount: nat,
                                    trace: seq<State>, k: nat, i: nat)
    requires ValidNumerics(num, dim) && IsRun(num, cfg, dim, fixedCount, trace) && k < |trace|
    requires i < fixedCount && i < |trace[0].points|
    requires Inside(num, trace[0].points[i])
    ensures i < |trace[k].points| && trace[k].points[i] == trace[0].points[i]
  {
    if k > 0 {
      RunFixed(num, cfg, dim, fixedCount, trace, k - 1, i);
      StepFixed(num, cfg, dim, fixedCount, trace[k - 1], i);
    }
  }

  /** The bars are the unique bars of the simplices. */
  ghost predicate BarsMatch(dim: nat, s: State) {
    Bars.Shaped(dim, s.tri) && s.bars == Bars.SortedBars(Bars.AllBars(dim, s.tri))
  }

  /** A step leaves bars that match the simplices whenever it starts from the
      INFINITY snapshot or from matching bars: a retriangulation recomputes
      both, and the move keeps both. */
  lemma StepBarsMatch(num: Numerics, cfg: Config, dim: nat, fixedCount: nat, s: State)
    requires ValidNumerics(num, dim) && Wf(dim, s)
    requires s.snapshot.None? || BarsMatch(dim, s)
    ensures BarsMatch(dim, Step(num, cfg, dim, fixedCount, s))
    ensures Step(num, cfg, dim, fixedCount, s).snapshot.Some?
      || Step(num, cfg, dim, fixedCount, s).snapshot == s.snapshot
  {
  }

  /** From the first step on, the bars always are the unique bars of the
      current simplices: the first step always retriangulates. */
  lemma {:induction false} RunBarsMatch(num: Numerics, cfg: Config, dim: nat, fixedCount: nat,
                                        trace: seq<State>, k: nat)
    requires ValidNumerics(num, dim) && IsRun(num, cfg, dim, fixedCount, trace)
    requires trace[0].snapshot.None? && 1 <= k < |trace|
    ensures BarsMatch(dim, trace[k])
  {
    RunWellFormed(num, cfg, dim, fixedCount, trace, k - 1);
    if k > 1 {
      RunBarsMatch(num, cfg, dim, fixedCount, trace, k - 1);
    }
    StepBarsMatch(num, cfg, dim, fixedCount, trace[k - 1]);
  }

  /** The first step retriangulates the initial points: its snapshot is the
      initial points and its simplices are the Delaunay simplices that pass
      the centroid test. */
  lemma FirstStepRetriangulates(num: Numerics, cfg: Config, dim: nat, fixedCount: nat,
                                trace: seq<State>, initialPoints: seq<Point>)
    requires ValidNumerics(num, dim) && Rows(initialPoints, dim)
    requires IsRun(num, cfg, dim, fixedCount, trace) && |trace| >= 2
    requires trace[0] == Initial(num, initialPoints)
    ensures trace[1].snapshot == Some(initialPoints)
    ensures trace[1].tri == KeptSimplices(num, cfg, initialPoints, dim, num.delaunay(initialPoints))
  {
  }
}
