# libDistMesh core in Dafny

This project models the integer and combinatorial core of libDistMesh, a C++
library that builds simplex meshes with the DistMesh algorithm. In DistMesh,
mesh edges ("bars") act as springs. Points are pushed apart by repulsive bar
forces, projected back onto the zero level set of a signed distance function,
and retriangulated whenever they have moved far enough.

The modelled operations are:

- `find_unique_bars`: the unique, canonically ordered edges of a triangulation.
- `create_point_list`: the regular grid over the bounding box, with mixed-radix
  indexing, and the two compaction passes (the distance test, then the random
  thinning test).
- `project_points_to_function`: only points outside the domain are moved, each
  by one Newton step.
- `boundingBox`: the default box.
- `boundEdges`: the set/list scan that finds edges occurring once, and the 2-D
  sign flip that marks wrongly oriented boundary edges.
- The main loop of `distmesh`: retriangulation cadence, force per bar, the
  move loop that skips fixed points, projection, and the stop test under the
  `maxSteps` cap.

Modules, one per concern:

| module | file | models |
|---|---|---|
| `Vectors` | vectors.dfy | point rows (`seq<real>`), bars, row arithmetic |
| `Bars` | bars.dfy | `find_unique_bars` |
| `PointList` | pointlist.dfy | `create_point_list` |
| `Projection` | projection.dfy | `project_points_to_function` |
| `Moves` | moves.dfy | the move loop of `distmesh` |
| `Boundary` | boundary.dfy | `boundEdges` |
| `DistMesh` | distmesh.dfy | `boundingBox` and the `distmesh` main loop |

The Eigen arrays the code updates in place become `array<Point>`:

- the point buffer of the main loop;
- the grid buffer and the compaction buffers;
- the boundary array.

Arrays that are only read become sequences. Each imperative method is proved
against a function of its inputs, and the properties are proved as lemmas
about that function. The main loop returns, as a ghost output, the trace of
states it went through: `IsRun` says each state is one `Step` after the
previous one. The lemmas about runs (point count, fixed points, bars matching
the simplices, determinism) are stated over such traces.

Floating-point arithmetic is modelled as exact `real` arithmetic. The
numerical parts are parameters of the model:

- the distance function;
- the Newton projection step;
- the Delaunay triangulator;
- the force ratio of a bar;
- the displacement norm;
- the random keep test.

See the `Numerics` datatype and `ValidNumerics`.

## Model

| member | source | states |
|---|---|---|
| Bars.FindUniqueBars | src/utils.cpp:84-114 | the result is the set of canonical cyclic pairs of all simplex rows, listed once each in ascending order |
| Bars.CopyAscending | src/utils.cpp:103-111 | copying the set gives a strictly ascending sequence with exactly the set's members and the set's size |
| Bars.SortedBarsSpec | src/utils.cpp:104-111 | the ascending listing of a bar set is strictly sorted, holds exactly the set's members and has one row per member |
| Bars.SortedBarsMembers | src/utils.cpp:104-111 | the ascending listing holds exactly the set's members, one row per member |
| Bars.SortedBarsSorted | src/utils.cpp:104-111 | the ascending listing of a bar set is strictly sorted |
| Bars.UniqueBarsSpec | src/utils.cpp:89-111 | every emitted bar has first >= second; the output has no duplicates, is ascending, contains exactly the distinct canonical pairs and has one row per pair |
| Bars.Canonical | src/utils.cpp:93-99 | a canonical pair is the input pair, possibly swapped, with the larger index first |
| Bars.AllBarsCanonical | src/utils.cpp:93-99 | every pair in the bar set has its first index >= its second |
| Bars.AllBarsComplete | src/utils.cpp:91-101 | for every row t and every i <= D, the canonical pair of t[i] and t[(i+1) % (D+1)] is in the set |
| Bars.AllBarsSound | src/utils.cpp:91-101 | every pair in the set comes from an adjacent vertex pair of some row |
| Bars.BarEndpointsBelow | src/utils.cpp:94-98 | bar endpoints are vertices of the triangulation, so no new indices are invented |
| Bars.SortedUnique | src/utils.cpp:104-111 | two strictly ascending bar lists with the same members are equal, so the output depends only on the set |
| Bars.RowBarsMember | src/utils.cpp:92-100 | a bar belongs to a row's pair set exactly when it is the canonical pair at some vertex position |
| PointList.PointsPerDimension | src/utils.cpp:23-24 | the per-dimension count is at least 1, and (n-1)*h0 <= extent < n*h0 |
| PointList.GridShape | src/utils.cpp:20-26 | the counts are the per-dimension counts, and the total is their product, at least 1 |
| PointList.ProdPositive | src/utils.cpp:21-25 | a product of counts that are each at least 1 is at least 1 |
| PointList.GridIndex | src/utils.cpp:35-36 | the mixed-radix digit of dimension d lies in [0, n_d) |
| PointList.GridIndexTail | src/utils.cpp:31-39 | the digit of dimension d+1 is the digit of dimension d of p / n_0 over the remaining counts |
| PointList.GridIndexInjective | src/utils.cpp:31-39 | distinct grid point numbers have distinct index tuples |
| PointList.DigitsIndex | src/utils.cpp:35-36 | digit d of the mixed-radix expansion of p is p's grid index in dimension d |
| PointList.DigitsInjective | src/utils.cpp:31-39 | two grid numbers below the point count with the same digits are equal |
| PointList.FillGrid | src/utils.cpp:31-39 | the buffer has `max_point_count` rows, and row p is the lower corner plus h0 times p's index tuple; this is the sequence `Grid` |
| PointList.FillColumn | src/utils.cpp:33-37 | one pass of the inner loop sets coordinate `dim` of every row to its grid coordinate and keeps the others |
| PointList.GridPointInBox | src/utils.cpp:31-39 | every grid point lies inside the bounding box |
| PointList.CoordInBox | src/utils.cpp:23-36 | a grid coordinate lies in its interval when n_d - 1 steps of h0 fit in it |
| PointList.FilterExactly | src/utils.cpp:44-51 | a compaction is order-preserving, keeps a row iff it passes the test, and is never longer than its input |
| PointList.KeptAscending | src/utils.cpp:44-51 | the kept positions are below the input length and strictly ascending |
| PointList.FilterRows | src/utils.cpp:44-51 | the j-th row of a compaction is the input row at the j-th kept position |
| PointList.KeptMember | src/utils.cpp:46-49 | a position is kept iff its row passes the test |
| PointList.Compact | src/utils.cpp:44-51 | the compaction loop leaves the filtered rows at the front of the buffer, with a count no larger than the input count |
| PointList.CreatePointList | src/utils.cpp:13-81 | the result is the `Grid` filtered by the distance test `InsideTest` (distance below precision * h0) and then by the thinning test |
| PointList.CreatePointListSound | src/utils.cpp:41-51 | every sampled point has one coordinate per dimension, lies in the box and passes the distance test |
| Projection.Projected | src/utils.cpp:121-147 | projection keeps the number of rows |
| Projection.ProjectPoints | src/utils.cpp:117-148 | the row count is unchanged, a point with distance <= 0 is left alone, and an outside point takes its Newton step |
| Moves.Moved | src/distmesh.cpp:107-114 | applying the bars in order keeps the number of rows and their width |
| Moves.MoveEdges | src/distmesh.cpp:106-114 | the in-place loop leaves exactly the points of applying every bar in order |
| Moves.MovedFixed | src/distmesh.cpp:107-114 | no row with index below the fixed-point count is changed by the move loop |
| Moves.MoveOneFree | src/distmesh.cpp:108-113 | one bar's update `MoveOne` adds deltaT times its force to its first endpoint and subtracts it from its second |
| Moves.MovedFree | src/distmesh.cpp:107-114 | a free row moves by deltaT times the forces of the bars starting at it, minus those ending at it |
| Moves.ColumnSumUpdate | src/distmesh.cpp:109-112 | replacing one row changes a column sum by that row's change |
| Moves.MovedConserves | src/distmesh.cpp:107-114 | with no fixed endpoint, each coordinate sum over all points is conserved |
| Boundary.IndexOf | src/distmesh.cpp:155 | `std::find`: the first position of x, or the length when x is absent |
| Boundary.EraseFirst | src/distmesh.cpp:154-158 | in a list without duplicates, erasing the first copy found removes every copy, and a missing index leaves the list unchanged |
| Boundary.SinglesStep | src/distmesh.cpp:153-162 | a first sighting appends the edge to the boundary list; a later sighting removes it |
| Boundary.SinglesErase | src/distmesh.cpp:154-158 | erasing the first copy found gives the boundary list of the longer scan |
| Boundary.SinglesMember | src/distmesh.cpp:146-163 | an edge index is in the boundary list iff it occurs exactly once in the table |
| Boundary.SinglesNoDuplicates | src/distmesh.cpp:146-163 | the boundary list has no duplicates |
| Boundary.SinglesInOrder | src/distmesh.cpp:148-163 | the boundary list follows the order of first appearance in the row-major scan |
| Boundary.FirstSighting | src/distmesh.cpp:160-162 | pushing an unseen index keeps the seen set and the candidate list in step with the scan |
| Boundary.LaterSighting | src/distmesh.cpp:153-159 | inserting an index seen before, and erasing it from the list (`EraseFound`: the list without its first copy, or unchanged when absent), keeps the scan state |
| Boundary.ScanEntry | src/distmesh.cpp:150-162 | one entry of the scan keeps the set equal to the entries read and the list equal to their single occurrences |
| Boundary.ScanRow | src/distmesh.cpp:149-163 | one row of the scan keeps the same scan state |
| Boundary.FlattenMember | src/distmesh.cpp:148-150 | an index occurs in the scan iff some row of the table holds it |
| Boundary.FlattenTwoRows | src/distmesh.cpp:148-150 | an index held by two different rows occurs at least twice in the scan |
| Boundary.ElementOf | src/distmesh.cpp:175-176 | the located element is the first row that holds the edge |
| Boundary.ElementOfUnique | src/distmesh.cpp:175-176 | a boundary edge is held by one row only, so the element found does not depend on the search order |
| Boundary.OtherVertexFrom | src/distmesh.cpp:179-186 | the node chosen is the first vertex of the element that is on neither end of the edge, or 0 when there is none |
| Boundary.OrientEdge | src/distmesh.cpp:173-193 | an entry is negated exactly when its cross product `EdgeCross` (edge vector against the vector from the edge's second endpoint to the third vertex of its element) is negative |
| Boundary.OrientBoundary | src/distmesh.cpp:172-194 | every entry of the boundary array is replaced by its oriented form |
| Boundary.BoundEdges | src/distmesh.cpp:130-198 | the result has one entry per edge that occurs once; it is the unsigned list when the nodes are not 2-D; in 2-D each entry is the edge or its negation, negated exactly when the cross product is negative |
| Boundary.ReversedZeroIndistinguishable | src/distmesh.cpp:191-193 | a reversed edge 0 yields the entry 0, the same as an unreversed edge 0 |
| DistMesh.BoundingBox | src/distmesh.cpp:30-35 | a 2 x d box whose row 0 is all -1.0 and whose row 1 is all 1.0 |
| DistMesh.BoundingBoxIsCube | src/distmesh.cpp:30-35 | read by dimension, the default box is the valid sampling box [-1, 1]^d |
| DistMesh.CentroidSumCoord | src/distmesh.cpp:69-73 | after the loop has added some vertices of a simplex, each divided by the full vertex count (`Weight`), coordinate k of the running sum `CentroidSum` is that weight times the sum of those vertices' coordinates k (`VertexSum`) |
| DistMesh.CentroidMean | src/distmesh.cpp:68-73 | `Centroid` is the vertex mean: coordinate k is the sum of the vertices' coordinates k divided by the number of vertices |
| DistMesh.CentroidOfTriangle | src/distmesh.cpp:68-73 | the triangle (0,0), (3,0), (0,3) has its centroid at (1,1) |
| DistMesh.KeptSimplices | src/distmesh.cpp:68-75 | the kept simplices stay well shaped, all pass the centroid test (`KeepSimplex`: the distance at the vertex mean is below -geometryEvaluationThreshold * h0), and are no more than the input |
| DistMesh.KeptSimplicesMember | src/distmesh.cpp:68-75 | a simplex is kept iff it is in the triangulation and passes the centroid test `KeepSimplex` at its vertex mean |
| DistMesh.Forces | src/distmesh.cpp:99-101 | there is one force row of the point dimension per bar, row e being `BarForce` of bar e |
| DistMesh.ForcesRepulsive | src/distmesh.cpp:99-101 | each coordinate of a bar's force (`BarForce`: the edge vector times the ratio clamped at 0) has the sign of the bar's edge vector, so bars only push apart |
| DistMesh.Retriangulate | src/distmesh.cpp:65-81 | a retriangulation keeps the points, leaves a well-formed state and takes a snapshot of the points |
| DistMesh.RetriangulateMask | src/distmesh.cpp:65-78 | after a retriangulation a simplex is current iff the triangulator produced it and it passes the centroid test; a bar is current iff it is a canonical cyclic pair of a current simplex; the bars are strictly ascending |
| DistMesh.Refresh | src/distmesh.cpp:62-82 | the retriangulation branch keeps the points and well-formedness |
| DistMesh.Advance | src/distmesh.cpp:84-117 | forces, move and projection keep the point count and well-formedness |
| DistMesh.Step | src/distmesh.cpp:62-117 | one step keeps the point count and well-formedness |
| DistMesh.MaybeRetriangulate | src/distmesh.cpp:62-82 | retriangulates exactly when `NeedsRetriangulation` holds (the displacement since the snapshot exceeds retriangulationThreshold * h0, and always while the snapshot is INFINITY), otherwise keeps the state |
| DistMesh.StepInPlace | src/distmesh.cpp:62-117 | one pass on the point buffer, up to the stop test, gives the next state, with the stop buffer holding the points before the move |
| DistMesh.Iteration | src/distmesh.cpp:62-123 | one pass extends the run by one step and reports whether that step met the stop test `Converged` (the displacement of the step is below pointsMovementThreshold * h0) |
| DistMesh.RunExtend | src/distmesh.cpp:61-124 | a run extended by one step is a run |
| DistMesh.NoStopBeforeNext | src/distmesh.cpp:119-123 | a step that did not meet the stop test extends the no-earlier-stop record |
| DistMesh.Distmesh | src/distmesh.cpp:38-127 | the result is the last state of a run from `Initial` (the initial points, the INFINITY snapshot, the Delaunay triangulation of the initial points, no bars); the run has at most maxSteps steps; no step before the last met the stop test; a run shorter than maxSteps ended on a step that met it |
| DistMesh.RunWellFormed | src/distmesh.cpp:61-124 | every state of a run is well formed and has as many points as the initial one |
| DistMesh.RunDeterministic | src/distmesh.cpp:61-124 | two runs from the same initial state agree as far as both go |
| DistMesh.StepFixed | src/distmesh.cpp:106-117 | a step leaves a fixed point that is inside or on the boundary where it is |
| DistMesh.RunFixed | src/distmesh.cpp:61-124 | a fixed point that starts inside or on the boundary keeps its coordinates for the whole run |
| DistMesh.StepBarsMatch | src/distmesh.cpp:62-82 | a step starting from the INFINITY snapshot or from matching bars ends with bars that match its simplices |
| DistMesh.RunBarsMatch | src/distmesh.cpp:61-124 | from the first step on, the bars are always the unique bars of the current simplices |
| DistMesh.FirstStepRetriangulates | src/distmesh.cpp:54-82 | the first step retriangulates: its snapshot is the initial points, and its simplices are the masked Delaunay simplices |

## Left out

- Floating point: coordinates are exact reals. Rounding, `sqrt`, `pow`, the
  `INFINITY` constant and NaN are not modelled. The INFINITY-filled
  retriangulation buffer is `None`, and it always triggers a retriangulation.
- The force law is not modelled. This covers the edge lengths, the desired
  lengths from `elementSizeFunction` and the density scale with `pow`
  (src/distmesh.cpp:84-97). It is the parameter `ratio(points, bars, e)`,
  standing for `(desired - length) / length`. Its clamping at 0 and the
  multiplication by the edge vector are modelled.
- The finite-difference gradient and the Newton step of
  `project_points_to_function` (src/utils.cpp:132-144) are not modelled. They
  are the parameter `newton`, assumed to keep the dimension.
- The displacement norm `(a - b).square().rowwise().sum().sqrt().maxCoeff()` is
  the parameter `displacement`. Its value on an empty point array, which is
  undefined in Eigen, is therefore not modelled.
- `triangulation::delaunay` is an input. It is assumed to return rows of
  `dim + 1` valid indices (see `ValidNumerics`).
- `utils::findUniqueEdges`, `getTriangulationEdgeIndices`,
  `selectIndexedArrayElements`, `selectMaskedArrayElements`,
  `utils::createInitialPoints` and `utils::projectPointsToBoundary` are not part
  of this model. In the main loop they stand in as follows:
  - `findUniqueEdges` is `Bars.FindUniqueBars`;
  - `projectPointsToBoundary` is `Projection.ProjectPoints`;
  - the initial points are an input;
  - the centroid mask is `KeptSimplices`.
- The `externalEdges` choice of `boundEdges` (src/distmesh.cpp:133-140) is not
  modelled, and neither is the edge-index table. `BoundEdges` takes `edges` and
  the table `edgeIndices` as inputs. Its `dim` argument stands for
  `nodes.cols()`; every row of `nodes` is required to have `dim` entries.
- The random thinning of `create_point_list` (src/utils.cpp:53-77) is the keep
  predicate `thin(i, x)`. This predicate stands for "the i-th draw of the
  default engine is below `(min size / size(x))^D`". The engine, the
  probability array and its `minCoeff` are not modelled.
- The `outside.any()` shortcut (src/utils.cpp:129) is not modelled, because it
  changes nothing: when no point is outside, the loop moves no point either.
- `include/distmesh/constants.h` is not part of this model. `maxSteps`,
  `deltaT`, the three thresholds and the sampling precision are fields of
  `Config` or parameters.
- Index width: point, bar and edge indices are unbounded integers. Overflow of
  `max_point_count` or of `dtype::index` is not modelled.
- PointList.CreatePointList: requires `h0 > 0` and a box with `lo <= hi` in
  every dimension. The code does not check these, and it divides by `h0`.
- DistMesh.StepFixed: a fixed point is unchanged across a step only when its
  distance is at most 0. The move loop never touches fixed rows
  (`Moves.MovedFixed`). The projection, however, also moves a fixed point
  that lies outside the domain, so the property "fixed points never move"
  holds in the code only for fixed points inside or on the boundary.
- DistMesh.RunFixed: for the same reason, a fixed point is shown to keep its
  coordinates for a whole run only when it starts inside or on the boundary.
- DistMesh.Distmesh: the fixed points enter only through their count
  `fixedCount`. They are assumed to be the first rows of the initial points,
  which `createInitialPoints` would produce.
- The 2-D sign flip cannot mark edge 0 as reversed, because `-0 == 0`.
  `Boundary.ReversedZeroIndistinguishable` exhibits this. The model keeps the
  signed `ArrayXi` result of `boundEdges` (src/distmesh.cpp:129, 192).
- Boundary.ElementOf: Eigen's `minCoeff` scans the table column by column,
  while the model takes the first row that holds the edge. For a boundary
  edge, which occurs exactly once, both find the same element
  (`Boundary.ElementOfUnique`).
