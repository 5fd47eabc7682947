/** Initial point sampling: `distmesh::utils::create_point_list`.
    A regular grid of spacing `h0` is laid over the bounding box (mixed-radix
    numbering of the grid points, dimension 0 fastest), the grid points that
    fail the distance test are dropped by one compaction, and the survivors
    are thinned by a second compaction driven by the random keep test. */
module PointList {
  import opened Vectors

  /** One row of `bounding_box`: the minimum and maximum of one dimension. */
  datatype Interval = Interval(lo: real, hi: real)

  /** Every dimension of the box has a nonnegative extent. */
  predicate ValidBox(box: seq<Interval>) {
    forall d :: 0 <= d < |box| ==> box[d].lo <= box[d].hi
  }

  /** The product of a sequence of counts. */
  function Prod(s: seq<int>): int {
    if s == [] then 1 else s[0] * Prod(s[1..])
  }

  /** Every count is at least one. */
  predicate Positive(s: seq<int>) {
    forall d :: 0 <= d < |s| ==> s[d] >= 1
  }

  lemma {:induction false} ProdPositive(s: seq<int>)
    requires Positive(s)
    ensures Prod(s) >= 1
  {
    if s != [] {
      ProdPositive(s[1..]);
      assert s[0] * Prod(s[1..]) >= 1 * Prod(s[1..]);
    }
  }

  lemma {:induction false} ProdSnoc(s: seq<int>, x: int)
    ensures Prod(s + [x]) == Prod(s) * x
  {
    if s != [] {
      assert (s + [x])[1..] == s[1..] + [x];
      ProdSnoc(s[1..], x);
    } else {
      assert s + [x] == [x];
    }
  }

  /** `max_points_per_dimension(dim)`: one more than the number of whole
      steps of `h0` that fit in the extent, truncated to an index. */
  function PointsPerDimension(iv: Interval, h0: real): (n: int)
    requires h0 > 0.0 && iv.lo <= iv.hi
    ensures n >= 1
    ensures (n - 1) as real * h0 <= iv.hi - iv.lo
    ensures iv.hi - iv.lo < n as real * h0
  {
    var x := 1.0 + (iv.hi - iv.lo) / h0;
    var n := x.Floor;
    assert (n - 1) as real <= (iv.hi - iv.lo) / h0 < n as real;
    MulDivBounds((n - 1) as real, n as real, iv.hi - iv.lo, h0);
    n
  }

  /** Clearing the division `e / h` in two bounds on it. */
  lemma MulDivBounds(a: real, b: real, e: real, h: real)
    requires h > 0.0 && a <= e / h < b
    ensures a * h <= e < b * h
  {
    assert e == (e / h) * h;
  }

  /** The per-dimension counts of the grid over `box`. */
  function Counts(box: seq<Interval>, h0: real): (c: seq<int>)
    requires h0 > 0.0 && ValidBox(box)
    ensures |c| == |box| && Positive(c)
  {
    seq(|box|, d requires 0 <= d < |box| => PointsPerDimension(box[d], h0))
  }

  /** Mixed-radix digit `d` of grid point `p`: its grid index in dimension `d`. */
  function GridIndex(counts: seq<int>, p: nat, d: nat): (r: int)
    requires Positive(counts) && d < |counts|
    ensures 0 <= r < counts[d]
  {
    ProdPositive(counts[..d]);
    (p / Prod(counts[..d])) % counts[d]
  }

  /** Coordinate `d` of grid point `p`: the lower bound plus `h0` times its digit. */
  function Coord(box: seq<Interval>, h0: real, counts: seq<int>, p: nat, d: nat): real
    requires |counts| == |box| && Positive(counts) && d < |box|
  {
    box[d].lo + h0 * GridIndex(counts, p, d) as real
  }

  /** Coordinates of grid point `p`. */
  function GridPoint(box: seq<Interval>, h0: real, counts: seq<int>, p: nat): (x: Point)
    requires |counts| == |box| && Positive(counts)
    ensures |x| == |box|
    ensures forall d :: 0 <= d < |box| ==> x[d] == Coord(box, h0, counts, p, d)
  {
    seq(|box|, d requires 0 <= d < |box| => Coord(box, h0, counts, p, d))
  }

  /** The whole grid, point by point: the contents of `initial_points`. */
  function Grid(box: seq<Interval>, h0: real): (g: seq<Point>)
    requires h0 > 0.0 && ValidBox(box)
    ensures |g| == Prod(Counts(box, h0))
  {
    var counts := Counts(box, h0);
    ProdPositive(counts);
    seq(Prod(counts), p requires 0 <= p < Prod(counts) => GridPoint(box, h0, counts, p))
  }

  /** `(p / a) / b == p / (a * b)` for positive divisors. */
  lemma DivDiv(p: nat, a: int, b: int)
    requires a >= 1 && b >= 1
    ensures p / a / b == p / (a * b)
  {
    var q, r := p / a, p % a;
    var q2, r2 := q / b, q % b;
    assert p == a * q + r;
    assert q == b * q2 + r2;
    MulAdd(a, b * q2, r2);
    MulAssoc(a, b, q2);
    assert p == (a * b) * q2 + (a * r2 + r);
    MulMono(a, r2, b - 1);
    MulAdd(a, b - 1, 1);
    assert 0 <= a * r2 + r < a * b;
    DivUnique(p, a * b, q2, a * r2 + r);
  }

  lemma MulAdd(a: int, x: int, y: int)
    ensures a * (x + y) == a * x + a * y
  {
  }

  lemma MulAssoc(a: int, b: int, c: int)
    ensures a * (b * c) == (a * b) * c
  {
  }

  lemma MulMono(a: int, x: int, y: int)
    requires a >= 0 && 0 <= x <= y
    ensures 0 <= a * x <= a * y
  {
    MulAdd(a, x, y - x);
  }

  /** Euclidean division is unique. */
  lemma DivUnique(p: nat, m: int, q: int, r: int)
    requires m >= 1 && p == m * q + r && 0 <= r < m
    ensures p / m == q
  {
    var q0, r0 := p / m, p % m;
    assert p == m * q0 + r0;
    MulAdd(m, q0, q - q0);
    assert m * (q - q0) == r0 - r;
    if q > q0 {
      MulMono(m, 1, q - q0);
    } else if q < q0 {
      MulAdd(m, q, q0 - q);
      MulMono(m, 1, q0 - q);
    }
  }

  /** Dropping the first dimension shifts the digits by one. */
  lemma GridIndexTail(counts: seq<int>, p: nat, d: nat)
    requires Positive(counts) && d + 1 < |counts|
    ensures GridIndex(counts, p, d + 1) == GridIndex(counts[1..], p / counts[0], d)
  {
    assert counts[..d + 1] == [counts[0]] + counts[1..][..d];
    assert Prod(counts[..d + 1]) == counts[0] * Prod(counts[1..][..d]);
    ProdPositive(counts[1..][..d]);
    DivDiv(p, counts[0], Prod(counts[1..][..d]));
  }

  /** Distinct grid points have distinct index tuples: the numbering is a bijection
      between `[0, Prod(counts))` and the index tuples. */
  lemma GridIndexInjective(counts: seq<int>, p: nat, q: nat)
    requires Positive(counts)
    requires p < Prod(counts) && q < Prod(counts)
    requires forall d :: 0 <= d < |counts| ==> GridIndex(counts, p, d) == GridIndex(counts, q, d)
    ensures p == q
  {
    forall d | 0 <= d < |counts|
      ensures Digits(counts, p)[d] == Digits(counts, q)[d]
    {
      DigitsIndex(counts, p, d);
      DigitsIndex(counts, q, d);
    }
    DigitsInjective(counts, p, q);
  }

  /** The index tuple of `p`, digit by digit: the remainder by the first count,
      then the digits of the quotient over the remaining counts. */
  function Digits(counts: seq<int>, p: nat): (ds: seq<int>)
    requires Positive(counts)
    ensures |ds| == |counts|
  {
    if counts == [] then [] else [p % counts[0]] + Digits(counts[1..], p / counts[0])
  }

  /** Digit `d` of the tuple is the grid index of dimension `d`. */
  lemma {:induction false} DigitsIndex(counts: seq<int>, p: nat, d: nat)
    requires Positive(counts) && d < |counts|
    ensures Digits(counts, p)[d] == GridIndex(counts, p, d)
  {
    if d == 0 {
      assert counts[..0] == [];
    } else {
      DigitsIndex(counts[1..], p / counts[0], d - 1);
      GridIndexTail(counts, p, d - 1);
    }
  }

  /** Numbers of the grid with the same tuple are equal. */
  lemma {:induction false} DigitsInjective(counts: seq<int>, p: nat, q: nat)
    requires Positive(counts) && p < Prod(counts) && q < Prod(counts)
    requires forall d :: 0 <= d < |counts| ==> Digits(counts, p)[d] == Digits(counts, q)[d]
    ensures p == q
  {
    if counts != [] {
      var c, tail := counts[0], counts[1..];
      var tp, tq := Digits(tail, p / c), Digits(tail, q / c);
      assert Digits(counts, p) == [p % c] + tp && Digits(counts, q) == [q % c] + tq;
      assert p % c == q % c by {
        assert Digits(counts, p)[0] == Digits(counts, q)[0];
      }
      forall d | 0 <= d < |tail|
        ensures tp[d] == tq[d]
      {
        assert Digits(counts, p)[d + 1] == Digits(counts, q)[d + 1];
      }
      TailInRange(counts, p);
      TailInRange(counts, q);
      DigitsInjective(tail, p / c, q / c);
      SameQuotientRemainder(p, q, c);
    }
  }

  /** Dividing by the first count leaves a number of the remaining grid. */
  lemma TailInRange(counts: seq<int>, p: nat)
    requires Positive(counts) && |counts| >= 1 && p < Prod(counts)
    ensures Positive(counts[1..]) && p / counts[0] < Prod(counts[1..])
  {
    ProdPositive(counts[1..]);
    DivBelow(p, counts[0], Prod(counts[1..]));
  }

  /** Quotient and remainder determine the dividend. */
  lemma SameQuotientRemainder(p: nat, q: nat, c: int)
    requires c >= 1 && p / c == q / c && p % c == q % c
    ensures p == q
  {
    assert p == c * (p / c) + p % c;
    assert q == c * (q / c) + q % c;
  }

  lemma DivBelow(p: nat, c: int, m: int)
    requires c >= 1 && m >= 1 && p < c * m
    ensures p / c < m
  {
    assert c * (p / c) <= p;
    if p / c >= m {
      MulMono(c, m, p / c);
    }
  }

  /** Every grid point lies inside the bounding box. */
  lemma GridPointInBox(box: seq<Interval>, h0: real, p: nat, d: nat)
    requires h0 > 0.0 && ValidBox(box) && d < |box|
    ensures box[d].lo <= GridPoint(box, h0, Counts(box, h0), p)[d] <= box[d].hi
  {
    var counts := Counts(box, h0);
    assert counts[d] == PointsPerDimension(box[d], h0);
    CoordInBox(box, h0, counts, p, d);
  }

  /** A coordinate lies in its interval when `counts[d] - 1` steps fit in it. */
  lemma CoordInBox(box: seq<Interval>, h0: real, counts: seq<int>, p: nat, d: nat)
    requires h0 > 0.0 && |counts| == |box| && Positive(counts) && d < |box|
    requires (counts[d] - 1) as real * h0 <= box[d].hi - box[d].lo
    ensures box[d].lo <= Coord(box, h0, counts, p, d) <= box[d].hi
  {
    var g := GridIndex(counts, p, d);
    InBand(box[d].lo, box[d].hi, h0, g as real, (counts[d] - 1) as real);
  }

  /** A step of at most `m` multiples of `h` from `lo` stays below `hi` when
      `m` multiples fit in the extent. */
  lemma InBand(lo: real, hi: real, h: real, x: real, m: real)
    requires h > 0.0 && 0.0 <= x <= m && m * h <= hi - lo
    ensures lo <= lo + h * x <= hi
  {
    assert h * m - h * x == h * (m - x);
    assert h * (m - x) >= 0.0;
  }

  // ---- compaction ----

  /** The rows of `s` whose position and value pass `keep`, in their original order. */
  function Filter(s: seq<Point>, keep: (nat, Point) -> bool): seq<Point> {
    if s == [] then []
    else Filter(s[..|s| - 1], keep) + (if keep(|s| - 1, s[|s| - 1]) then [s[|s| - 1]] else [])
  }

  /** The positions of the rows of `s` that pass `keep`, in ascending order. */
  function Kept(s: seq<Point>, keep: (nat, Point) -> bool): seq<nat> {
    if s == [] then []
    else Kept(s[..|s| - 1], keep) + (if keep(|s| - 1, s[|s| - 1]) then [|s| - 1] else [])
  }

  /** A compaction keeps exactly the passing rows, in order: its `j`-th row is
      row `Kept(s)[j]` of the input, the positions ascend, and a position is kept
      iff its row passes. The result is never longer than the input. */
  lemma FilterExactly(s: seq<Point>, keep: (nat, Point) -> bool)
    ensures |Filter(s, keep)| == |Kept(s, keep)| <= |s|
    ensures forall j :: 0 <= j < |Kept(s, keep)| ==>
      Kept(s, keep)[j] < |s| && Filter(s, keep)[j] == s[Kept(s, keep)[j]]
    ensures forall i, j :: 0 <= i < j < |Kept(s, keep)| ==> Kept(s, keep)[i] < Kept(s, keep)[j]
    ensures forall i :: 0 <= i < |s| ==> (i in Kept(s, keep) <==> keep(i, s[i]))
  {
    KeptAscending(s, keep);
    FilterRows(s, keep);
    KeptMember(s, keep);
  }

  /** The kept positions are below `|s|` and strictly ascending. */
  lemma {:induction false} KeptAscending(s: seq<Point>, keep: (nat, Point) -> bool)
    ensures |Kept(s, keep)| <= |s|
    ensures forall j :: 0 <= j < |Kept(s, keep)| ==> Kept(s, keep)[j] < |s|
    ensures forall i, j :: 0 <= i < j < |Kept(s, keep)| ==> Kept(s, keep)[i] < Kept(s, keep)[j]
  {
    if s != [] {
      var init := s[..|s| - 1];
      KeptAscending(init, keep);
    }
  }

  /** The `j`-th kept row is the row at the `j`-th kept position. */
  lemma {:induction false} FilterRows(s: seq<Point>, keep: (nat, Point) -> bool)
    ensures |Filter(s, keep)| == |Kept(s, keep)|
    ensures forall j :: 0 <= j < |Kept(s, keep)| ==>
      Kept(s, keep)[j] < |s| && Filter(s, keep)[j] == s[Kept(s, keep)[j]]
  {
    if s != [] {
      var init := s[..|s| - 1];
      FilterRows(init, keep);
      var k0, f0 := Kept(init, keep), Filter(init, keep);
      var k, f := Kept(s, keep), Filter(s, keep);
      forall j | 0 <= j < |k|
        ensures k[j] < |s| && f[j] == s[k[j]]
      {
        if j < |k0| {
          assert k[j] == k0[j] && f[j] == f0[j];
          assert init[k0[j]] == s[k0[j]];
        }
      }
    }
  }

  /** A position is kept iff its row passes the test. */
  lemma {:induction false} KeptMember(s: seq<Point>, keep: (nat, Point) -> bool)
    ensures forall i :: 0 <= i < |s| ==> (i in Kept(s, keep) <==> keep(i, s[i]))
  {
    if s != [] {
      var init := s[..|s| - 1];
      KeptMember(init, keep);
      KeptAscending(init, keep);
      forall i | 0 <= i < |s|
        ensures i in Kept(s, keep) <==> keep(i, s[i])
      {
        if i < |init| {
          assert init[i] == s[i];
        }
      }
    }
  }

  /** The compaction loop of `create_point_list`: the rows `src[..n]` that pass
      `keep` are copied to the front of a fresh `n`-row buffer; `count` rows are used. */
  method Compact(src: array<Point>, n: nat, keep: (nat, Point) -> bool)
    returns (dst: array<Point>, count: nat)
    requires n <= src.Length
    ensures dst.Length == n && count <= n
    ensures dst[..count] == Filter(src[..n], keep)
  {
    dst := new Point[n];
    count := 0;
    var point := 0;
    while point < n
      invariant 0 <= point <= n
      invariant count <= point
      invariant dst[..count] == Filter(src[..point], keep)
    {
      assert src[..point + 1][..point] == src[..point];
      if keep(point, src[point]) {
        dst[count] := src[point];
        assert dst[..count + 1] == dst[..count] + [src[point]];
        count := count + 1;
      }
      point := point + 1;
    }
  }

  // ---- the grid ----

  /** The first loop: per-dimension counts and their product. */
  method GridShape(box: seq<Interval>, h0: real) returns (counts: seq<int>, total: int)
    requires h0 > 0.0 && ValidBox(box)
    ensures counts == Counts(box, h0)
    ensures total == Prod(counts) && total >= 1
  {
    var perDimension := new int[|box|];
    total := 1;
    var dim := 0;
    while dim < |box|
      invariant 0 <= dim <= |box|
      invariant perDimension[..dim] == Counts(box, h0)[..dim]
      invariant total == Prod(perDimension[..dim])
    {
      perDimension[dim] := (1.0 + (box[dim].hi - box[dim].lo) / h0).Floor;
      assert perDimension[..dim + 1] == perDimension[..dim] + [perDimension[dim]];
      ProdSnoc(perDimension[..dim], perDimension[dim]);
      total := total * perDimension[dim];
      dim := dim + 1;
    }
    counts := perDimension[..];
    assert perDimension[..] == perDimension[..dim];
    ProdPositive(counts);
  }

  /** The second loop: column by column, `initial_points(point, dim)` is the
      lower bound plus `h0` times the point's mixed-radix digit `dim`. */
  method FillGrid(box: seq<Interval>, h0: real, counts: seq<int>, total: nat)
    returns (initial: array<Point>)
    requires |counts| == |box| && Positive(counts) && total == Prod(counts)
    ensures initial.Length == total
    ensures forall p :: 0 <= p < total ==> initial[p] == GridPoint(box, h0, counts, p)
  {
    var dims := |box|;
    initial := new Point[total](_ => seq(dims, _ => 0.0));
    var sameValueCount := 1;
    var dim := 0;
    while dim < dims
      invariant 0 <= dim <= dims && initial.Length == total
      invariant sameValueCount == Prod(counts[..dim])
      invariant forall p :: 0 <= p < total ==> |initial[p]| == dims
      invariant forall p, d :: 0 <= p < total && 0 <= d < dim ==>
        initial[p][d] == Coord(box, h0, counts, p, d)
    {
      FillColumn(box, h0, counts, initial, dim, sameValueCount);
      assert counts[..dim + 1] == counts[..dim] + [counts[dim]];
      ProdSnoc(counts[..dim], counts[dim]);
      sameValueCount := sameValueCount * counts[dim];
      dim := dim + 1;
    }
    forall p | 0 <= p < total
      ensures initial[p] == GridPoint(box, h0, counts, p)
    {
      assert forall d :: 0 <= d < dims ==> initial[p][d] == GridPoint(box, h0, counts, p)[d];
    }
  }

  /** One column of the second loop: coordinate `dim` of every row is set to
      the grid coordinate, the other coordinates are kept. */
  method FillColumn(box: seq<Interval>, h0: real, counts: seq<int>, initial: array<Point>,
                    dim: nat, sameValueCount: int)
    requires |counts| == |box| && Positive(counts) && dim < |box|
    requires sameValueCount == Prod(counts[..dim])
    requires forall p :: 0 <= p < initial.Length ==> |initial[p]| == |box|
    modifies initial
    ensures forall p :: 0 <= p < initial.Length ==>
      initial[p] == old(initial[p])[dim := Coord(box, h0, counts, p, dim)]
  {
    ProdPositive(counts[..dim]);
    ghost var before := initial[..];
    var point := 0;
    while point < initial.Length
      invariant 0 <= point <= initial.Length
      invariant forall p :: 0 <= p < point ==> initial[p] == before[p][dim := Coord(box, h0, counts, p, dim)]
      invariant forall p :: point <= p < initial.Length ==> initial[p] == before[p]
    {
      var v := box[dim].lo + h0 * ((point / sameValueCount) % counts[dim]) as real;
      assert v == Coord(box, h0, counts, point, dim);
      initial[point] := initial[point][dim := v];
      point := point + 1;
    }
  }

  /** The distance test: a grid point is kept when its distance is below the tolerance band. */
  function InsideTest(dist: Point -> real, band: real): (nat, Point) -> bool {
    (i: nat, x: Point) => dist(x) < band
  }

  /** `create_point_list`: the grid points that pass the distance test and then
      the keep test of the thinning step, in grid order. `thin(i, x)` stands for
      "the `i`-th random draw is below `(min size / size(x)) ^ dim`". */
  method CreatePointList(dist: Point -> real, thin: (nat, Point) -> bool,
                         h0: real, precision: real, box: seq<Interval>)
    returns (points: seq<Point>)
    requires h0 > 0.0 && ValidBox(box)
    ensures points == Filter(Filter(Grid(box, h0), InsideTest(dist, precision * h0)), thin)
  {
    var counts, total := GridShape(box, h0);
    var initial := FillGrid(box, h0, counts, total);
    assert initial[..] == Grid(box, h0);

    // reject points outside of the region
    var inside, insideCount := Compact(initial, initial.Length, InsideTest(dist, precision * h0));
    assert initial[..initial.Length] == initial[..];

    // reject points by the random thinning test
    var final, finalCount := Compact(inside, insideCount, thin);
    points := final[..finalCount];
  }

  /** Every sampled point has one coordinate per dimension, lies in the bounding
      box and passes the distance test. */
  lemma CreatePointListSound(dist: Point -> real, thin: (nat, Point) -> bool,
                             h0: real, precision: real, box: seq<Interval>, x: Point)
    requires h0 > 0.0 && ValidBox(box)
    requires x in Filter(Filter(Grid(box, h0), InsideTest(dist, precision * h0)), thin)
    ensures |x| == |box|
    ensures forall d :: 0 <= d < |box| ==> box[d].lo <= x[d] <= box[d].hi
    ensures dist(x) < precision * h0
  {
    var g := Grid(box, h0);
    var inside := Filter(g, InsideTest(dist, precision * h0));
    FilterExactly(inside, thin);
    var j :| 0 <= j < |Filter(inside, thin)| && Filter(inside, thin)[j] == x;
    var i := Kept(inside, thin)[j];
    FilterExactly(g, InsideTest(dist, precision * h0));
    var p := Kept(g, InsideTest(dist, precision * h0))[i];
    assert x == g[p];
    assert p in Kept(g, InsideTest(dist, precision * h0));
    assert InsideTest(dist, precision * h0)(p, g[p]);
    forall d | 0 <= d < |box|
      ensures box[d].lo <= x[d] <= box[d].hi
    {
      GridPointInBox(box, h0, p, d);
    }
  }
}
