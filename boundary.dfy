/** Boundary-edge detection: `distmesh::boundEdges`.
    The simplex-to-edge table is scanned row by row; an edge index is appended
    to the candidate list the first time it is seen and erased from the list
    the next time, so the edges left are those that occur exactly once. In 2-D
    each boundary edge whose triangle lies on the wrong side is negated. */
module Boundary {
  import opened Vectors

  // ---- the scan order and occurrence counts ----

  /** Row-major concatenation of a table. */
  function Flatten(tb: seq<seq<int>>): seq<int> {
    if tb == [] then [] else Flatten(tb[..|tb| - 1]) + tb[|tb| - 1]
  }

  /** No entry appears twice. */
  predicate NoDuplicates(s: seq<int>) {
    forall i, j :: 0 <= i < j < |s| ==> s[i] != s[j]
  }

  /** `std::find`: the position of the first `x` in `v`, or `|v|` when absent. */
  function IndexOf(v: seq<int>, x: int): (i: nat)
    ensures i <= |v|
    ensures i < |v| ==> v[i] == x
    ensures forall j :: 0 <= j < i ==> v[j] != x
    ensures i == |v| <==> x !in v
  {
    if v == [] then 0 else if v[0] == x then 0 else 1 + IndexOf(v[1..], x)
  }

  /** The entries of `t` that occur exactly once in `s`, in the order of `t`. */
  function SinglesIn(t: seq<int>, s: seq<int>): seq<int> {
    if t == [] then []
    else SinglesIn(t[..|t| - 1], s) + (if multiset(s)[t[|t| - 1]] == 1 then [t[|t| - 1]] else [])
  }

  /** The entries that occur exactly once in `s`, in scan order: the boundary edges. */
  function Singles(s: seq<int>): seq<int> {
    SinglesIn(s, s)
  }

  /** `v` without any `x`. */
  function RemoveAll(v: seq<int>, x: int): seq<int> {
    if v == [] then []
    else RemoveAll(v[..|v| - 1], x) + (if v[|v| - 1] == x then [] else [v[|v| - 1]])
  }

  lemma {:induction false} RemoveAllMember(v: seq<int>, x: int, y: int)
    ensures y in RemoveAll(v, x) <==> y in v && y != x
  {
    if v != [] {
      RemoveAllMember(v[..|v| - 1], x, y);
      assert v == v[..|v| - 1] + [v[|v| - 1]];
    }
  }

  lemma {:induction false} RemoveAllAbsent(v: seq<int>, x: int)
    requires x !in v
    ensures RemoveAll(v, x) == v
  {
    if v != [] {
      assert v[|v| - 1] != x;
      assert x !in v[..|v| - 1];
      RemoveAllAbsent(v[..|v| - 1], x);
      assert v == v[..|v| - 1] + [v[|v| - 1]];
    }
  }

  lemma {:induction false} RemoveAllNoDuplicates(v: seq<int>, x: int)
    requires NoDuplicates(v)
    ensures NoDuplicates(RemoveAll(v, x))
  {
    if v != [] {
      var w := v[..|v| - 1];
      var y := v[|v| - 1];
      assert NoDuplicates(w);
      RemoveAllNoDuplicates(w, x);
      RemoveAllMember(w, x, y);
      assert y !in w;
    }
  }

  /** Removing `x` distributes over concatenation. */
  lemma {:induction false} RemoveAllConcat(a: seq<int>, b: seq<int>, x: int)
    ensures RemoveAll(a + b, x) == RemoveAll(a, x) + RemoveAll(b, x)
    decreases |b|
  {
    if b != [] {
      var n := |b| - 1;
      assert (a + b)[..|a + b| - 1] == a + b[..n];
      assert (a + b)[|a + b| - 1] == b[n];
      assert b == b[..n] + [b[n]];
      RemoveAllConcat(a, b[..n], x);
    } else {
      assert a + b == a;
    }
  }

  /** In a list without duplicates an entry does not occur after its position. */
  lemma {:induction false} NotAfter(v: seq<int>, i: nat)
    requires NoDuplicates(v) && i < |v|
    ensures v[i] !in v[i + 1..]
  {
    forall j | i + 1 <= j < |v| ensures v[j] != v[i] { }
  }

  /** Removing the one `x` between two `x`-free pieces leaves the pieces. */
  lemma RemoveAllMiddle(a: seq<int>, x: int, b: seq<int>)
    requires x !in a && x !in b
    ensures RemoveAll((a + [x]) + b, x) == a + b
  {
    calc {
      RemoveAll((a + [x]) + b, x);
      { RemoveAllConcat(a + [x], b, x); }
      RemoveAll(a + [x], x) + RemoveAll(b, x);
      { RemoveAllConcat(a, [x], x); assert RemoveAll([x], x) == [] by { assert [x][..0] == []; } }
      RemoveAll(a, x) + RemoveAll(b, x);
      { RemoveAllAbsent(a, x); RemoveAllAbsent(b, x); }
      a + b;
    }
  }

  /** Erasing the first `x` found (`find` then `erase`) removes every `x` from a
      list without duplicates. */
  lemma {:induction false} EraseFirst(v: seq<int>, x: int)
    requires NoDuplicates(v)
    ensures IndexOf(v, x) < |v| ==> v[..IndexOf(v, x)] + v[IndexOf(v, x) + 1..] == RemoveAll(v, x)
    ensures IndexOf(v, x) == |v| ==> v == RemoveAll(v, x)
  {
    var i := IndexOf(v, x);
    if i < |v| {
      assert v == (v[..i] + [x]) + v[i + 1..];
      NotAfter(v, i);
      RemoveAllMiddle(v[..i], x, v[i + 1..]);
    } else {
      RemoveAllAbsent(v, x);
    }
  }

  /** An entry is kept iff it is in `t` and occurs exactly once in `s`. */
  lemma {:induction false} SinglesInMember(t: seq<int>, s: seq<int>, x: int)
    ensures x in SinglesIn(t, s) <==> x in t && multiset(s)[x] == 1
  {
    if t != [] {
      SinglesInMember(t[..|t| - 1], s, x);
      assert t == t[..|t| - 1] + [t[|t| - 1]];
    }
  }

  /** Appending an `x` that `t` does not hold changes nothing for `t`'s entries. */
  lemma {:induction false} SinglesInFresh(t: seq<int>, s: seq<int>, x: int)
    requires x !in t
    ensures SinglesIn(t, s + [x]) == SinglesIn(t, s)
  {
    if t != [] {
      var y := t[|t| - 1];
      assert y != x;
      assert multiset(s + [x])[y] == multiset(s)[y];
      assert x !in t[..|t| - 1];
      SinglesInFresh(t[..|t| - 1], s, x);
    }
  }

  lemma RemoveAllSnoc(p: seq<int>, y: int, x: int)
    ensures RemoveAll(p + [y], x) == RemoveAll(p, x) + (if y == x then [] else [y])
  {
    assert (p + [y])[..|p|] == p;
  }

  /** Appending an `x` already in `s` makes `x` a repeated entry. */
  lemma {:induction false} SinglesInRepeat(t: seq<int>, s: seq<int>, x: int)
    requires x in s
    ensures SinglesIn(t, s + [x]) == RemoveAll(SinglesIn(t, s), x)
  {
    if t != [] {
      var w := t[..|t| - 1];
      var y := t[|t| - 1];
      SinglesInRepeat(w, s, x);
      var prev := SinglesIn(w, s);
      var kept := multiset(s)[y] == 1;
      assert SinglesIn(t, s) == prev + (if kept then [y] else []);
      assert multiset(s + [x]) == multiset(s) + multiset{x};
      if y == x {
        assert multiset(s + [x])[y] != 1;
        assert SinglesIn(t, s + [x]) == SinglesIn(w, s + [x]);
        if kept {
          RemoveAllSnoc(prev, y, x);
        } else {
          assert prev + [] == prev;
        }
      } else {
        assert multiset(s + [x])[y] == multiset(s)[y];
        if kept {
          RemoveAllSnoc(prev, y, x);
        } else {
          assert prev + [] == prev;
        }
      }
    }
  }

  /** One step of the scan: a first sighting is appended, a later sighting erased. */
  lemma SinglesStep(s: seq<int>, x: int)
    ensures x !in s ==> Singles(s + [x]) == Singles(s) + [x]
    ensures x in s ==> Singles(s + [x]) == RemoveAll(Singles(s), x)
  {
    var s1 := s + [x];
    assert s1[..|s1| - 1] == s;
    assert Singles(s1) == SinglesIn(s, s1) + (if multiset(s1)[x] == 1 then [x] else []);
    if x !in s {
      assert multiset(s)[x] == 0;
      SinglesInFresh(s, s, x);
    } else {
      assert multiset(s)[x] >= 1;
      SinglesInRepeat(s, s, x);
    }
  }

  /** A later sighting: erasing the first copy found gives the new boundary list. */
  lemma SinglesErase(s: seq<int>, x: int)
    requires x in s
    ensures var v := Singles(s);
      (IndexOf(v, x) < |v| ==> v[..IndexOf(v, x)] + v[IndexOf(v, x) + 1..] == Singles(s + [x])) &&
      (IndexOf(v, x) == |v| ==> v == Singles(s + [x]))
  {
    SinglesStep(s, x);
    SinglesNoDuplicates(s);
    EraseFirst(Singles(s), x);
  }

  /** An edge index is a boundary edge iff it occurs exactly once in the table. */
  lemma SinglesMember(s: seq<int>, x: int)
    ensures x in Singles(s) <==> multiset(s)[x] == 1
  {
    SinglesInMember(s, s, x);
  }

  /** The boundary list has no duplicates. */
  lemma {:induction false} SinglesNoDuplicates(s: seq<int>)
    ensures NoDuplicates(Singles(s))
  {
    if s != [] {
      var w := s[..|s| - 1];
      var x := s[|s| - 1];
      assert s == w + [x];
      SinglesNoDuplicates(w);
      SinglesStep(w, x);
      if x !in w {
        SinglesInMember(w, w, x);
      } else {
        RemoveAllNoDuplicates(Singles(w), x);
      }
    }
  }

  /** Two equal entries at different positions make a repeated entry. */
  lemma TwoPositions(s: seq<int>, i: nat, j: nat)
    requires i < j < |s| && s[i] == s[j]
    ensures multiset(s)[s[i]] >= 2
  {
    assert s == s[..j] + s[j..];
    assert s[i] in s[..j];
    assert s[j] in s[j..];
  }

  /** The boundary list follows the order of first appearance in the scan. */
  lemma {:induction false} SinglesInOrder(s: seq<int>, n: nat)
    requires n <= |s|
    ensures forall i :: 0 <= i < |SinglesIn(s[..n], s)| ==> IndexOf(s, SinglesIn(s[..n], s)[i]) < n
    ensures forall i, j :: 0 <= i < j < |SinglesIn(s[..n], s)| ==>
      IndexOf(s, SinglesIn(s[..n], s)[i]) < IndexOf(s, SinglesIn(s[..n], s)[j])
  {
    if n > 0 {
      assert s[..n][..n - 1] == s[..n - 1];
      SinglesInOrder(s, n - 1);
      var prev := SinglesIn(s[..n - 1], s);
      var x := s[n - 1];
      var r := SinglesIn(s[..n], s);
      assert r == prev + (if multiset(s)[x] == 1 then [x] else []);
      if multiset(s)[x] == 1 {
        var k := IndexOf(s, x);
        if k < n - 1 {
          TwoPositions(s, k, n - 1);
        }
        assert r[|r| - 1] == x && IndexOf(s, x) == n - 1;
      }
    }
  }

  // ---- locating a boundary edge ----

  lemma {:induction false} FlattenMember(tb: seq<seq<int>>, x: int)
    ensures x in Flatten(tb) <==> exists t :: 0 <= t < |tb| && x in tb[t]
  {
    if tb != [] {
      var n := |tb| - 1;
      FlattenMember(tb[..n], x);
      if exists t :: 0 <= t < |tb| && x in tb[t] {
        var t :| 0 <= t < |tb| && x in tb[t];
        if t < n { assert tb[..n][t] == tb[t]; }
      }
      if exists t :: 0 <= t < n && x in tb[..n][t] {
        var t :| 0 <= t < n && x in tb[..n][t];
        assert tb[..n][t] == tb[t];
      }
    }
  }

  /** An entry in two different rows occurs at least twice. */
  lemma {:induction false} FlattenTwoRows(tb: seq<seq<int>>, x: int, t1: nat, t2: nat)
    requires t1 < t2 < |tb| && x in tb[t1] && x in tb[t2]
    ensures multiset(Flatten(tb))[x] >= 2
  {
    var n := |tb| - 1;
    assert Flatten(tb) == Flatten(tb[..n]) + tb[n];
    assert tb[..n][t1] == tb[t1];
    if t2 == n {
      FlattenMember(tb[..n], x);
      assert multiset(Flatten(tb[..n]))[x] >= 1;
      assert multiset(tb[n])[x] >= 1;
    } else {
      assert tb[..n][t2] == tb[t2];
      FlattenTwoRows(tb[..n], x, t1, t2);
    }
  }

  /** `minCoeff` on `(edgeIndices - b)^2`: the element whose edge row holds `b`;
      the first such row. */
  function ElementOf(tb: seq<seq<int>>, b: int): (t: nat)
    requires exists u :: 0 <= u < |tb| && b in tb[u]
    ensures t < |tb| && b in tb[t]
    ensures forall u :: 0 <= u < t ==> b !in tb[u]
  {
    if b in tb[0] then 0
    else
      assert exists u :: 0 <= u < |tb[1..]| && b in tb[1..][u] by {
        var u :| 0 <= u < |tb| && b in tb[u];
        assert tb[1..][u - 1] == tb[u];
      }
      1 + ElementOf(tb[1..], b)
  }

  /** An edge index that occurs once is held by exactly one element, so which
      minimum Eigen's traversal meets first does not matter. */
  lemma ElementOfUnique(tb: seq<seq<int>>, b: int, u: nat)
    requires multiset(Flatten(tb))[b] == 1
    requires u < |tb| && b in tb[u]
    ensures ElementOf(tb, b) == u
  {
    var t := ElementOf(tb, b);
    if t < u {
      FlattenTwoRows(tb, b, t, u);
    }
  }

  /** The first vertex of `row` at or after `j` that is neither `a` nor `b`, or 0 if none. */
  function OtherVertexFrom(row: seq<int>, a: int, b: int, j: nat): (k: nat)
    decreases |row| - j
    ensures (exists i :: j <= i < |row| && row[i] != a && row[i] != b) ==>
      j <= k < |row| && row[k] != a && row[k] != b &&
      forall i :: j <= i < k ==> row[i] == a || row[i] == b
    ensures !(exists i :: j <= i < |row| && row[i] != a && row[i] != b) ==> k == 0
  {
    if j >= |row| then 0
    else if row[j] != a && row[j] != b then j
    else OtherVertexFrom(row, a, b, j + 1)
  }

  // ---- the 2-D orientation ----

  /** What the 2-D step reads is well formed: table entries index the edge
      array, edge and simplex entries index the nodes, nodes are 2-D. */
  predicate Indexed2D(nodes: seq<Point>, tri: seq<seq<int>>, edges: seq<Bar>, edgeIndices: seq<seq<int>>) {
    Rows(nodes, 2) &&
    (forall t, c :: 0 <= t < |edgeIndices| && 0 <= c < |edgeIndices[t]| ==>
       0 <= edgeIndices[t][c] < |edges|) &&
    (forall e :: 0 <= e < |edges| ==>
       0 <= edges[e].first < |nodes| && 0 <= edges[e].second < |nodes|) &&
    (forall t, c :: 0 <= t < |tri| && 0 <= c < |tri[t]| ==> 0 <= tri[t][c] < |nodes|)
  }

  /** The table has one row per simplex and one entry per simplex vertex. */
  predicate TableShaped(tri: seq<seq<int>>, edgeIndices: seq<seq<int>>) {
    |edgeIndices| == |tri| && forall t :: 0 <= t < |tri| ==> |edgeIndices[t]| == |tri[t]|
  }

  /** The cross product that decides the orientation of boundary edge `b`: the
      edge vector against the vector from its second endpoint to the third
      vertex of the triangle that holds it. */
  function EdgeCross(nodes: seq<Point>, tri: seq<seq<int>>, edges: seq<Bar>,
                     edgeIndices: seq<seq<int>>, b: int): real
    requires TableShaped(tri, edgeIndices) && Indexed2D(nodes, tri, edges, edgeIndices)
    requires b in Flatten(edgeIndices)
  {
    FlattenMember(edgeIndices, b);
    var element := ElementOf(edgeIndices, b);
    var e := edges[b];
    var row := tri[element];
    var node := OtherVertexFrom(row, e.first, e.second, 0);
    Cross(Sub(nodes[e.second], nodes[e.first]), Sub(nodes[row[node]], nodes[e.second]))
  }

  /** The state of the scan after reading `done`: the seen set holds exactly
      the entries read, the candidate list is their single occurrences. */
  ghost predicate ScanState(seen: set<int>, candidates: seq<int>, done: seq<int>) {
    (forall x :: x in seen <==> x in done) && candidates == Singles(done)
  }

  /** A first sighting of `x`: appending it keeps the scan state. */
  lemma FirstSighting(seen: set<int>, candidates: seq<int>, done: seq<int>, x: int)
    requires ScanState(seen, candidates, done) && x !in seen
    ensures ScanState(seen + {x}, candidates + [x], done + [x])
  {
    SinglesStep(done, x);
  }

  /** `find` followed by `erase` when found: `v` without its first `x`. */
  function EraseFound(v: seq<int>, x: int): seq<int> {
    var it := IndexOf(v, x);
    if it < |v| then v[..it] + v[it + 1..] else v
  }

  /** A later sighting of `x`: erasing the copy found keeps the scan state. */
  lemma LaterSighting(seen: set<int>, candidates: seq<int>, done: seq<int>, x: int)
    requires ScanState(seen, candidates, done) && x in seen
    ensures ScanState(seen + {x}, EraseFound(candidates, x), done + [x])
  {
    SinglesErase(done, x);
  }

  /** One entry of the scan in `boundEdges`: the edge index is inserted into
      the seen set; a first sighting is appended to the candidate list, a later
      one is found in the list and erased. */
  method ScanEntry(edgeIndex: int, ghost done: seq<int>, seen: set<int>, candidates: seq<int>)
    returns (seen': set<int>, candidates': seq<int>)
    requires ScanState(seen, candidates, done)
    ensures ScanState(seen', candidates', done + [edgeIndex])
  {
    var inserted := edgeIndex !in seen;
    seen' := seen + {edgeIndex};
    candidates' := candidates;
    if !inserted {
      LaterSighting(seen, candidates, done, edgeIndex);
      // find the edge in the list and delete it
      var it := IndexOf(candidates', edgeIndex);
      if it < |candidates'| {
        candidates' := candidates'[..it] + candidates'[it + 1..];
        assert candidates' == EraseFound(candidates, edgeIndex);
      } else {
        assert candidates' == EraseFound(candidates, edgeIndex);
      }
    } else {
      FirstSighting(seen, candidates, done, edgeIndex);
      candidates' := candidates' + [edgeIndex];
    }
  }

  /** One row of the scan in `boundEdges`, entry by entry. */
  method ScanRow(row: seq<int>, ghost scanned: seq<int>, seen: set<int>, candidates: seq<int>)
    returns (seen': set<int>, candidates': seq<int>)
    requires ScanState(seen, candidates, scanned)
    ensures ScanState(seen', candidates', scanned + row)
  {
    seen', candidates' := seen, candidates;
    var edge := 0;
    assert scanned + row[..edge] == scanned;
    while edge < |row|
      invariant 0 <= edge <= |row|
      invariant ScanState(seen', candidates', scanned + row[..edge])
    {
      seen', candidates' := ScanEntry(row[edge], scanned + row[..edge], seen', candidates');
      assert scanned + row[..edge + 1] == scanned + row[..edge] + [row[edge]];
      edge := edge + 1;
    }
    assert row[..edge] == row;
  }

  /** The 2-D orientation step of `boundEdges` for one boundary edge `b`: find
      the element holding it, the vertex of that element off the edge, and
      negate `b` when the cross product is negative. */
  method OrientEdge(nodes: seq<Point>, tri: seq<seq<int>>, edges: seq<Bar>,
                    edgeIndices: seq<seq<int>>, b: int)
    returns (signed: int)
    requires TableShaped(tri, edgeIndices) && Indexed2D(nodes, tri, edges, edgeIndices)
    requires b in Flatten(edgeIndices)
    ensures signed == if EdgeCross(nodes, tri, edges, edgeIndices, b) < 0.0 then -b else b
  {
    FlattenMember(edgeIndices, b);
    var elementIndex := ElementOf(edgeIndices, b);

    // index of the node of the triangle that is not on the edge
    var row := tri[elementIndex];
    var e := edges[b];
    var nodeIndex := 0;
    var node := 0;
    while node < |row|
      invariant 0 <= node <= |row|
      invariant nodeIndex == 0
      invariant forall i :: 0 <= i < node ==> row[i] == e.first || row[i] == e.second
    {
      if row[node] != e.first && row[node] != e.second {
        nodeIndex := node;
        break;
      }
      node := node + 1;
    }
    assert nodeIndex == OtherVertexFrom(row, e.first, e.second, 0);

    // boundary edges with wrong orientation are marked with a negative sign
    var v1 := Sub(nodes[e.second], nodes[e.first]);
    var v2 := Sub(nodes[row[nodeIndex]], nodes[e.second]);
    signed := b;
    if v1[0] * v2[1] - v1[1] * v2[0] < 0.0 {
      signed := signed * -1;
    }
  }

  /** The 2-D loop of `boundEdges`, in place on the boundary array: every
      entry is replaced by its oriented form. */
  method OrientBoundary(nodes: seq<Point>, tri: seq<seq<int>>, edges: seq<Bar>,
                        edgeIndices: seq<seq<int>>, boundary: array<int>)
    modifies boundary
    requires TableShaped(tri, edgeIndices) && Indexed2D(nodes, tri, edges, edgeIndices)
    requires forall j :: 0 <= j < boundary.Length ==> boundary[j] in Flatten(edgeIndices)
    ensures forall j :: 0 <= j < boundary.Length ==>
      boundary[j] == if EdgeCross(nodes, tri, edges, edgeIndices, old(boundary[j])) < 0.0
                     then -old(boundary[j]) else old(boundary[j])
  {
    ghost var unsigned := boundary[..];
    var edge := 0;
    while edge < boundary.Length
      invariant 0 <= edge <= boundary.Length
      invariant |unsigned| == boundary.Length
      invariant forall j :: 0 <= j < |unsigned| ==> unsigned[j] in Flatten(edgeIndices)
      invariant forall j :: 0 <= j < edge ==>
        boundary[j] == if EdgeCross(nodes, tri, edges, edgeIndices, unsigned[j]) < 0.0
                       then -unsigned[j] else unsigned[j]
      invariant forall j :: edge <= j < boundary.Length ==> boundary[j] == unsigned[j]
    {
      boundary[edge] := OrientEdge(nodes, tri, edges, edgeIndices, boundary[edge]);
      edge := edge + 1;
    }
  }

  /** `boundEdges`: the edge indices that occur exactly once in the table, in
      scan order; in 2-D an entry is negated exactly when its cross product is
      negative, otherwise the list is returned unsigned. */
  method BoundEdges(nodes: seq<Point>, dim: nat, tri: seq<seq<int>>, edges: seq<Bar>,
                    edgeIndices: seq<seq<int>>)
    returns (result: seq<int>)
    requires Rows(nodes, dim) && TableShaped(tri, edgeIndices)
    requires dim == 2 ==> Indexed2D(nodes, tri, edges, edgeIndices)
    ensures |result| == |Singles(Flatten(edgeIndices))|
    ensures dim != 2 ==> result == Singles(Flatten(edgeIndices))
    ensures dim == 2 ==> forall i :: 0 <= i < |result| ==>
      var b := Singles(Flatten(edgeIndices))[i];
      b in Flatten(edgeIndices) &&
      result[i] == if EdgeCross(nodes, tri, edges, edgeIndices, b) < 0.0 then -b else b
  {
    // find edges which only appear once in the triangulation
    var uniqueEdges: set<int> := {};
    var boundaryEdges: seq<int> := [];
    var triangle := 0;
    while triangle < |tri|
      invariant 0 <= triangle <= |tri|
      invariant ScanState(uniqueEdges, boundaryEdges, Flatten(edgeIndices[..triangle]))
    {
      assert edgeIndices[..triangle + 1][..triangle] == edgeIndices[..triangle];
      uniqueEdges, boundaryEdges :=
        ScanRow(edgeIndices[triangle], Flatten(edgeIndices[..triangle]), uniqueEdges, boundaryEdges);
      triangle := triangle + 1;
    }
    assert edgeIndices[..triangle] == edgeIndices;
    ghost var unsigned := boundaryEdges;
    forall i | 0 <= i < |unsigned|
      ensures unsigned[i] in Flatten(edgeIndices)
    {
      SinglesMember(Flatten(edgeIndices), unsigned[i]);
    }

    // convert the list to an array
    var boundary := new int[|boundaryEdges|](i requires 0 <= i < |boundaryEdges| => boundaryEdges[i]);

    // for the 2-D case fix the orientation of boundary edges
    if dim == 2 {
      OrientBoundary(nodes, tri, edges, edgeIndices, boundary);
    }
    result := boundary[..];
  }

  /** The signed encoding cannot mark edge 0 as reversed: negating 0 gives 0,
      so a reversed edge 0 and an unreversed edge 0 produce the same entry. */
  lemma ReversedZeroIndistinguishable()
    ensures var nodes := [[0.0, 0.0], [1.0, 0.0], [0.0, 1.0]];
            var tri := [[0, 1, 2]];
            var edges := [Bar(1, 0), Bar(2, 1), Bar(2, 0)];
            var table := [[0, 1, 2]];
            TableShaped(tri, table) && Indexed2D(nodes, tri, edges, table) &&
            0 in Flatten(table) &&
            EdgeCross(nodes, tri, edges, table, 0) < 0.0 &&
            (if EdgeCross(nodes, tri, edges, table, 0) < 0.0 then -0 else 0) == 0
  {
    var nodes := [[0.0, 0.0], [1.0, 0.0], [0.0, 1.0]];
    var tri := [[0, 1, 2]];
    var edges := [Bar(1, 0), Bar(2, 1), Bar(2, 0)];
    var table := [[0, 1, 2]];
    assert TableShaped(tri, table);
    assert Indexed2D(nodes, tri, edges, table);
    assert Flatten(table) == [0, 1, 2] by {
      assert table[..0] == [];
    }
    assert ElementOf(table, 0) == 0;
    assert OtherVertexFrom([0, 1, 2], 1, 0, 0) == 2 by {
      assert OtherVertexFrom([0, 1, 2], 1, 0, 2) == 2;
    }
    var u := Sub(nodes[0], nodes[1]);
    var v := Sub(nodes[2], nodes[0]);
    assert u[0] == -1.0 && u[1] == 0.0 && v[0] == 0.0 && v[1] == 1.0;
    assert Cross(u, v) == -1.0;
    assert EdgeCross(nodes, tri, edges, table, 0) == -1.0;
  }
}
