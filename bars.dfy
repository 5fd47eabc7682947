/** Unique-bar extraction: `distmesh::utils::find_unique_bars`.
    Every simplex row contributes its `dim + 1` cyclically adjacent vertex
    pairs; each pair is put larger index first, deduplicated in an ordered
    set, and the set is copied out in ascending lexicographic order. */
module Bars {
  import opened Vectors

  /** The pair as `find_unique_bars` stores it: larger index first. */
  function Canonical(a: int, b: int): (r: Bar)
    ensures r.first >= r.second
    ensures (r.first == a && r.second == b) || (r.first == b && r.second == a)
  {
    if a > b then Bar(a, b) else Bar(b, a)
  }

  /** `std::array`'s `operator<`: lexicographic order on the two indices. */
  predicate Less(x: Bar, y: Bar) {
    x.first < y.first || (x.first == y.first && x.second < y.second)
  }

  /** Ascending without repetition, as a `std::set` iterates. */
  predicate StrictlySorted(s: seq<Bar>) {
    forall i, j :: 0 <= i < j < |s| ==> Less(s[i], s[j])
  }

  /** Every row of the simplex array has `dim + 1` vertices. */
  predicate Shaped(dim: nat, tri: seq<seq<int>>) {
    forall t :: 0 <= t < |tri| ==> |tri[t]| == dim + 1
  }

  /** The canonical pair of vertex `i` of a simplex row and its cyclic successor. */
  function RowBar(dim: nat, row: seq<int>, i: nat): Bar
    requires |row| == dim + 1 && i <= dim
  {
    Canonical(row[i], row[(i + 1) % (dim + 1)])
  }

  /** The canonical pairs of the first `n` vertices of `row` with their cyclic successors. */
  function RowBarsUpTo(dim: nat, row: seq<int>, n: nat): set<Bar>
    requires |row| == dim + 1 && n <= dim + 1
  {
    set i | 0 <= i < n :: RowBar(dim, row, i)
  }

  /** The canonical pairs of one simplex row. */
  function RowBars(dim: nat, row: seq<int>): set<Bar>
    requires |row| == dim + 1
  {
    RowBarsUpTo(dim, row, dim + 1)
  }

  /** The canonical pairs of every simplex row: the contents of `bar_indices_set`. */
  function AllBars(dim: nat, tri: seq<seq<int>>): set<Bar>
    requires Shaped(dim, tri)
  {
    if tri == [] then {} else AllBars(dim, tri[..|tri| - 1]) + RowBars(dim, tri[|tri| - 1])
  }

  /** Some member of a nonempty set. */
  ghost function Pick(s: set<Bar>): (x: Bar)
    requires s != {}
    ensures x in s
  {
    var x :| x in s; x
  }

  /** The least member of a nonempty set under `Less`. */
  ghost function Least(s: set<Bar>): (m: Bar)
    requires s != {}
    ensures m in s
    decreases |s|
  {
    var x := Pick(s);
    if s == {x} then x
    else
      var y := Least(s - {x});
      if Less(x, y) then x else y
  }

  /** `Least` is below every other member. */
  lemma {:induction false} LeastIsLeast(s: set<Bar>)
    requires s != {}
    ensures forall b :: b in s ==> b == Least(s) || Less(Least(s), b)
    decreases |s|
  {
    var x := Pick(s);
    if s != {x} {
      var rest := s - {x};
      LeastIsLeast(rest);
      forall b | b in s
        ensures b == Least(s) || Less(Least(s), b)
      {
        if b != x { assert b in rest; }
      }
    }
  }

  /** The members of a bar set in ascending order: the order in which a
      `std::set` of bars is iterated. */
  ghost function SortedBars(s: set<Bar>): seq<Bar>
    decreases |s|
  {
    if s == {} then []
    else
      var m := Least(s);
      [m] + SortedBars(s - {m})
  }

  /** The ascending listing holds each member of the set exactly once, in
      strictly ascending order. */
  lemma SortedBarsSpec(s: set<Bar>)
    ensures StrictlySorted(SortedBars(s))
    ensures forall b :: b in SortedBars(s) <==> b in s
    ensures |SortedBars(s)| == |s|
  {
    SortedBarsMembers(s);
    SortedBarsSorted(s);
  }

  /** The ascending listing has exactly the set's members, one row per member. */
  lemma {:induction false} SortedBarsMembers(s: set<Bar>)
    ensures forall b :: b in SortedBars(s) <==> b in s
    ensures |SortedBars(s)| == |s|
    decreases |s|
  {
    if s != {} {
      var m := Least(s);
      var rest := SortedBars(s - {m});
      assert SortedBars(s) == [m] + rest;
      SortedBarsMembers(s - {m});
    }
  }

  /** The ascending listing is strictly ascending. */
  lemma {:induction false} SortedBarsSorted(s: set<Bar>)
    ensures StrictlySorted(SortedBars(s))
    decreases |s|
  {
    if s != {} {
      var m := Least(s);
      var rest := SortedBars(s - {m});
      var all := SortedBars(s);
      assert all == [m] + rest;
      SortedBarsSorted(s - {m});
      SortedBarsMembers(s - {m});
      LeastIsLeast(s);
      forall i, j | 0 <= i < j < |all|
        ensures Less(all[i], all[j])
      {
        assert all[j] == rest[j - 1];
        if i == 0 {
          assert rest[j - 1] in s - {m};
        } else {
          assert all[i] == rest[i - 1];
        }
      }
    }
  }

  /** `find_unique_bars`: the bar array is the canonical pair set of `tri`,
      each pair once, larger index first, in ascending order. */
  method FindUniqueBars(dim: nat, tri: seq<seq<int>>) returns (bars: seq<Bar>)
    requires Shaped(dim, tri)
    ensures bars == SortedBars(AllBars(dim, tri))
  {
    // fill the set of sorted bar indices
    var barSet: set<Bar> := {};
    var t := 0;
    while t < |tri|
      invariant 0 <= t <= |tri|
      invariant barSet == AllBars(dim, tri[..t])
    {
      var row := tri[t];
      var i := 0;
      while i < dim + 1
        invariant 0 <= i <= dim + 1
        invariant barSet == AllBars(dim, tri[..t]) + RowBarsUpTo(dim, row, i)
      {
        var bar;
        if row[i] > row[(i + 1) % (dim + 1)] {
          bar := Bar(row[i], row[(i + 1) % (dim + 1)]);
        } else {
          bar := Bar(row[(i + 1) % (dim + 1)], row[i]);
        }
        assert bar == RowBar(dim, row, i);
        barSet := barSet + {bar};
        i := i + 1;
      }
      assert tri[..t + 1][..t] == tri[..t];
      t := t + 1;
    }
    assert tri[..t] == tri;

    // copy the set, in ascending order, into a |set| x 2 buffer
    bars := CopyAscending(barSet);
    SortedBarsSpec(barSet);
    SortedUnique(bars, SortedBars(barSet));
  }

  /** The bar array of `find_unique_bars`: every bar larger index first, each
      distinct canonical pair once, in ascending order. */
  lemma UniqueBarsSpec(dim: nat, tri: seq<seq<int>>)
    requires Shaped(dim, tri)
    ensures var bars := SortedBars(AllBars(dim, tri));
      (forall i :: 0 <= i < |bars| ==> bars[i].first >= bars[i].second) &&
      StrictlySorted(bars) &&
      (forall b :: b in bars <==> b in AllBars(dim, tri)) &&
      |bars| == |AllBars(dim, tri)|
  {
    var bars := SortedBars(AllBars(dim, tri));
    SortedBarsSpec(AllBars(dim, tri));
    forall i | 0 <= i < |bars|
      ensures bars[i].first >= bars[i].second
    {
      assert bars[i] in AllBars(dim, tri);
      AllBarsCanonical(dim, tri, bars[i]);
    }
  }

  /** The copy loop of `find_unique_bars`: the set's members, in iteration
      (ascending) order, into a buffer of the set's size. */
  method CopyAscending(barSet: set<Bar>) returns (bars: seq<Bar>)
    ensures StrictlySorted(bars)
    ensures forall b :: b in bars <==> b in barSet
    ensures |bars| == |barSet|
  {
    var out := new Bar[|barSet|];
    var k := 0;
    var rest := barSet;
    while rest != {}
      invariant rest <= barSet
      invariant k + |rest| == |barSet|
      invariant forall b :: b in out[..k] <==> b in barSet && b !in rest
      invariant StrictlySorted(out[..k])
      invariant forall j, b :: 0 <= j < k && b in rest ==> Less(out[j], b)
      decreases |rest|
    {
      LeastIsLeast(rest);
      ghost var least := Least(rest);
      var m :| m in rest && forall b :: b in rest ==> b == m || Less(m, b);
      out[k] := m;
      assert out[..k + 1] == out[..k] + [m];
      k := k + 1;
      rest := rest - {m};
    }
    bars := out[..k];
  }

  /** Membership in a row's pair set, as an explicit witness. */
  lemma RowBarsMember(dim: nat, row: seq<int>, b: Bar)
    requires |row| == dim + 1
    ensures b in RowBars(dim, row) <==>
      exists i :: 0 <= i <= dim && b == RowBar(dim, row, i)
  {
  }

  /** Every emitted bar has its first index at least its second. */
  lemma {:induction false} AllBarsCanonical(dim: nat, tri: seq<seq<int>>, b: Bar)
    requires Shaped(dim, tri)
    requires b in AllBars(dim, tri)
    ensures b.first >= b.second
  {
    if b !in AllBars(dim, tri[..|tri| - 1]) {
      RowBarsMember(dim, tri[|tri| - 1], b);
    } else {
      AllBarsCanonical(dim, tri[..|tri| - 1], b);
    }
  }

  /** Every adjacent vertex pair of every simplex row is in the bar set. */
  lemma {:induction false} AllBarsComplete(dim: nat, tri: seq<seq<int>>, t: nat, i: nat)
    requires Shaped(dim, tri)
    requires t < |tri| && i <= dim
    ensures RowBar(dim, tri[t], i) in AllBars(dim, tri)
  {
    var last := |tri| - 1;
    if t == last {
      RowBarsMember(dim, tri[last], RowBar(dim, tri[t], i));
    } else {
      assert tri[..last][t] == tri[t];
      AllBarsComplete(dim, tri[..last], t, i);
    }
  }

  /** Every bar in the set comes from an adjacent pair of some row. */
  lemma {:induction false} AllBarsSound(dim: nat, tri: seq<seq<int>>, b: Bar)
    requires Shaped(dim, tri)
    requires b in AllBars(dim, tri)
    ensures exists t, i :: 0 <= t < |tri| && 0 <= i <= dim && b == RowBar(dim, tri[t], i)
  {
    var last := |tri| - 1;
    if b in RowBars(dim, tri[last]) {
      RowBarsMember(dim, tri[last], b);
      var i :| 0 <= i <= dim && b == RowBar(dim, tri[last], i);
      assert 0 <= last < |tri|;
    } else {
      AllBarsSound(dim, tri[..last], b);
      var t, i :| 0 <= t < last && 0 <= i <= dim && b == RowBar(dim, tri[..last][t], i);
      assert tri[..last][t] == tri[t];
    }
  }

  /** All indices of `tri` lie in `[0, n)`. */
  predicate IndicesBelow(tri: seq<seq<int>>, n: int) {
    forall t, j :: 0 <= t < |tri| && 0 <= j < |tri[t]| ==> 0 <= tri[t][j] < n
  }

  /** No index is invented: a bar's endpoints are vertices of the simplex array,
      so valid point indices stay valid. */
  lemma BarEndpointsBelow(dim: nat, tri: seq<seq<int>>, n: int, b: Bar)
    requires Shaped(dim, tri) && IndicesBelow(tri, n)
    requires b in AllBars(dim, tri)
    ensures 0 <= b.first < n && 0 <= b.second < n
  {
    AllBarsSound(dim, tri, b);
    var t, i :| 0 <= t < |tri| && 0 <= i <= dim && b == RowBar(dim, tri[t], i);
    assert 0 <= (i + 1) % (dim + 1) < |tri[t]|;
  }

  /** The bar array is determined by its contents: two ascending sequences with
      the same members are equal, so the output does not depend on insertion order. */
  lemma {:induction false} SortedUnique(a: seq<Bar>, b: seq<Bar>)
    requires StrictlySorted(a) && StrictlySorted(b)
    requires forall x :: x in a <==> x in b
    ensures a == b
  {
    if a != [] { assert a[0] in b; }
    if b != [] { assert b[0] in a; }
    if a != [] && b != [] {
      assert a[0] == b[0] by {
        assert a[0] in b && b[0] in a;
      }
      forall x
        ensures x in a[1..] <==> x in b[1..]
      {
        if x in a[1..] {
          var i :| 1 <= i < |a| && a[i] == x;
          assert Less(a[0], x);
          assert x in b;
        }
        if x in b[1..] {
          var j :| 1 <= j < |b| && b[j] == x;
          assert Less(b[0], x);
          assert x in a;
        }
      }
      SortedUnique(a[1..], b[1..]);
      assert a == [a[0]] + a[1..] && b == [b[0]] + b[1..];
    }
  }
}
