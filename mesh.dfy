/**
 * Edge subdivision (`subdivide_edges`): every input segment is cut at its
 * two endpoints and at every point where it meets an input segment, and the
 * pieces between consecutive cut points, in ascending point order, are
 * emitted edge by edge.
 */
module Mesh {
  import opened Wrappers
  import opened Geom

  /** `segment_intersection`, which is not part of this model: the crossing point of two segments, if any. */
  type Intersection = (Edge, Edge) -> Option<Vec2>

  predicate Sorted(s: seq<Vec2>) {
    forall i, j :: 0 <= i < j < |s| ==> LessEq(s[i], s[j])
  }

  predicate StrictlySorted(s: seq<Vec2>) {
    forall i, j :: 0 <= i < j < |s| ==> Less(s[i], s[j])
  }

  predicate Distinct(s: seq<Vec2>) {
    forall i, j :: 0 <= i < j < |s| ==> s[i] != s[j]
  }

  // ---------------------------------------------------------------------
  // The specification
  // ---------------------------------------------------------------------

  /** The points where `e` meets the segments of `es`. */
  function Hits(e: Edge, es: seq<Edge>, isect: Intersection): set<Vec2>
    decreases |es|
  {
    if es == [] then {}
    else
      var last := isect(e, es[|es| - 1]);
      Hits(e, es[..|es| - 1], isect) + (if last.Some? then {last.value} else {})
  }

  /** A point is a hit exactly when some segment of `es` meets `e` there. */
  lemma {:induction false} HitsMembers(e: Edge, es: seq<Edge>, isect: Intersection, p: Vec2)
    ensures p in Hits(e, es, isect) <==> exists k :: 0 <= k < |es| && isect(e, es[k]) == Some(p)
    decreases |es|
  {
    if es != [] {
      var init := es[..|es| - 1];
      HitsMembers(e, init, isect, p);
      if p in Hits(e, init, isect) {
        var k :| 0 <= k < |init| && isect(e, init[k]) == Some(p);
        assert es[k] == init[k];
      }
      if exists k :: 0 <= k < |es| && isect(e, es[k]) == Some(p) {
        var k :| 0 <= k < |es| && isect(e, es[k]) == Some(p);
        if k < |init| {
          assert init[k] == es[k];
        }
      }
    }
  }

  /** The cut points of `e`: its two endpoints and every point where it meets a segment of `all`. */
  function SplitPoints(e: Edge, all: seq<Edge>, isect: Intersection): (s: set<Vec2>)
    ensures e.0 in s && e.1 in s
  {
    {e.0, e.1} + Hits(e, all, isect)
  }

  /** `m` is a least point of `s`. */
  predicate IsMin(m: Vec2, s: set<Vec2>) {
    m in s && forall q :: q in s ==> LessEq(m, q)
  }

  /** A least point of a non-empty set. */
  ghost function MinPoint(s: set<Vec2>): (m: Vec2)
    requires s != {}
    ensures IsMin(m, s)
  {
    MinExists(s);
    var m :| IsMin(m, s);
    m
  }

  /** A point below a least point of `s` is a least point of `s` with it added. */
  lemma MinOfAdded(x: Vec2, m: Vec2, s: set<Vec2>)
    requires IsMin(m, s) && Less(x, m)
    ensures IsMin(x, s + {x})
  {
    forall q | q in s + {x} ensures LessEq(x, q) {
      if q != x {
        LessIsStrictTotalOrder(x, m, q);
      }
    }
  }

  /** A least point of `s` that is not above `x` stays least with `x` added. */
  lemma MinKept(x: Vec2, m: Vec2, s: set<Vec2>)
    requires IsMin(m, s) && !Less(x, m)
    ensures IsMin(m, s + {x})
  {
    LessIsStrictTotalOrder(x, m, m);
  }

  lemma {:induction false} MinExists(s: set<Vec2>)
    requires s != {}
    ensures exists m :: IsMin(m, s)
    decreases s
  {
    var x :| x in s;
    var rest := s - {x};
    assert s == rest + {x};
    if rest == {} {
      assert IsMin(x, s);
    } else {
      MinExists(rest);
      var m :| IsMin(m, rest);
      if Less(x, m) {
        MinOfAdded(x, m, rest);
        assert IsMin(x, s);
      } else {
        MinKept(x, m, rest);
        assert IsMin(m, s);
      }
    }
  }

  /** The points of `s` in ascending order, each once: what sorting the collected set gives. */
  ghost function SortedPoints(s: set<Vec2>): (r: seq<Vec2>)
    ensures StrictlySorted(r) && |r| == |s|
    ensures forall p :: p in r <==> p in s
    decreases s
  {
    if s == {} then []
    else
      var m := MinPoint(s);
      [m] + SortedPoints(s - {m})
  }

  /** The first element of a strictly ascending sequence is the least element of its set. */
  lemma SortedHeadIsMin(v: seq<Vec2>, s: set<Vec2>)
    requires StrictlySorted(v) && v != []
    requires forall p :: p in v <==> p in s
    ensures s != {} && v[0] == MinPoint(s)
  {
    assert v[0] in s;
    var m := MinPoint(s);
    assert m in v;
    var km :| 0 <= km < |v| && v[km] == m;
    assert LessEq(v[0], m) by {
      if km != 0 {
        assert Less(v[0], v[km]);
      }
    }
    LessIsStrictTotalOrder(v[0], m, m);
  }

  /** The rest of a strictly ascending sequence holds the rest of its set. */
  lemma SortedTail(v: seq<Vec2>, s: set<Vec2>)
    requires StrictlySorted(v) && v != []
    requires forall p :: p in v <==> p in s
    ensures StrictlySorted(v[1..])
    ensures forall p :: p in v[1..] <==> p in s - {v[0]}
  {
    var rest := v[1..];
    forall p ensures p in rest <==> p in s - {v[0]} {
      if p in rest {
        var k :| 0 <= k < |rest| && rest[k] == p;
        assert Less(v[0], v[k + 1]);
        LessIsStrictTotalOrder(v[0], p, p);
      }
      if p in s - {v[0]} {
        var k :| 0 <= k < |v| && v[k] == p;
        assert rest[k - 1] == p;
      }
    }
  }

  /** A strictly ascending sequence is determined by its set of elements. */
  lemma {:induction false} SortedPointsUnique(v: seq<Vec2>, s: set<Vec2>)
    requires StrictlySorted(v)
    requires forall p :: p in v <==> p in s
    ensures v == SortedPoints(s)
    decreases |v|
  {
    if v == [] {
      assert s == {};
    } else {
      var m := v[0];
      assert s != {} && m == MinPoint(s) by {
        SortedHeadIsMin(v, s);
      }
      assert v[1..] == SortedPoints(s - {m}) by {
        SortedTail(v, s);
        SortedPointsUnique(v[1..], s - {m});
      }
      assert v == [m] + v[1..];
    }
  }

  /** Consecutive pairs of `s`: what `s.iter().zip(s.iter().skip(1))` yields. */
  function Chain(s: seq<Vec2>): (r: seq<Edge>)
    ensures |r| == if |s| == 0 then 0 else |s| - 1
    ensures forall k :: 0 <= k < |r| ==> r[k] == (s[k], s[k + 1])
    decreases |s|
  {
    if |s| < 2 then [] else Chain(s[..|s| - 1]) + [(s[|s| - 2], s[|s| - 1])]
  }

  /** The sub-edges emitted for one input edge `e`. */
  ghost function SubEdges(e: Edge, all: seq<Edge>, isect: Intersection): seq<Edge> {
    Chain(SortedPoints(SplitPoints(e, all, isect)))
  }

  /** The concatenation of `f(e)` over the edges `e` of `es`, in order. */
  ghost function ConcatMap(es: seq<Edge>, f: Edge -> seq<Edge>): seq<Edge>
    decreases |es|
  {
    if es == [] then [] else ConcatMap(es[..|es| - 1], f) + f(es[|es| - 1])
  }

  lemma ConcatMapSnoc(es: seq<Edge>, e: Edge, f: Edge -> seq<Edge>)
    ensures ConcatMap(es + [e], f) == ConcatMap(es, f) + f(e)
  {
    assert (es + [e])[..|es|] == es;
  }

  lemma {:induction false} ConcatMapAppend(es1: seq<Edge>, es2: seq<Edge>, f: Edge -> seq<Edge>)
    ensures ConcatMap(es1 + es2, f) == ConcatMap(es1, f) + ConcatMap(es2, f)
    decreases |es2|
  {
    if es2 == [] {
      assert es1 + es2 == es1;
    } else {
      var init, last := es2[..|es2| - 1], es2[|es2| - 1];
      assert es2 == init + [last];
      assert es1 + es2 == (es1 + init) + [last];
      ConcatMapAppend(es1, init, f);
      ConcatMapSnoc(es1 + init, last, f);
      ConcatMapSnoc(init, last, f);
    }
  }

  /** `SubEdges` for fixed input and intersection. */
  ghost function SubEdgesOf(all: seq<Edge>, isect: Intersection): Edge -> seq<Edge> {
    e => SubEdges(e, all, isect)
  }

  /** The whole output: the sub-edges of each edge of `es`, edge after edge. */
  ghost function Subdivided(es: seq<Edge>, all: seq<Edge>, isect: Intersection): seq<Edge> {
    ConcatMap(es, SubEdgesOf(all, isect))
  }

  /** The number of sub-edges `es` gives: one fewer than the cut points, per edge. */
  ghost function TotalSubEdges(es: seq<Edge>, all: seq<Edge>, isect: Intersection): nat
    decreases |es|
  {
    if es == [] then 0
    else TotalSubEdges(es[..|es| - 1], all, isect) + (|SplitPoints(es[|es| - 1], all, isect)| - 1)
  }

  // ---------------------------------------------------------------------
  // The algorithm
  // ---------------------------------------------------------------------

  lemma {:induction false} DistinctCount(s: seq<Vec2>, x: Vec2)
    requires Distinct(s)
    ensures multiset(s)[x] <= 1
    decreases |s|
  {
    if s != [] {
      assert s == [s[0]] + s[1..];
      DistinctCount(s[1..], x);
      if x == s[0] {
        assert x !in s[1..];
      }
    }
  }

  lemma RepeatCount(s: seq<Vec2>, i: int, j: int)
    requires 0 <= i < j < |s| && s[i] == s[j]
    ensures multiset(s)[s[i]] >= 2
  {
    assert s == s[..j] + [s[j]] + s[j + 1..];
    assert s[i] in s[..j];
  }

  /** Reordering a sequence without repetitions cannot create one. */
  lemma DistinctPermutation(s: seq<Vec2>, t: seq<Vec2>)
    requires Distinct(s) && multiset(s) == multiset(t)
    ensures Distinct(t)
  {
    forall i, j | 0 <= i < j < |t| ensures t[i] != t[j] {
      if t[i] == t[j] {
        RepeatCount(t, i, j);
        DistinctCount(s, t[i]);
      }
    }
  }

  /** `slice::sort` on the collected points: an insertion sort in place. */
  method SortPoints(a: array<Vec2>)
    modifies a
    ensures Sorted(a[..])
    ensures multiset(a[..]) == old(multiset(a[..]))
  {
    var i := 0;
    while i < a.Length
      invariant 0 <= i <= a.Length
      invariant Sorted(a[..i])
      invariant multiset(a[..]) == old(multiset(a[..]))
    {
      InsertAt(a, i);
      i := i + 1;
    }
    assert a[..] == a[..a.Length];
  }

  /**
   * The state of one insertion pass: `s[j]` is on its way down from `i`;
   * `s[..i + 1]` without it is sorted, and it is not above anything after it.
   */
  predicate Inserting(s: seq<Vec2>, j: nat, i: nat)
    requires j <= i < |s|
  {
    (forall p, q :: 0 <= p < q <= i && p != j && q != j ==> LessEq(s[p], s[q]))
    && (forall q :: j < q <= i ==> LessEq(s[j], s[q]))
  }

  /** A pass starts with the new element at `i` and the sorted prefix before it. */
  lemma InsertingStarts(s: seq<Vec2>, i: nat)
    requires i < |s| && Sorted(s[..i])
    ensures Inserting(s, i, i)
  {
    forall p, q | 0 <= p < q <= i && p != i && q != i ensures LessEq(s[p], s[q]) {
      assert s[p] == s[..i][p] && s[q] == s[..i][q];
    }
  }

  /** Swapping the moving element with a greater left neighbour keeps the pass going. */
  lemma SwapKeepsInserting(s: seq<Vec2>, j: nat, i: nat)
    requires 0 < j <= i < |s| && Inserting(s, j, i) && Less(s[j], s[j - 1])
    ensures Inserting(s[j - 1 := s[j]][j := s[j - 1]], j - 1, i)
  {
    var t := s[j - 1 := s[j]][j := s[j - 1]];
    forall q | j - 1 < q <= i ensures LessEq(t[j - 1], t[q]) {
      if q > j {
        LessIsStrictTotalOrder(s[j], s[j - 1], s[q]);
      }
    }
    forall p, q | 0 <= p < q <= i && p != j - 1 && q != j - 1 ensures LessEq(t[p], t[q]) {
      if p == j {
        assert LessEq(s[j - 1], s[q]);
      } else if q == j {
        assert LessEq(s[p], s[j - 1]);
      }
    }
  }

  /** A pass that stops at `j` leaves `s[..i + 1]` sorted. */
  lemma InsertedSorted(s: seq<Vec2>, j: nat, i: nat)
    requires j <= i < |s| && Inserting(s, j, i)
    requires j == 0 || !Less(s[j], s[j - 1])
    ensures Sorted(s[..i + 1])
  {
    if j > 0 {
      forall p | 0 <= p < j ensures LessEq(s[p], s[j]) {
        LessIsStrictTotalOrder(s[p], s[j - 1], s[j]);
        LessIsStrictTotalOrder(s[j], s[j - 1], s[j]);
      }
    }
    var u := s[..i + 1];
    forall p, q | 0 <= p < q < |u| ensures LessEq(u[p], u[q]) {
      if p == j && q > j {
        assert LessEq(s[j], s[q]);
      }
    }
  }

  /** One pass of the insertion sort: moves `a[i]` down into the sorted prefix `a[..i]`. */
  method InsertAt(a: array<Vec2>, i: nat)
    requires i < a.Length && Sorted(a[..i])
    modifies a
    ensures Sorted(a[..i + 1])
    ensures multiset(a[..]) == old(multiset(a[..]))
  {
    InsertingStarts(a[..], i);
    var j: nat := i;
    while j > 0 && Less(a[j], a[j - 1])
      invariant j <= i
      invariant Inserting(a[..], j, i)
      invariant multiset(a[..]) == old(multiset(a[..]))
    {
      SwapKeepsInserting(a[..], j, i);
      a[j - 1], a[j] := a[j], a[j - 1];
      j := j - 1;
    }
    InsertedSorted(a[..], j, i);
  }

  /**
   * `pts.into_iter().collect()` followed by `sort()`: the set's points, in
   * whatever order the set yields them, sorted in place.
   */
  method SortedVec(pts: set<Vec2>) returns (v: seq<Vec2>)
    ensures v == SortedPoints(pts)
  {
    var a := new Vec2[|pts|];
    var rest := pts;
    var i := 0;
    while rest != {}
      invariant 0 <= i <= a.Length && i + |rest| == |pts|
      invariant rest <= pts
      invariant forall k :: 0 <= k < i ==> a[k] in pts && a[k] !in rest
      invariant forall p :: p in pts ==> p in rest || p in a[..i]
      invariant Distinct(a[..i])
      decreases |rest|
    {
      var p :| p in rest;
      a[i] := p;
      assert a[..i + 1] == a[..i] + [p];
      rest := rest - {p};
      i := i + 1;
    }
    assert a[..] == a[..i];
    ghost var collected := a[..];
    SortPoints(a);
    v := a[..];
    DistinctPermutation(collected, v);
    assert forall p :: p in v <==> p in collected by {
      forall p ensures p in v <==> p in collected {
        assert p in v <==> p in multiset(v);
        assert p in collected <==> p in multiset(collected);
      }
    }
    SortedPointsUnique(v, pts);
  }

  /** The inner loop of `subdivide_edges`: the set of cut points of `e1`. */
  method CutPoints(e1: Edge, edges: seq<Edge>, isect: Intersection) returns (pts: set<Vec2>)
    ensures pts == SplitPoints(e1, edges, isect)
  {
    pts := {};
    pts := pts + {e1.0};
    pts := pts + {e1.1};
    for j := 0 to |edges|
      invariant pts == {e1.0, e1.1} + Hits(e1, edges[..j], isect)
    {
      assert edges[..j + 1][..j] == edges[..j];
      var hit := isect(e1, edges[j]);
      if hit.Some? {
        pts := pts + {hit.value};
      }
    }
    assert edges[..|edges|] == edges;
  }

  /** The innermost loop of `subdivide_edges`: push each consecutive pair of `sorted` onto `result`. */
  method PushPairs(result: seq<Edge>, sorted: seq<Vec2>) returns (result': seq<Edge>)
    requires |sorted| >= 1
    ensures result' == result + Chain(sorted)
  {
    result' := result;
    for k := 0 to |sorted| - 1
      invariant result' == result + Chain(sorted[..k + 1])
    {
      assert sorted[..k + 2][..k + 1] == sorted[..k + 1];
      result' := result' + [(sorted[k], sorted[k + 1])];
    }
    assert sorted[..|sorted|] == sorted;
  }

  lemma TakeOneMore(s: seq<Edge>, i: int)
    requires 0 <= i < |s|
    ensures s[..i + 1] == s[..i] + [s[i]]
  {
  }

  /**
   * `subdivide_edges`: for each input edge, collect its cut points in a set,
   * sort them, and push one sub-edge per consecutive pair.
   */
  method SubdivideEdges(edges: seq<Edge>, isect: Intersection) returns (result: seq<Edge>)
    ensures result == Subdivided(edges, edges, isect)
  {
    result := [];
    for i := 0 to |edges|
      invariant result == Subdivided(edges[..i], edges, isect)
    {
      var e1 := edges[i];
      var pts := CutPoints(e1, edges, isect);
      var sorted := SortedVec(pts);
      assert |sorted| >= 1 by {
        assert e1.0 in pts;
      }
      result := PushPairs(result, sorted);
      TakeOneMore(edges, i);
      ConcatMapSnoc(edges[..i], e1, SubEdgesOf(edges, isect));
    }
    assert edges[..|edges|] == edges;
  }

  // ---------------------------------------------------------------------
  // Properties of the output
  // ---------------------------------------------------------------------

  /** Every sub-edge of one input edge runs from the smaller point to the larger. */
  lemma SubEdgesAscending(e: Edge, all: seq<Edge>, isect: Intersection, k: int)
    requires 0 <= k < |SubEdges(e, all, isect)|
    ensures Less(SubEdges(e, all, isect)[k].0, SubEdges(e, all, isect)[k].1)
  {
    var v := SortedPoints(SplitPoints(e, all, isect));
    assert Less(v[k], v[k + 1]);
  }

  /** An input edge with k distinct cut points gives exactly k - 1 sub-edges. */
  lemma SubEdgesCount(e: Edge, all: seq<Edge>, isect: Intersection)
    ensures |SubEdges(e, all, isect)| == |SplitPoints(e, all, isect)| - 1
  {
  }

  /** The sub-edges of one input edge form a chain: each ends where the next starts. */
  lemma SubEdgesChain(e: Edge, all: seq<Edge>, isect: Intersection, k: int)
    requires 0 <= k < |SubEdges(e, all, isect)| - 1
    ensures SubEdges(e, all, isect)[k].1 == SubEdges(e, all, isect)[k + 1].0
  {
    var v := SortedPoints(SplitPoints(e, all, isect));
    var r := Chain(v);
    assert r[k] == (v[k], v[k + 1]);
    assert r[k + 1] == (v[k + 1], v[k + 2]);
  }

  lemma ChainCover(v: seq<Vec2>, p: Vec2)
    requires |v| >= 2
    ensures p in v <==> exists k :: 0 <= k < |Chain(v)| && (Chain(v)[k].0 == p || Chain(v)[k].1 == p)
  {
    var r := Chain(v);
    if p in v {
      var i :| 0 <= i < |v| && v[i] == p;
      assert |r| == |v| - 1;
      var k := if i < |r| then i else i - 1;
      assert 0 <= k < |r| && r[k] == (v[k], v[k + 1]);
      assert Chain(v)[k].0 == p || Chain(v)[k].1 == p;
    } else {
      forall k | 0 <= k < |r| ensures r[k].0 != p && r[k].1 != p {
        assert r[k] == (v[k], v[k + 1]);
      }
    }
  }

  /**
   * When an edge has at least two cut points, the endpoints of its sub-edges
   * are exactly its cut points.
   */
  lemma SubEdgesCover(e: Edge, all: seq<Edge>, isect: Intersection, p: Vec2)
    requires |SplitPoints(e, all, isect)| >= 2
    ensures p in SplitPoints(e, all, isect)
        <==> exists k :: 0 <= k < |SubEdges(e, all, isect)|
                        && (SubEdges(e, all, isect)[k].0 == p || SubEdges(e, all, isect)[k].1 == p)
  {
    var v := SortedPoints(SplitPoints(e, all, isect));
    assert SubEdges(e, all, isect) == Chain(v);
    ChainCover(v, p);
  }

  /**
   * Every point where `segment_intersection` finds `e` meeting a segment of
   * the input (itself included) becomes an endpoint of a sub-edge of `e`,
   * unless `e` has a single cut point.
   */
  lemma IntersectionIsSubEdgeEndpoint(e: Edge, all: seq<Edge>, isect: Intersection, j: int, p: Vec2)
    requires 0 <= j < |all| && isect(e, all[j]) == Some(p)
    requires |SplitPoints(e, all, isect)| >= 2
    ensures exists k :: 0 <= k < |SubEdges(e, all, isect)|
                       && (SubEdges(e, all, isect)[k].0 == p || SubEdges(e, all, isect)[k].1 == p)
  {
    HitsMembers(e, all, isect, p);
    SubEdgesCover(e, all, isect, p);
  }

  /**
   * A degenerate edge (both endpoints equal) that meets nothing except at
   * that point has a single cut point and gives no sub-edges.
   */
  lemma DegenerateEdgeVanishes(e: Edge, all: seq<Edge>, isect: Intersection)
    requires e.0 == e.1
    requires forall k :: 0 <= k < |all| ==> isect(e, all[k]) in {None, Some(e.0)}
    ensures SplitPoints(e, all, isect) == {e.0}
    ensures SubEdges(e, all, isect) == []
  {
    forall p | p in Hits(e, all, isect) ensures p == e.0 {
      HitsMembers(e, all, isect, p);
      var k :| 0 <= k < |all| && isect(e, all[k]) == Some(p);
    }
  }

  /** The output for `es1 + es2` is that for `es1` followed by that for `es2`: it is grouped by input edge, in input order. */
  lemma SubdividedAppend(es1: seq<Edge>, es2: seq<Edge>, all: seq<Edge>, isect: Intersection)
    ensures Subdivided(es1 + es2, all, isect) == Subdivided(es1, all, isect) + Subdivided(es2, all, isect)
  {
    ConcatMapAppend(es1, es2, SubEdgesOf(all, isect));
  }

  /** The output is the sub-edges of the edges before edge `i`, then edge `i`'s, then those of the edges after it. */
  lemma SubdividedGroups(es: seq<Edge>, all: seq<Edge>, isect: Intersection, i: int)
    requires 0 <= i < |es|
    ensures Subdivided(es, all, isect)
         == Subdivided(es[..i], all, isect) + SubEdges(es[i], all, isect) + Subdivided(es[i + 1..], all, isect)
  {
    assert es == es[..i] + [es[i]] + es[i + 1..];
    SubdividedAppend(es[..i] + [es[i]], es[i + 1..], all, isect);
    SubdividedAppend(es[..i], [es[i]], all, isect);
    assert Subdivided([es[i]], all, isect) == SubEdges(es[i], all, isect) by {
      assert [es[i]][..0] == [];
    }
  }

  /** The output length is the sum over the input edges of their cut points minus one. */
  lemma {:induction false} SubdividedLength(es: seq<Edge>, all: seq<Edge>, isect: Intersection)
    ensures |Subdivided(es, all, isect)| == TotalSubEdges(es, all, isect)
    decreases |es|
  {
    if es != [] {
      SubdividedLength(es[..|es| - 1], all, isect);
      SubEdgesCount(es[|es| - 1], all, isect);
    }
  }

  /** Every emitted sub-edge runs from the smaller point to the larger. */
  lemma {:induction false} SubdividedAscending(es: seq<Edge>, all: seq<Edge>, isect: Intersection)
    ensures forall k :: 0 <= k < |Subdivided(es, all, isect)|
                      ==> Less(Subdivided(es, all, isect)[k].0, Subdivided(es, all, isect)[k].1)
    decreases |es|
  {
    if es != [] {
      SubdividedAscending(es[..|es| - 1], all, isect);
      var front := Subdivided(es[..|es| - 1], all, isect);
      var back := SubEdges(es[|es| - 1], all, isect);
      forall k | 0 <= k < |back| ensures Less(back[k].0, back[k].1) {
        SubEdgesAscending(es[|es| - 1], all, isect, k);
      }
    }
  }

  /** No input edges, no output edges. */
  lemma SubdividedEmpty(all: seq<Edge>, isect: Intersection)
    ensures Subdivided([], all, isect) == []
  {
  }
}
