/**
 * `Task::parse`: the same text format as a problem, where every polygon is
 * sorted by the sign of its area. The first polygon must be the one and only
 * polygon of positive area (the outer boundary); every later one must have
 * negative area (a hole).
 */
module Tasks {
  import opened Wrappers
  import opened Text
  import opened Geom
  import opened Problems

  datatype Task = Task(outer: Polygon, holes: seq<Polygon>, skeleton: seq<Edge>)

  /** The signed area of a polygon (`area` from the prelude), which is not part of this model. */
  type Area = Polygon -> real

  /** Every polygon after the first has negative area. */
  predicate LaterAreNegative(polys: seq<Polygon>, area: Area) {
    forall k :: 1 <= k < |polys| ==> area(polys[k]) < 0.0
  }

  /**
   * The classification the parser enforces: the first polygon has positive
   * area and becomes the outer boundary, and every other one has negative
   * area and becomes a hole, in order. `None` when there is no polygon, or
   * when one breaks that pattern.
   */
  function Classify(polys: seq<Polygon>, area: Area): (r: Option<(Polygon, seq<Polygon>)>)
    ensures r.Some? <==> |polys| >= 1 && area(polys[0]) > 0.0 && LaterAreNegative(polys, area)
    ensures r.Some? ==> [r.value.0] + r.value.1 == polys
  {
    if |polys| >= 1 && area(polys[0]) > 0.0 && LaterAreNegative(polys, area)
    then Some((polys[0], polys[1..]))
    else None
  }

  /** The whole format: a problem whose polygons classify. */
  function TaskOfLines(lines: seq<string>, rd: Readers, area: Area): Option<Task> {
    match ProblemOfLines(lines, rd)
    case None => None
    case Some(p) =>
      match Classify(p.silhouette, area)
      case None => None
      case Some((outer, holes)) => Some(Task(outer, holes, p.skeleton))
  }

  /**
   * The polygons read so far keep the pattern: none yet, or a first one of
   * positive area followed only by ones of negative area.
   */
  predicate PrefixClassifies(read: seq<Polygon>, area: Area) {
    read == [] || (area(read[0]) > 0.0 && LaterAreNegative(read, area))
  }

  /**
   * The state of the two lists while the polygons are read: together they
   * keep the pattern, and the positive list holds nothing or one polygon,
   * the latter once anything has been read.
   */
  predicate SortedSoFar(posPolys: seq<Polygon>, negPolys: seq<Polygon>, area: Area) {
    PrefixClassifies(posPolys + negPolys, area) && ((posPolys == [] && negPolys == []) || |posPolys| == 1)
  }

  /** Once the polygons read so far break the pattern, the whole silhouette does. */
  lemma ClassifyRejects(read: seq<Polygon>, rest: seq<Polygon>, area: Area)
    requires !PrefixClassifies(read, area)
    ensures Classify(read + rest, area).None?
  {
    var all := read + rest;
    assert all[0] == read[0];
    if area(read[0]) > 0.0 {
      var k :| 1 <= k < |read| && area(read[k]) >= 0.0;
      assert all[k] == read[k];
    }
  }

  /** The `n` polygons from line 1 on do not read, or do not classify. */
  predicate NoSilhouette(lines: seq<string>, n: nat, rd: Readers, area: Area) {
    match PolygonsAt(lines, 1, n, rd)
    case None => true
    case Some((polys, _)) => Classify(polys, area).None?
  }

  /**
   * When the polygons read so far, in front of those still to come, break
   * the pattern, the silhouette does not classify.
   */
  lemma SilhouetteRejectsPrefix(lines: seq<string>, rd: Readers, area: Area, n: nat, read: seq<Polygon>, i: nat, next: nat)
    requires i <= n
    requires PolygonsAt(lines, 1, n, rd) == Prepend(read, PolygonsAt(lines, next, n - i, rd))
    requires !PrefixClassifies(read, area)
    ensures NoSilhouette(lines, n, rd, area)
  {
    if PolygonsAt(lines, next, n - i, rd).Some? {
      var rest := PolygonsAt(lines, next, n - i, rd).value.0;
      ClassifyRejects(read, rest, area);
    }
  }

  /**
   * One turn of the polygon loop of `Task::parse` after the polygon is read:
   * push it onto `pos_polys` when its area is positive and onto `neg_polys`
   * when negative, panic (`None`) when zero, then panic unless exactly one
   * positive polygon has been seen. It fails exactly when the polygons read so
   * far, this one included, break the pattern.
   */
  method PushBySign(posPolys: seq<Polygon>, negPolys: seq<Polygon>, poly: Polygon, area: Area)
    returns (r: Option<(seq<Polygon>, seq<Polygon>)>)
    requires SortedSoFar(posPolys, negPolys, area)
    ensures r.None? <==> !PrefixClassifies(posPolys + negPolys + [poly], area)
    ensures r.Some? ==> r.value.0 + r.value.1 == posPolys + negPolys + [poly]
    ensures r.Some? ==> SortedSoFar(r.value.0, r.value.1, area) && |r.value.0| == 1
  {
    ghost var read := posPolys + negPolys + [poly];
    assert read[|read| - 1] == poly;
    var pos, neg := posPolys, negPolys;
    var a := area(poly);
    if a < 0.0 {
      neg := neg + [poly];
    } else if a == 0.0 {
      return None;
    } else {
      pos := pos + [poly];
    }
    if |pos| != 1 {
      return None;
    }
    r := Some((pos, neg));
  }

  /** A polygon that does not read leaves no silhouette. */
  lemma SilhouetteStepMissing(lines: seq<string>, rd: Readers, area: Area, n: nat, read: seq<Polygon>, i: nat, next: nat)
    requires i < n
    requires PolygonsAt(lines, 1, n, rd) == Prepend(read, PolygonsAt(lines, next, n - i, rd))
    requires PolygonAt(lines, next, rd).None?
    ensures NoSilhouette(lines, n, rd, area)
  {
    PolygonsAtStep(lines, next, n - i, rd);
  }

  /** A polygon that breaks the pattern leaves no silhouette. */
  lemma SilhouetteStepRejected(lines: seq<string>, rd: Readers, area: Area, n: nat, read: seq<Polygon>, i: nat, next: nat,
                               poly: Polygon, after: nat)
    requires i < n
    requires PolygonsAt(lines, 1, n, rd) == Prepend(read, PolygonsAt(lines, next, n - i, rd))
    requires PolygonAt(lines, next, rd) == Some((poly, after))
    requires !PrefixClassifies(read + [poly], area)
    ensures NoSilhouette(lines, n, rd, area)
  {
    SilhouetteStepNext(lines, rd, n, read, i, next, poly, after);
    SilhouetteRejectsPrefix(lines, rd, area, n, read + [poly], i + 1, after);
  }

  /** A polygon that reads moves the polygons read so far one further. */
  lemma SilhouetteStepNext(lines: seq<string>, rd: Readers, n: nat, read: seq<Polygon>, i: nat, next: nat,
                           poly: Polygon, after: nat)
    requires i < n
    requires PolygonsAt(lines, 1, n, rd) == Prepend(read, PolygonsAt(lines, next, n - i, rd))
    requires PolygonAt(lines, next, rd) == Some((poly, after))
    ensures PolygonsAt(lines, 1, n, rd) == Prepend(read + [poly], PolygonsAt(lines, after, n - (i + 1), rd))
  {
    PolygonsAtStep(lines, next, n - i, rd);
    PrependTwice(read, [poly], PolygonsAt(lines, after, n - i - 1, rd));
  }

  /**
   * The body of the polygon loop of `Task::parse`: reads the polygon at line
   * `start` and sorts it (see `PushBySign`). `None` when the polygon does not read
   * or breaks the pattern; otherwise the two lists with it pushed, and the
   * line after it.
   */
  method ReadSorted(lines: seq<string>, start: nat, rd: Readers, area: Area, posPolys: seq<Polygon>, negPolys: seq<Polygon>)
    returns (r: Option<(seq<Polygon>, seq<Polygon>, nat)>)
    requires start <= |lines|
    requires SortedSoFar(posPolys, negPolys, area)
    ensures r.None? <==>
      PolygonAt(lines, start, rd).None?
      || !PrefixClassifies(posPolys + negPolys + [PolygonAt(lines, start, rd).value.0], area)
    ensures r.Some? ==>
      r.value.0 + r.value.1 == posPolys + negPolys + [PolygonAt(lines, start, rd).value.0]
      && r.value.2 == PolygonAt(lines, start, rd).value.1
      && SortedSoFar(r.value.0, r.value.1, area) && |r.value.0| == 1
  {
    var polygon := ReadPolygon(lines, start, rd);
    if polygon.None? {
      return None;
    }
    var sorted := PushBySign(posPolys, negPolys, polygon.value.0, area);
    if sorted.None? {
      return None;
    }
    r := Some((sorted.value.0, sorted.value.1, polygon.value.1));
  }

  /**
   * The state of the polygon loop of `Task::parse` after `i` of the `n`
   * polygons: the two lists hold, in order, the first `i` polygons the
   * problem format reads from line 1, the rest of which start at `next`,
   * and they keep the pattern.
   */
  ghost predicate Reading(lines: seq<string>, n: nat, rd: Readers, area: Area, i: nat, next: nat,
                          posPolys: seq<Polygon>, negPolys: seq<Polygon>)
  {
    i <= n && 1 <= next <= |lines| && |posPolys + negPolys| == i
    && PolygonsAt(lines, 1, n, rd) == Prepend(posPolys + negPolys, PolygonsAt(lines, next, n - i, rd))
    && SortedSoFar(posPolys, negPolys, area) && (i > 0 ==> |posPolys| == 1)
  }

  /** The loop starts at line 1 with nothing read. */
  lemma ReadingStarts(lines: seq<string>, n: nat, rd: Readers, area: Area)
    requires 1 <= |lines|
    ensures Reading(lines, n, rd, area, 0, 1, [], [])
  {
    PrependNothing(PolygonsAt(lines, 1, n, rd));
    var none: seq<Polygon> := [];
    assert none + none == none;
  }

  /**
   * One turn of the polygon loop of `Task::parse`: `None` when the polygon
   * does not read or breaks the pattern, and then no silhouette exists;
   * otherwise the loop state one polygon further.
   */
  method ReadStep(lines: seq<string>, n: nat, rd: Readers, area: Area, i: nat, next: nat,
                  posPolys: seq<Polygon>, negPolys: seq<Polygon>)
    returns (r: Option<(seq<Polygon>, seq<Polygon>, nat)>)
    requires i < n && Reading(lines, n, rd, area, i, next, posPolys, negPolys)
    ensures r.None? ==> NoSilhouette(lines, n, rd, area)
    ensures r.Some? ==> Reading(lines, n, rd, area, i + 1, r.value.2, r.value.0, r.value.1)
  {
    ghost var read := posPolys + negPolys;
    r := ReadSorted(lines, next, rd, area, posPolys, negPolys);
    if r.None? {
      if PolygonAt(lines, next, rd).None? {
        SilhouetteStepMissing(lines, rd, area, n, read, i, next);
      } else {
        SilhouetteStepRejected(lines, rd, area, n, read, i, next, PolygonAt(lines, next, rd).value.0, PolygonAt(lines, next, rd).value.1);
      }
    } else {
      SilhouetteStepNext(lines, rd, n, read, i, next, PolygonAt(lines, next, rd).value.0, r.value.2);
    }
  }

  /**
   * The polygon loop of `Task::parse`: reads `n` polygons from line 1 on,
   * pushing each onto `pos_polys` or `neg_polys` by the sign of its area (zero
   * panics) and checking after each one that exactly one positive polygon has
   * been seen. On success the two lists, in that order, are the silhouette
   * the problem format reads, together with the line after it.
   */
  method ReadSilhouette(lines: seq<string>, n: nat, rd: Readers, area: Area)
    returns (r: Option<(seq<Polygon>, seq<Polygon>, nat)>)
    requires 1 <= |lines|
    ensures r.None? ==> NoSilhouette(lines, n, rd, area)
    ensures r.Some? ==> PolygonsAt(lines, 1, n, rd) == Some((r.value.0 + r.value.1, r.value.2))
    ensures r.Some? ==> PrefixClassifies(r.value.0 + r.value.1, area)
    ensures r.Some? ==> (if n == 0 then r.value.0 == [] && r.value.1 == [] else |r.value.0| == 1)
  {
    var next: nat := 1;
    var posPolys: seq<Polygon> := [];
    var negPolys: seq<Polygon> := [];
    ReadingStarts(lines, n, rd, area);
    for i := 0 to n
      invariant Reading(lines, n, rd, area, i, next, posPolys, negPolys)
    {
      var step := ReadStep(lines, n, rd, area, i, next, posPolys, negPolys);
      if step.None? {
        return None;
      }
      posPolys, negPolys, next := step.value.0, step.value.1, step.value.2;
    }
    assert posPolys + negPolys + [] == posPolys + negPolys;
    r := Some((posPolys, negPolys, next));
  }

  /**
   * The body of `Task::parse` once the text is split into lines: reads the
   * count, the polygons (see `ReadSilhouette`) and the skeleton, and pops the
   * positive polygon as the outer boundary; the negative ones become the
   * holes. `None` stands for any of its panics.
   */
  method ReadTask(lines: seq<string>, rd: Readers, area: Area) returns (r: Option<Task>)
    ensures r == TaskOfLines(lines, rd, area)
  {
    if |lines| == 0 {
      return None;
    }
    var count := rd.count(Trim(lines[0]));
    if count.None? {
      return None;
    }
    var n := count.value;
    var polys := ReadSilhouette(lines, n, rd, area);
    if polys.None? {
      return None;
    }
    var (posPolys, negPolys, next) := polys.value;
    var skeleton := ReadSkeleton(lines, next, rd);
    if skeleton.None? {
      return None;
    }
    if |posPolys| == 0 {
      return None;
    }
    var outer := posPolys[|posPolys| - 1];
    r := Some(Task(outer, negPolys, skeleton.value));
  }

  /** `Task::parse`: the text's lines, read with the readers of `LineReaders`. */
  method ParseTask(s: string, rat: RationalParser, area: Area) returns (r: Option<Task>)
    ensures r == TaskOfLines(Lines(s), LineReaders(rat), area)
  {
    r := ReadTask(Lines(s), LineReaders(rat), area);
  }

  // ---------------------------------------------------------------------
  // Properties
  // ---------------------------------------------------------------------

  /**
   * A text is a task exactly when it is a problem whose first polygon has
   * positive area and whose later polygons all have negative area; the outer
   * boundary is that first polygon and the holes are the rest, in order.
   */
  lemma TaskIsClassifiedProblem(lines: seq<string>, rd: Readers, area: Area, t: Task)
    ensures TaskOfLines(lines, rd, area) == Some(t)
        <==> ProblemOfLines(lines, rd) == Some(Problem([t.outer] + t.holes, t.skeleton))
             && area(t.outer) > 0.0
             && (forall k :: 0 <= k < |t.holes| ==> area(t.holes[k]) < 0.0)
  {
    var polys := [t.outer] + t.holes;
    if ProblemOfLines(lines, rd) == Some(Problem(polys, t.skeleton)) {
      assert polys[0] == t.outer && polys[1..] == t.holes;
      assert forall k :: 1 <= k < |polys| ==> polys[k] == t.holes[k - 1];
    }
    if TaskOfLines(lines, rd, area) == Some(t) {
      var p := ProblemOfLines(lines, rd).value;
      assert p.silhouette == polys;
      assert forall k :: 0 <= k < |t.holes| ==> t.holes[k] == polys[k + 1];
    }
  }

  /** A task has exactly one polygon of positive area, its outer boundary. */
  lemma TaskHasOneOuter(lines: seq<string>, rd: Readers, area: Area)
    requires TaskOfLines(lines, rd, area).Some?
    ensures var t := TaskOfLines(lines, rd, area).value;
      var polys := ProblemOfLines(lines, rd).value.silhouette;
      polys[0] == t.outer && area(t.outer) > 0.0
      && forall k :: 0 <= k < |polys| && area(polys[k]) > 0.0 ==> k == 0
  {
  }

  /** A polygon of zero area anywhere in the silhouette means the text is not a task. */
  lemma ZeroAreaRejected(lines: seq<string>, rd: Readers, area: Area, k: nat)
    requires ProblemOfLines(lines, rd).Some?
    requires k < |ProblemOfLines(lines, rd).value.silhouette|
    requires area(ProblemOfLines(lines, rd).value.silhouette[k]) == 0.0
    ensures TaskOfLines(lines, rd, area) == None
  {
  }

  /** A text that announces no polygon is never a task: there is no outer boundary. */
  lemma NoPolygonRejected(lines: seq<string>, rd: Readers, area: Area)
    requires CountAt(lines, 0, rd) == Some(0)
    ensures TaskOfLines(lines, rd, area) == None
  {
    ProblemNoPolygons(lines, rd);
  }

  /** Lines after the skeleton are never read. */
  lemma TaskIgnoresTrailingLines(lines: seq<string>, extra: seq<string>, rd: Readers, area: Area)
    requires TaskOfLines(lines, rd, area).Some?
    ensures TaskOfLines(lines + extra, rd, area) == TaskOfLines(lines, rd, area)
  {
    ProblemIgnoresTrailingLines(lines, extra, rd);
  }

  /** Texts whose lines trim alike are the same task, or both no task. */
  lemma TaskOnlyTrimmedLinesMatter(l1: seq<string>, l2: seq<string>, rd: Readers, area: Area)
    requires |l1| == |l2|
    requires forall k :: 0 <= k < |l1| ==> Trim(l1[k]) == Trim(l2[k])
    ensures TaskOfLines(l1, rd, area) == TaskOfLines(l2, rd, area)
  {
    ProblemOnlyTrimmedLinesMatter(l1, l2, rd);
  }
}
