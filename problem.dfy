/**
 * The line-count-prefixed text format shared by task and problem files, and
 * `Problem::parse`, which reads it into silhouette polygons and skeleton
 * segments.
 *
 * The format, line by line (every line is trimmed before it is read):
 *   n                      the number of polygons
 *   n times:  m            the number of points of the polygon
 *             m times:  "x,y"
 *   k                      the number of skeleton segments
 *   k times:  "x1,y1 x2,y2"
 * Lines after the last skeleton line are never read.
 */
module Problems {
  import opened Wrappers
  import opened Text
  import opened Geom

  type Polygon = seq<Vec2>

  datatype Problem = Problem(silhouette: seq<Polygon>, skeleton: seq<Edge>)

  // ---------------------------------------------------------------------
  // The format, as a grammar over the lines of the text
  // ---------------------------------------------------------------------

  /** Line `i`, trimmed and read with `parse`; `None` if it is missing or does not parse. */
  function LineAt<T>(lines: seq<string>, i: nat, parse: string -> Option<T>): (r: Option<T>)
    ensures r.Some? ==> i < |lines|
  {
    if i < |lines| then parse(Trim(lines[i])) else None
  }

  /**
   * One skeleton line, already trimmed: split at its first space and each
   * side (untrimmed) read as a point. `None` stands for the panic of the
   * `split_once` unwrap or of either point.
   */
  function ParseEdge(s: string, rat: RationalParser): (r: Option<Edge>)
    ensures ' ' !in s ==> r.None?
    ensures r.Some? ==> exists a, b :: s == a + [' '] + b && ' ' !in a
                                       && ParseVec2(a, rat) == Some(r.value.0) && ParseVec2(b, rat) == Some(r.value.1)
  {
    match SplitOnce(s, ' ')
    case None => None
    case Some((a, b)) =>
      SplitOnceSpec(s, ' ');
      if ParseVec2(a, rat).Some? && ParseVec2(b, rat).Some?
      then Some((ParseVec2(a, rat).value, ParseVec2(b, rat).value))
      else None
  }

  /** How each kind of line is read once trimmed: a count, a point, a skeleton segment. */
  datatype Readers = Readers(count: string -> Option<nat>, point: string -> Option<Vec2>, edge: string -> Option<Edge>)

  /**
   * The readers of both parsers: `usize::from_str` for counts, `Vec2::parse`
   * for points and `ParseEdge` for skeleton lines.
   */
  function LineReaders(rat: RationalParser): Readers {
    Readers(ParseUsize, s => ParseVec2(s, rat), s => ParseEdge(s, rat))
  }

  /**
   * The `m` lines `i` to `i + m - 1`, each read with `parse`: the points of a
   * polygon or the segments of the skeleton. `None` if any of them is missing
   * or does not parse.
   */
  function RunAt<T>(lines: seq<string>, i: nat, m: nat, parse: string -> Option<T>): (r: Option<seq<T>>)
    ensures r.Some? ==> |r.value| == m && (m > 0 ==> i + m <= |lines|)
    decreases m
  {
    if m == 0 then Some([])
    else
      match RunAt(lines, i, m - 1, parse)
      case None => None
      case Some(xs) =>
        match LineAt(lines, i + m - 1, parse)
        case None => None
        case Some(x) => Some(xs + [x])
  }

  /** Line `i`, trimmed and read as a count. */
  function CountAt(lines: seq<string>, i: nat, rd: Readers): (r: Option<nat>)
    ensures r.Some? ==> i < |lines|
  {
    LineAt(lines, i, rd.count)
  }

  /** One polygon starting at line `i`: a count line and that many point lines; also the line after it. */
  function PolygonAt(lines: seq<string>, i: nat, rd: Readers): (r: Option<(Polygon, nat)>)
    ensures r.Some? ==> r.value.1 == i + 1 + |r.value.0| <= |lines|
  {
    match CountAt(lines, i, rd)
    case None => None
    case Some(m) =>
      match RunAt(lines, i + 1, m, rd.point)
      case None => None
      case Some(poly) =>
        Some((poly, i + 1 + m))
  }

  /** The number of points of all the polygons together. */
  function PointCount(polys: seq<Polygon>): nat
    decreases |polys|
  {
    if polys == [] then 0 else |polys[0]| + PointCount(polys[1..])
  }

  /** `n` polygons one after the other from line `i`; also the line after them. */
  function PolygonsAt(lines: seq<string>, i: nat, n: nat, rd: Readers): (r: Option<(seq<Polygon>, nat)>)
    ensures r.Some? ==> |r.value.0| == n && i <= r.value.1
    ensures r.Some? && n > 0 ==> r.value.1 <= |lines|
    decreases n
  {
    if n == 0 then Some(([], i))
    else
      match PolygonAt(lines, i, rd)
      case None => None
      case Some((poly, j)) =>
        match PolygonsAt(lines, j, n - 1, rd)
        case None => None
        case Some((rest, k)) => Some(([poly] + rest, k))
  }

  /** The polygons take one count line each and one line per point. */
  lemma {:induction false} PolygonsAtEnd(lines: seq<string>, i: nat, n: nat, rd: Readers)
    requires PolygonsAt(lines, i, n, rd).Some?
    ensures PolygonsAt(lines, i, n, rd).value.1 == i + n + PointCount(PolygonsAt(lines, i, n, rd).value.0)
    decreases n
  {
    if n > 0 {
      var (poly, j) := PolygonAt(lines, i, rd).value;
      PolygonsAtEnd(lines, j, n - 1, rd);
      var rest := PolygonsAt(lines, j, n - 1, rd).value.0;
      assert ([poly] + rest)[1..] == rest;
    }
  }

  /** The skeleton from line `i`: a count line and that many segment lines. */
  function SkeletonAt(lines: seq<string>, i: nat, rd: Readers): Option<seq<Edge>> {
    match CountAt(lines, i, rd)
    case None => None
    case Some(k) => RunAt(lines, i + 1, k, rd.edge)
  }

  /** The whole format: the polygon count, the polygons, then the skeleton. */
  function ProblemOfLines(lines: seq<string>, rd: Readers): Option<Problem> {
    match CountAt(lines, 0, rd)
    case None => None
    case Some(n) =>
      match PolygonsAt(lines, 1, n, rd)
      case None => None
      case Some((polys, j)) =>
        match SkeletonAt(lines, j, rd)
        case None => None
        case Some(skeleton) => Some(Problem(polys, skeleton))
  }

  /** `done` in front of the polygons of `r`. */
  function Prepend(done: seq<Polygon>, r: Option<(seq<Polygon>, nat)>): Option<(seq<Polygon>, nat)> {
    match r
    case None => None
    case Some((rest, k)) => Some((done + rest, k))
  }

  lemma PrependNothing(r: Option<(seq<Polygon>, nat)>)
    ensures Prepend([], r) == r
  {
    if r.Some? {
      assert [] + r.value.0 == r.value.0;
    }
  }

  lemma PrependTwice(done: seq<Polygon>, more: seq<Polygon>, r: Option<(seq<Polygon>, nat)>)
    ensures Prepend(done, Prepend(more, r)) == Prepend(done + more, r)
  {
    if r.Some? {
      assert done + (more + r.value.0) == done + more + r.value.0;
    }
  }

  // ---------------------------------------------------------------------
  // Steps of the grammar, as the parsers take them
  // ---------------------------------------------------------------------

  /** Once a line of a run fails, every longer run fails. */
  lemma {:induction false} RunAtFails<T>(lines: seq<string>, i: nat, j: nat, m: nat, parse: string -> Option<T>)
    requires j <= m
    requires RunAt(lines, i, j, parse).None?
    ensures RunAt(lines, i, m, parse).None?
    decreases m - j
  {
    if j < m {
      RunAtFails(lines, i, j + 1, m, parse);
    }
  }

  /** A line that fails makes every run through it fail. */
  lemma RunAtStop<T>(lines: seq<string>, i: nat, j: nat, m: nat, parse: string -> Option<T>)
    requires j < m
    requires LineAt(lines, i + j, parse).None?
    ensures RunAt(lines, i, m, parse).None?
  {
    assert RunAt(lines, i, j + 1, parse).None?;
    RunAtFails(lines, i, j + 1, m, parse);
  }

  /** A line that parses extends the run before it by what it reads. */
  lemma RunAtNext<T>(lines: seq<string>, i: nat, j: nat, parse: string -> Option<T>, xs: seq<T>, x: T)
    requires RunAt(lines, i, j, parse) == Some(xs)
    requires LineAt(lines, i + j, parse) == Some(x)
    ensures RunAt(lines, i, j + 1, parse) == Some(xs + [x])
  {
  }

  lemma PolygonsAtStep(lines: seq<string>, i: nat, n: nat, rd: Readers)
    requires n > 0
    ensures PolygonAt(lines, i, rd).None? ==> PolygonsAt(lines, i, n, rd) == None
    ensures PolygonAt(lines, i, rd).Some? ==>
      PolygonsAt(lines, i, n, rd)
        == Prepend([PolygonAt(lines, i, rd).value.0], PolygonsAt(lines, PolygonAt(lines, i, rd).value.1, n - 1, rd))
  {
  }

  // ---------------------------------------------------------------------
  // The parser
  // ---------------------------------------------------------------------

  /**
   * The loop that reads `m` lines from line `start` on, each trimmed and
   * read with `parse`: the inner loop over the points of a polygon, and the
   * loop over the skeleton segments. `None` stands for a missing line or a
   * line that does not parse.
   */
  method ReadRun<T>(lines: seq<string>, start: nat, m: nat, parse: string -> Option<T>) returns (r: Option<seq<T>>)
    requires start <= |lines|
    ensures r == RunAt(lines, start, m, parse)
  {
    var next := start;
    var read: seq<T> := [];
    for j := 0 to m
      invariant next == start + j <= |lines|
      invariant RunAt(lines, start, j, parse) == Some(read)
    {
      if next == |lines| {
        RunAtStop(lines, start, j, m, parse);
        return None;
      }
      var line := lines[next];
      next := next + 1;
      var x := parse(Trim(line));
      if x.None? {
        RunAtStop(lines, start, j, m, parse);
        return None;
      }
      RunAtNext(lines, start, j, parse, read, x.value);
      read := read + [x.value];
    }
    return Some(read);
  }

  /**
   * The block that reads one polygon, the same in `Problem::parse` and
   * `Task::parse`: a count line, then that many point lines. `None` stands
   * for a missing line, a bad count or a bad point; otherwise the polygon
   * and the line after it.
   */
  method ReadPolygon(lines: seq<string>, start: nat, rd: Readers) returns (r: Option<(Polygon, nat)>)
    requires start <= |lines|
    ensures r == PolygonAt(lines, start, rd)
  {
    if start == |lines| {
      return None;
    }
    var m := rd.count(Trim(lines[start]));
    if m.None? {
      return None;
    }
    var poly := ReadRun(lines, start + 1, m.value, rd.point);
    if poly.None? {
      return None;
    }
    return Some((poly.value, start + 1 + m.value));
  }

  /** The skeleton block: a count line, then that many segment lines. */
  method ReadSkeleton(lines: seq<string>, start: nat, rd: Readers) returns (r: Option<seq<Edge>>)
    requires start <= |lines|
    ensures r == SkeletonAt(lines, start, rd)
  {
    if start == |lines| {
      return None;
    }
    var k := rd.count(Trim(lines[start]));
    if k.None? {
      return None;
    }
    r := ReadRun(lines, start + 1, k.value, rd.edge);
  }

  /**
   * The body of `Problem::parse` once the text is split into lines: reads
   * the polygon count, the polygons and the skeleton, each line with the
   * reader `rd` gives for its kind. `None` stands for any of its panics (a
   * missing line, a bad count, a bad point, a skeleton line without a space).
   */
  method ReadProblem(lines: seq<string>, rd: Readers) returns (r: Option<Problem>)
    ensures r == ProblemOfLines(lines, rd)
  {
    if |lines| == 0 {
      return None;
    }
    var count := rd.count(Trim(lines[0]));
    if count.None? {
      return None;
    }
    var n := count.value;
    var next: nat := 1;
    var silhouette: seq<Polygon> := [];
    PrependNothing(PolygonsAt(lines, next, n, rd));
    for i := 0 to n
      invariant 1 <= next <= |lines|
      invariant PolygonsAt(lines, 1, n, rd) == Prepend(silhouette, PolygonsAt(lines, next, n - i, rd))
    {
      PolygonsAtStep(lines, next, n - i, rd);
      var polygon := ReadPolygon(lines, next, rd);
      if polygon.None? {
        return None;
      }
      PrependTwice(silhouette, [polygon.value.0], PolygonsAt(lines, polygon.value.1, n - i - 1, rd));
      silhouette := silhouette + [polygon.value.0];
      next := polygon.value.1;
    }
    assert silhouette + [] == silhouette;
    assert PolygonsAt(lines, 1, n, rd) == Some((silhouette, next));
    var skeleton := ReadSkeleton(lines, next, rd);
    if skeleton.None? {
      return None;
    }
    r := Some(Problem(silhouette, skeleton.value));
  }

  /** `Problem::parse`: the text's lines, read with the readers of `LineReaders`. */
  method ParseProblem(s: string, rat: RationalParser) returns (r: Option<Problem>)
    ensures r == ProblemOfLines(Lines(s), LineReaders(rat))
  {
    r := ReadProblem(Lines(s), LineReaders(rat));
  }

  // ---------------------------------------------------------------------
  // Properties of the format
  // ---------------------------------------------------------------------

  /** The number of lines a problem takes: two count lines, one per polygon, one per point, one per segment. */
  function LinesUsed(p: Problem): nat {
    2 + |p.silhouette| + PointCount(p.silhouette) + |p.skeleton|
  }

  /**
   * A text parses only if the polygon count on its first line gives the
   * number of polygons, and it holds every line the counts call for; a
   * missing line anywhere makes parsing fail.
   */
  lemma ProblemCounts(lines: seq<string>, rd: Readers)
    requires ProblemOfLines(lines, rd).Some?
    ensures CountAt(lines, 0, rd) == Some(|ProblemOfLines(lines, rd).value.silhouette|)
    ensures LinesUsed(ProblemOfLines(lines, rd).value) <= |lines|
  {
    var n := CountAt(lines, 0, rd).value;
    var (polys, j) := PolygonsAt(lines, 1, n, rd).value;
    PolygonsAtEnd(lines, 1, n, rd);
    assert CountAt(lines, j, rd).Some?;
  }

  /** A polygon count of zero is accepted: the silhouette is empty and the skeleton block follows at once. */
  lemma ProblemNoPolygons(lines: seq<string>, rd: Readers)
    requires CountAt(lines, 0, rd) == Some(0)
    ensures ProblemOfLines(lines, rd)
         == if SkeletonAt(lines, 1, rd).Some? then Some(Problem([], SkeletonAt(lines, 1, rd).value)) else None
  {
  }

  /** One skeleton line "a b", where `a` holds no space, is the segment from the point `a` to the point `b`. */
  lemma ParseEdgeJoin(a: string, b: string, rat: RationalParser)
    requires ' ' !in a
    ensures ParseEdge(a + [' '] + b, rat)
         == if ParseVec2(a, rat).Some? && ParseVec2(b, rat).Some?
            then Some((ParseVec2(a, rat).value, ParseVec2(b, rat).value)) else None
  {
    SplitOnceJoin(a, ' ', b);
  }

  /** A skeleton line without a space never parses. */
  lemma ParseEdgeNeedsSpace(s: string, rat: RationalParser)
    requires ' ' !in s
    ensures ParseEdge(s, rat) == None
  {
  }

  /** `big` holds at least the lines of `small`, and each of them trims to the same text. */
  predicate Covers(big: seq<string>, small: seq<string>) {
    |small| <= |big| && forall k :: 0 <= k < |small| ==> Trim(big[k]) == Trim(small[k])
  }

  /** A run reads the same from any `big` that covers the `small` it reads from. */
  lemma {:induction false} RunAtCovered<T>(big: seq<string>, small: seq<string>, i: nat, m: nat, parse: string -> Option<T>)
    requires Covers(big, small)
    requires RunAt(small, i, m, parse).Some?
    ensures RunAt(big, i, m, parse) == RunAt(small, i, m, parse)
    decreases m
  {
    if m > 0 {
      assert RunAt(small, i, m - 1, parse).Some?;
      RunAtCovered(big, small, i, m - 1, parse);
      var k := i + m - 1;
      assert Trim(big[k]) == Trim(small[k]);
    }
  }

  lemma PolygonAtCovered(big: seq<string>, small: seq<string>, i: nat, rd: Readers)
    requires Covers(big, small)
    requires PolygonAt(small, i, rd).Some?
    ensures PolygonAt(big, i, rd) == PolygonAt(small, i, rd)
  {
    assert Trim(big[i]) == Trim(small[i]);
    RunAtCovered(big, small, i + 1, CountAt(small, i, rd).value, rd.point);
  }

  lemma {:induction false} PolygonsAtCovered(big: seq<string>, small: seq<string>, i: nat, n: nat, rd: Readers)
    requires Covers(big, small)
    requires PolygonsAt(small, i, n, rd).Some?
    ensures PolygonsAt(big, i, n, rd) == PolygonsAt(small, i, n, rd)
    decreases n
  {
    if n > 0 {
      PolygonsAtStep(small, i, n, rd);
      var (poly, j) := PolygonAt(small, i, rd).value;
      var rest := PolygonsAt(small, j, n - 1, rd);
      assert rest.Some?;
      PolygonsAtCovered(big, small, j, n - 1, rd);
      PolygonAtCovered(big, small, i, rd);
      PolygonsAtStep(big, i, n, rd);
    }
  }

  lemma SkeletonAtCovered(big: seq<string>, small: seq<string>, i: nat, rd: Readers)
    requires Covers(big, small)
    requires SkeletonAt(small, i, rd).Some?
    ensures SkeletonAt(big, i, rd) == SkeletonAt(small, i, rd)
  {
    assert Trim(big[i]) == Trim(small[i]);
    RunAtCovered(big, small, i + 1, CountAt(small, i, rd).value, rd.edge);
  }

  /** Whatever parses from `small` parses the same from any `big` that covers it. */
  lemma ProblemCovered(big: seq<string>, small: seq<string>, rd: Readers)
    requires Covers(big, small)
    requires ProblemOfLines(small, rd).Some?
    ensures ProblemOfLines(big, rd) == ProblemOfLines(small, rd)
  {
    assert Trim(big[0]) == Trim(small[0]);
    var n := CountAt(small, 0, rd).value;
    PolygonsAtCovered(big, small, 1, n, rd);
    SkeletonAtCovered(big, small, PolygonsAt(small, 1, n, rd).value.1, rd);
  }

  /** Lines after the last skeleton line are never read: appending lines to a text that parses changes nothing. */
  lemma ProblemIgnoresTrailingLines(lines: seq<string>, extra: seq<string>, rd: Readers)
    requires ProblemOfLines(lines, rd).Some?
    ensures ProblemOfLines(lines + extra, rd) == ProblemOfLines(lines, rd)
  {
    assert forall k :: 0 <= k < |lines| ==> (lines + extra)[k] == lines[k];
    ProblemCovered(lines + extra, lines, rd);
  }

  /** Every line is trimmed before it is read: texts whose lines trim alike parse alike. */
  lemma ProblemOnlyTrimmedLinesMatter(l1: seq<string>, l2: seq<string>, rd: Readers)
    requires |l1| == |l2|
    requires forall k :: 0 <= k < |l1| ==> Trim(l1[k]) == Trim(l2[k])
    ensures ProblemOfLines(l1, rd) == ProblemOfLines(l2, rd)
  {
    if ProblemOfLines(l1, rd).Some? {
      ProblemCovered(l2, l1, rd);
    } else if ProblemOfLines(l2, rd).Some? {
      ProblemCovered(l1, l2, rd);
    }
  }
}
