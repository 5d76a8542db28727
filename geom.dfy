/**
 * Points with exact rational coordinates (`real` is an exact rational), their
 * lexicographic order, and the text form "x,y" of a point.
 */
module Geom {
  import opened Wrappers
  import opened Text

  /** A point or vector: `Vec2 { x: BigRational, y: BigRational }`. */
  datatype Vec2 = Vec2(x: real, y: real)

  /** A segment between two points, `(Vec2, Vec2)` in the source. */
  type Edge = (Vec2, Vec2)

  /** The parser of one `BigRational` (`str::parse`), which is not part of this model. */
  type RationalParser = string -> Option<real>

  /** The order a derived `Ord` gives `Vec2`: by `x`, then by `y`. */
  predicate Less(p: Vec2, q: Vec2) {
    p.x < q.x || (p.x == q.x && p.y < q.y)
  }

  predicate LessEq(p: Vec2, q: Vec2) {
    Less(p, q) || p == q
  }

  /** `Less` is a strict total order. */
  lemma LessIsStrictTotalOrder(p: Vec2, q: Vec2, r: Vec2)
    ensures !Less(p, p)
    ensures Less(p, q) ==> !Less(q, p)
    ensures Less(p, q) && Less(q, r) ==> Less(p, r)
    ensures Less(p, q) || p == q || Less(q, p)
  {
  }

  /**
   * `Vec2::parse`: split at the first comma and parse both sides as
   * rationals, without trimming either side. `None` stands for the panic of
   * either `unwrap`.
   */
  function ParseVec2(s: string, rat: RationalParser): (r: Option<Vec2>)
    ensures ',' !in s ==> r.None?
    ensures r.Some? ==> exists a, b :: s == a + [','] + b && ',' !in a
                                       && rat(a) == Some(r.value.x) && rat(b) == Some(r.value.y)
  {
    match SplitOnce(s, ',')
    case None => None
    case Some((a, b)) =>
      SplitOnceSpec(s, ',');
      if rat(a).Some? && rat(b).Some? then Some(Vec2(rat(a).value, rat(b).value)) else None
  }

  /**
   * The text `a + "," + b`, where `a` holds no comma, parses to the point whose
   * x is what `a` parses to and whose y is what `b` (commas and all) parses
   * to, and fails exactly when one of them fails.
   */
  lemma ParseVec2Join(a: string, b: string, rat: RationalParser)
    requires ',' !in a
    ensures ParseVec2(a + [','] + b, rat)
         == if rat(a).Some? && rat(b).Some? then Some(Vec2(rat(a).value, rat(b).value)) else None
  {
    SplitOnceJoin(a, ',', b);
  }

  /** Text without a comma never parses as a point. */
  lemma ParseVec2NeedsComma(s: string, rat: RationalParser)
    requires ',' !in s
    ensures ParseVec2(s, rat) == None
  {
  }
}
