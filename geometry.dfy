/** Geometry of the broad and narrow phase: discs, axis-aligned squares and
    the three predicates the quadtree and the collision pass are built on
    (quadtree.js, classes Circle and AABB). Coordinates are exact reals. */
module Geometry {

  /** The shape of a body: centre and radius. */
  datatype Disc = Disc(x: real, y: real, r: real)

  /** A moving body (the source's class Circle, quadtree.js:1-21): position,
      radius, velocity in units per second, and the collision flag that the
      collision pass sets. */
  datatype Circle = Circle(x: real, y: real, r: real,
                           velocityX: real, velocityY: real, isColided: bool)
  {
    function Shape(): Disc { Disc(x, y, r) }
  }

  /** An axis-aligned square given by its centre and half its side. */
  datatype AABB = AABB(x: real, y: real, halfLength: real)

  function Abs(v: real): (a: real)
    ensures a >= 0.0 && (a == v || a == -v)
  {
    if v < 0.0 then -v else v
  }

  /** Inclusive overlap of the disc's bounding box with the square: touching
      on an edge counts (quadtree.js:31-39). */
  predicate ContainsCircle(box: AABB, c: Disc)
  {
    c.x + c.r >= box.x - box.halfLength &&
    c.x - c.r <= box.x + box.halfLength &&
    c.y + c.r >= box.y - box.halfLength &&
    c.y - c.r <= box.y + box.halfLength
  }

  /** Strict overlap of two squares: touching on an edge does not count
      (quadtree.js:41-47). */
  predicate IntersectsAABB(a: AABB, b: AABB)
  {
    Abs(a.x - b.x) < a.halfLength + b.halfLength &&
    Abs(a.y - b.y) < a.halfLength + b.halfLength
  }

  /** Narrow phase: the centres are at most r1 + r2 apart. The source compares
      a square root with the radius sum; since a square root is never
      negative this is the squared comparison guarded by a non-negative sum
      (see DistanceForm). */
  predicate Intersects(a: Disc, b: Disc)
  {
    var dx, dy := a.x - b.x, a.y - b.y;
    var s := a.r + b.r;
    s >= 0.0 && dx * dx + dy * dy <= s * s
  }

  /** The lower and upper edge of the square on each axis. */
  function Left(b: AABB): real { b.x - b.halfLength }
  function Right(b: AABB): real { b.x + b.halfLength }
  function Top(b: AABB): real { b.y - b.halfLength }
  function Bottom(b: AABB): real { b.y + b.halfLength }

  /** The square `inner` lies inside `outer`, edges included. */
  predicate Within(inner: AABB, outer: AABB)
  {
    Left(outer) <= Left(inner) && Right(inner) <= Right(outer) &&
    Top(outer) <= Top(inner) && Bottom(inner) <= Bottom(outer)
  }

  /** The square widened by `margin` on every side. */
  function Widened(b: AABB, margin: real): (w: AABB)
    ensures Left(w) == Left(b) - margin && Right(w) == Right(b) + margin
    ensures Top(w) == Top(b) - margin && Bottom(w) == Bottom(b) + margin
  {
    AABB(b.x, b.y, b.halfLength + margin)
  }

  /** Square overlap is a symmetric relation. */
  lemma IntersectsAABBSymmetric(a: AABB, b: AABB)
    ensures IntersectsAABB(a, b) == IntersectsAABB(b, a)
  {
    assert Abs(a.x - b.x) == Abs(b.x - a.x);
    assert Abs(a.y - b.y) == Abs(b.y - a.y);
  }

  /** The square test holds exactly when the two squares' open interiors
      overlap on both axes, i.e. it is the strict version of an edge test. */
  lemma IntersectsAABBByEdges(a: AABB, b: AABB)
    ensures IntersectsAABB(a, b) <==>
      (Left(a) < Right(b) && Left(b) < Right(a) && Top(a) < Bottom(b) && Top(b) < Bottom(a))
  {
  }

  /** Overlapping a square that lies inside another means overlapping the
      outer square too. */
  lemma ContainsCircleWithin(inner: AABB, outer: AABB, c: Disc)
    requires Within(inner, outer) && ContainsCircle(inner, c)
    ensures ContainsCircle(outer, c)
  {
  }

  /** A square of positive size inside another strictly overlaps it. */
  lemma WithinIntersects(inner: AABB, outer: AABB)
    requires Within(inner, outer) && inner.halfLength > 0.0
    ensures IntersectsAABB(inner, outer)
  {
  }

  /** The narrow phase is symmetric in its two discs. */
  lemma IntersectsSymmetric(a: Disc, b: Disc)
    ensures Intersects(a, b) == Intersects(b, a)
  {
    assert (a.x - b.x) * (a.x - b.x) == (b.x - a.x) * (b.x - a.x);
    assert (a.y - b.y) * (a.y - b.y) == (b.y - a.y) * (b.y - a.y);
  }

  /** Given the Euclidean distance d between the centres (d >= 0 and
      d * d the sum of squared offsets), the narrow phase holds exactly when
      d <= r1 + r2, touching included: it is the source's square-root test. */
  lemma DistanceForm(a: Disc, b: Disc, d: real)
    requires d >= 0.0
    requires d * d == (a.x - b.x) * (a.x - b.x) + (a.y - b.y) * (a.y - b.y)
    ensures Intersects(a, b) <==> d <= a.r + b.r
  {
    var s := a.r + b.r;
    if d <= s {
      MulMonotone(d, s);
    } else if s >= 0.0 {
      MulStrictMonotone(s, d);
    }
  }

  /** A disc that overlaps two squares, and whose diameter is below
      `margin`, ties them together: the first square widened by `margin`
      strictly overlaps the second. */
  lemma WidenedOverlap(b: AABB, range: AABB, c: Disc, margin: real)
    requires ContainsCircle(b, c) && ContainsCircle(range, c) && 2.0 * c.r < margin
    ensures IntersectsAABB(Widened(b, margin), range)
  {
  }

  /** A number whose square is at most s * s, for s >= 0, lies in [-s, s]. */
  lemma SquareBound(d: real, s: real)
    requires s >= 0.0 && d * d <= s * s
    ensures -s <= d <= s
  {
    if s < Abs(d) {
      assert Abs(d) * Abs(d) == d * d;
      MulStrictMonotone(s, Abs(d));
    }
  }

  /** Discs that meet overlap each other's bounding squares on both axes:
      their centres are at most r1 + r2 apart on each axis. */
  lemma IntersectsAxes(a: Disc, b: Disc)
    requires Intersects(a, b)
    ensures Abs(a.x - b.x) <= a.r + b.r && Abs(a.y - b.y) <= a.r + b.r
  {
    var dx, dy, s := a.x - b.x, a.y - b.y, a.r + b.r;
    assert dx * dx <= s * s by { assert dy * dy >= 0.0; }
    assert dy * dy <= s * s by { assert dx * dx >= 0.0; }
    SquareBound(dx, s);
    SquareBound(dy, s);
  }

  lemma MulMonotone(p: real, q: real)
    requires 0.0 <= p <= q
    ensures p * p <= q * q
  {
    calc {
      p * p;
    <= { assert p * (q - p) >= 0.0; }
      p * q;
    <= { assert q * (q - p) >= 0.0; }
      q * q;
    }
  }

  lemma MulStrictMonotone(p: real, q: real)
    requires 0.0 <= p < q
    ensures p * p < q * q
  {
    assert p * (q - p) == p * q - p * p;
    assert q * (q - p) == q * q - p * q;
    assert p * (q - p) >= 0.0;
    assert q * (q - p) > 0.0;
  }
}
