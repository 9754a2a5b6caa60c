/** Spawning new bodies under the mouse and moving bodies between frames,
    with reflection off the canvas edges (quadtree.js, function run). The
    random numbers and the frame time are parameters. */
module Motion {
  import opened Geometry

  /** Radius of every spawned body (quadtree.js:222). */
  const SPAWN_RADIUS: real := 10.0

  /** A velocity component from a uniform sample u in [0, 1)
      (quadtree.js:218-219). */
  function SpawnVelocity(u: real): real
  {
    u * (100.0 + 50.0) + -50.0
  }

  /** Pushes a coordinate back so that a disc of radius r does not stick out
      of [0, limit] on one axis; the far edge is checked first
      (quadtree.js:223-236). */
  function ClampAxis(p: real, r: real, limit: real): (q: real)
    ensures p + r > limit ==> q + r == limit
    ensures p + r <= limit && p - r < 0.0 ==> q - r == 0.0
    ensures p + r <= limit && p - r >= 0.0 ==> q == p
  {
    if p + r > limit then p - ((p + r) - limit)
    else if p - r < 0.0 then p + Abs(p - r)
    else p
  }

  /** The body pushed when the mouse is held at (mouseX, mouseY); u1 and u2
      are the two random samples (quadtree.js:217-237). */
  function Spawned(mouseX: real, mouseY: real, u1: real, u2: real,
                   width: real, height: real): (c: Circle)
    ensures c.r == SPAWN_RADIUS && !c.isColided
    ensures c.x == ClampAxis(mouseX, SPAWN_RADIUS, width)
    ensures c.y == ClampAxis(mouseY, SPAWN_RADIUS, height)
  {
    Circle(ClampAxis(mouseX, SPAWN_RADIUS, width), ClampAxis(mouseY, SPAWN_RADIUS, height),
           SPAWN_RADIUS, SpawnVelocity(u1), SpawnVelocity(u2), false)
  }

  /** The proposed position of a disc of radius r touches or crosses an edge
      of [0, limit] (quadtree.js:281, 287). */
  predicate HitsEdge(next: real, r: real, limit: real)
  {
    next - r <= 0.0 || next + r >= limit
  }

  /** One axis of the integrator. The position moves by `sign * v * dt`
      (sign 1 for x, -1 for y, whose canvas axis points down); when the
      proposed position hits an edge, the velocity is negated and the body
      moves by the negated displacement from its old position instead
      (quadtree.js:277-292). Returns the new position and velocity. */
  function AxisStep(p: real, v: real, r: real, dt: real, limit: real, sign: real): (real, real)
  {
    var next := p + sign * (v * dt);
    if HitsEdge(next, r, limit) then
      var v' := v * -1.0;
      (p + sign * (v' * dt), v')
    else (next, v)
  }

  /** A body after one frame of dt seconds in a width x height canvas
      (quadtree.js:276-293). */
  function Move(c: Circle, dt: real, width: real, height: real): (m: Circle)
    ensures m.r == c.r && m.isColided == c.isColided
    ensures Abs(m.velocityX) == Abs(c.velocityX) && Abs(m.velocityY) == Abs(c.velocityY)
  {
    var (x, vx) := AxisStep(c.x, c.velocityX, c.r, dt, width, 1.0);
    var (y, vy) := AxisStep(c.y, c.velocityY, c.r, dt, height, -1.0);
    c.(x := x, y := y, velocityX := vx, velocityY := vy)
  }

  /** A reflection is a mirror image: the body ends where it started minus
      the displacement it was proposed, and the velocity flips; otherwise the
      body takes the proposed position with its velocity. */
  lemma AxisStepReflects(p: real, v: real, r: real, dt: real, limit: real, sign: real)
    requires sign == 1.0 || sign == -1.0
    ensures var next := p + sign * (v * dt);
            var (q, w) := AxisStep(p, v, r, dt, limit, sign);
            if HitsEdge(next, r, limit) then q == p - (next - p) && w == -v
            else q == next && w == v
  {
    var next := p + sign * (v * dt);
    if HitsEdge(next, r, limit) {
      assert (v * -1.0) * dt == -(v * dt);
    }
  }

  /** A body strictly inside [0, limit] whose displacement per frame plus
      radius is below half the limit stays strictly inside after the step,
      whether or not it reflects. */
  lemma AxisStepStaysInside(p: real, v: real, r: real, dt: real, limit: real, sign: real)
    requires sign == 1.0 || sign == -1.0
    requires 0.0 < p - r && p + r < limit
    requires r >= 0.0 && 2.0 * (Abs(v * dt) + r) < limit
    ensures var (q, _) := AxisStep(p, v, r, dt, limit, sign);
            0.0 < q - r && q + r < limit
  {
    AxisStepReflects(p, v, r, dt, limit, sign);
    var d := sign * (v * dt);
    assert Abs(d) == Abs(v * dt);
    var next := p + d;
    if HitsEdge(next, r, limit) {
      // The proposal hit one edge, so the body is near that edge and the
      // mirrored step moves it away; the other edge is too far to reach.
      if next - r <= 0.0 {
        assert d < 0.0;
        assert p - d - r > 0.0;
        assert p - d + r < limit;
      } else {
        assert d > 0.0;
        assert p - d + r < limit;
        assert p - d - r > 0.0;
      }
    }
  }

  /** A body inside the canvas with a small enough displacement per frame is
      still inside after Move. */
  lemma MoveStaysInside(c: Circle, dt: real, width: real, height: real)
    requires 0.0 < c.x - c.r && c.x + c.r < width
    requires 0.0 < c.y - c.r && c.y + c.r < height
    requires c.r >= 0.0
    requires 2.0 * (Abs(c.velocityX * dt) + c.r) < width
    requires 2.0 * (Abs(c.velocityY * dt) + c.r) < height
    ensures var m := Move(c, dt, width, height);
            0.0 < m.x - m.r && m.x + m.r < width && 0.0 < m.y - m.r && m.y + m.r < height
  {
    AxisStepStaysInside(c.x, c.velocityX, c.r, dt, width, 1.0);
    AxisStepStaysInside(c.y, c.velocityY, c.r, dt, height, -1.0);
  }

  /** A body of radius 5 at x = 2 moving left at 40 units per second bounces
      off the left edge in a 0.1 s frame: it leaves at x = 6 moving right. */
  lemma LeftEdgeBounce(width: real)
    ensures var m := Move(Circle(2.0, 50.0, 5.0, -40.0, 0.0, false), 0.1, width, 100.0);
            m.x == 6.0 && m.velocityX == 40.0 && m.y == 50.0 && m.velocityY == 0.0
  {
    assert HitsEdge(2.0 + 1.0 * (-40.0 * 0.1), 5.0, width);
  }

  /** A sample u in [0, 1) gives a velocity in [-50, 100). */
  lemma SpawnVelocityRange(u: real)
    requires 0.0 <= u < 1.0
    ensures -50.0 <= SpawnVelocity(u) < 100.0
  {
  }

  /** When the canvas is at least as wide as the disc, the clamp puts the disc
      inside [0, limit], edges included, and leaves a disc that is already
      inside where it is. */
  lemma ClampAxisInside(p: real, r: real, limit: real)
    requires r >= 0.0 && 2.0 * r <= limit
    ensures r <= ClampAxis(p, r, limit) <= limit - r
    ensures r <= p <= limit - r ==> ClampAxis(p, r, limit) == p
  {
  }

  /** A spawned body lies inside a canvas at least 20 units on each side,
      and its velocity lies in [-50, 100) on each axis. */
  lemma SpawnedInside(mouseX: real, mouseY: real, u1: real, u2: real, width: real, height: real)
    requires width >= 2.0 * SPAWN_RADIUS && height >= 2.0 * SPAWN_RADIUS
    requires 0.0 <= u1 < 1.0 && 0.0 <= u2 < 1.0
    ensures var c := Spawned(mouseX, mouseY, u1, u2, width, height);
            0.0 <= c.x - c.r && c.x + c.r <= width &&
            0.0 <= c.y - c.r && c.y + c.r <= height &&
            -50.0 <= c.velocityX < 100.0 && -50.0 <= c.velocityY < 100.0
  {
    ClampAxisInside(mouseX, SPAWN_RADIUS, width);
    ClampAxisInside(mouseY, SPAWN_RADIUS, height);
    SpawnVelocityRange(u1);
    SpawnVelocityRange(u2);
  }
}
