/** Plane geometry the runner needs from glam's Vec2, over exact reals in place of f32. */
module Geometry {

  /** A screen point or displacement in pixels. */
  datatype Vec2 = Vec2(x: real, y: real)

  /** Squared Euclidean distance between two points (glam's distance_squared): never negative. */
  function DistanceSquared(a: Vec2, b: Vec2): (d: real)
    ensures d >= 0.0
    ensures a == b ==> d == 0.0
  {
    var dx, dy := a.x - b.x, a.y - b.y;
    assert dx * dx >= 0.0 && dy * dy >= 0.0;
    dx * dx + dy * dy
  }

  /** Squared length of a vector measured from the origin (glam's length_squared). */
  function LengthSquared(a: Vec2): real {
    a.x * a.x + a.y * a.y
  }

  /**
   * Linear interpolation from a towards b by the parameter t (glam's lerp: a + (b - a) * t). It
   * starts at a and ends at b.
   */
  function Lerp(a: Vec2, b: Vec2, t: real): (p: Vec2)
    ensures t == 0.0 ==> p == a
    ensures t == 1.0 ==> p == b
  {
    Vec2(a.x + (b.x - a.x) * t, a.y + (b.y - a.y) * t)
  }

  /**
   * The interpolated point lies on the line through a and b: it is the fraction t of the way
   * from a, and the fraction 1 - t of the way from b (on the segment itself when 0 <= t <= 1).
   */
  lemma LerpOnSegment(a: Vec2, b: Vec2, t: real)
    ensures DistanceSquared(a, Lerp(a, b, t)) == t * t * DistanceSquared(a, b)
    ensures DistanceSquared(Lerp(a, b, t), b) == (1.0 - t) * (1.0 - t) * DistanceSquared(a, b)
  {
    var p := Lerp(a, b, t);
    var dx, dy := b.x - a.x, b.y - a.y;
    assert a.x - p.x == -(dx * t) && a.y - p.y == -(dy * t);
    assert p.x - b.x == -(dx * (1.0 - t)) && p.y - b.y == -(dy * (1.0 - t));
    assert (a.x - b.x) * (a.x - b.x) == dx * dx;
    assert (a.y - b.y) * (a.y - b.y) == dy * dy;
    assert (dx * t) * (dx * t) + (dy * t) * (dy * t) == t * t * (dx * dx + dy * dy);
    var u := 1.0 - t;
    assert (dx * u) * (dx * u) + (dy * u) * (dy * u) == u * u * (dx * dx + dy * dy);
  }

  /** A quotient of a non-negative time by a larger positive time is a parameter in [0, 1]. */
  lemma FractionInUnit(elapsed: real, total: real)
    requires 0.0 <= elapsed <= total
    requires total > 0.0
    ensures 0.0 <= elapsed / total <= 1.0
  {
    var q := elapsed / total;
    assert q * total == elapsed;
    assert (1.0 - q) * total == total - elapsed >= 0.0;
  }
}
