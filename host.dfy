/**
 * What the runner reads from its host framework (macroquad): the screen size, the random draws
 * of gen_range, the mouse and touch input, and the spawn point of a fresh runner. Each becomes a
 * value the caller passes in, constrained to the range the framework guarantees.
 */
module Host {
  import opened Geometry

  /** The screen size in pixels (screen_width, screen_height). */
  datatype Screen = Screen(width: real, height: real)

  predicate ValidScreen(s: Screen) {
    s.width >= 0.0 && s.height >= 0.0
  }

  /** The centre of the screen, which lies on the screen. */
  function Centre(s: Screen): (c: Vec2)
    ensures ValidScreen(s) ==> OnScreen(c, s)
  {
    Vec2(s.width / 2.0, s.height / 2.0)
  }

  /** The point lies on the screen, edges included. */
  predicate OnScreen(p: Vec2, s: Screen) {
    0.0 <= p.x <= s.width && 0.0 <= p.y <= s.height
  }

  /**
   * v is a possible result of gen_range(low, high) on floats: a value in [low, high), or low
   * itself when the range is empty.
   */
  predicate GenRange(v: real, low: real, high: real) {
    if low < high then low <= v < high else v == low
  }

  /**
   * p is a possible spawn point of a fresh runner: it lies on the circle around the screen centre
   * whose radius is twice the centre's distance from the origin (the angle is random).
   */
  predicate OnSpawnCircle(p: Vec2, s: Screen) {
    DistanceSquared(Centre(s), p) == 4.0 * LengthSquared(Centre(s))
  }

  /**
   * random_initial_position: the centre plus the polar vector of length 2 * |centre| in the
   * direction dir = (cos a, sin a) of the random angle a. The square root |centre| is passed in as
   * centreLength. The result lies on the spawn circle.
   */
  function InitialPosition(s: Screen, dir: Vec2, centreLength: real): (p: Vec2)
    requires dir.x * dir.x + dir.y * dir.y == 1.0
    requires centreLength >= 0.0 && centreLength * centreLength == LengthSquared(Centre(s))
    ensures OnSpawnCircle(p, s)
  {
    var c := Centre(s);
    var radius := centreLength * 2.0;
    var p := Vec2(dir.x * radius + c.x, dir.y * radius + c.y);
    assert c.x - p.x == -(dir.x * radius) && c.y - p.y == -(dir.y * radius);
    assert (dir.x * radius) * (dir.x * radius) + (dir.y * radius) * (dir.y * radius)
        == (dir.x * dir.x + dir.y * dir.y) * (radius * radius);
    assert radius * radius == 4.0 * (centreLength * centreLength);
    p
  }

  /** The phase macroquad reports for a touch point. */
  datatype TouchPhase = Started | Stationary | Moved | Ended | Cancelled

  datatype Touch = Touch(phase: TouchPhase, position: Vec2)

  /** The input of one frame: the left mouse button, the mouse position, and the active touches. */
  datatype Input = Input(mouseLeftDown: bool, mousePosition: Vec2, touches: seq<Touch>)

  /** Every point of the screen is within half the diagonal of the centre. */
  lemma OnScreenNearCentre(q: Vec2, s: Screen)
    requires OnScreen(q, s)
    ensures DistanceSquared(Centre(s), q) <= LengthSquared(Centre(s))
  {
    var c := Centre(s);
    var dx, dy := c.x - q.x, c.y - q.y;
    // (w/2 - x)^2 - (w/2)^2 == x * (x - w), which is at most 0 on the screen
    assert dx * dx - c.x * c.x == q.x * (q.x - s.width);
    ProductNonPositive(q.x, q.x - s.width);
    assert dy * dy - c.y * c.y == q.y * (q.y - s.height);
    ProductNonPositive(q.y, q.y - s.height);
  }

  /** A non-negative number times a non-positive one is non-positive. */
  lemma ProductNonPositive(a: real, b: real)
    requires a >= 0.0 && b <= 0.0
    ensures a * b <= 0.0
  {
    assert a * (-b) >= 0.0;
  }

  /**
   * A runner spawns strictly farther from the screen centre than any point of a screen of
   * non-zero size (one whose centre is not the origin), so it spawns off-screen and has to
   * travel inwards.
   */
  lemma SpawnOffScreen(spawn: Vec2, s: Screen, q: Vec2)
    requires ValidScreen(s) && LengthSquared(Centre(s)) > 0.0
    requires OnSpawnCircle(spawn, s)
    requires OnScreen(q, s)
    ensures DistanceSquared(Centre(s), q) < DistanceSquared(Centre(s), spawn)
    ensures spawn != q
  {
    var c := Centre(s);
    var l := LengthSquared(c);
    OnScreenNearCentre(q, s);
    assert DistanceSquared(c, q) <= l < 4.0 * l;
  }
}
