/**
 * The runner: a dot that alternates between travelling a straight leg (LinearRun) and pausing
 * (Wait), driven by the time elapsed per frame, and that respawns when it is touched.
 */
module Runners {
  import opened Geometry
  import opened Host

  datatype RunnerState = LinearRun | Wait

  /** The radius of every fresh runner, in pixels. */
  const RADIUS: real := 50.0

  /** The fields of a runner as one value. */
  datatype Snapshot = Snapshot(
    position: Vec2,
    source: Vec2,
    destination: Vec2,
    currentTime: real,
    destinationTime: real,
    radius: real,
    state: RunnerState)

  /** The random draws one update may use, one per gen_range call of the Rust program. */
  datatype Rolls = Rolls(wait: real, destination: Vec2, speed: real)

  /**
   * The ranges gen_range guarantees: a pause in [0, 0.5) seconds, a destination on the screen,
   * and a time factor in [0.0001, 0.001) seconds per pixel.
   */
  predicate RollsInRange(rolls: Rolls, s: Screen): (b: bool)
    ensures b ==> 0.0 <= rolls.wait < 0.5 && 0.0001 <= rolls.speed < 0.001
    ensures b && ValidScreen(s) ==> OnScreen(rolls.destination, s)
  {
    GenRange(rolls.wait, 0.0, 0.5) &&
    GenRange(rolls.destination.x, 0.0, s.width) &&
    GenRange(rolls.destination.y, 0.0, s.height) &&
    GenRange(rolls.speed, 0.0001, 0.001)
  }

  /** len is the Euclidean distance from `from` to `to` (glam's distance, a square root). */
  predicate IsLegLength(from: Vec2, to: Vec2, len: real) {
    len >= 0.0 && len * len == DistanceSquared(from, to)
  }

  /** A fresh runner (Default for Runner): at rest at its spawn point, waiting for no time. */
  function Spawned(spawn: Vec2): (r: Snapshot)
    ensures Inv(r)
  {
    Snapshot(spawn, spawn, spawn, 0.0, 0.0, RADIUS, Wait)
  }

  /** Adding frameTime to the clock passes the end of the current segment. */
  predicate Finished(r: Snapshot, frameTime: real) {
    r.currentTime + frameTime > r.destinationTime
  }

  /**
   * The case in which update divides by a zero destination time: an unfinished leg of zero
   * duration. On f32 forcats computes NaN there; exact reals have no value for it.
   */
  predicate DividesByZero(r: Snapshot, frameTime: real) {
    r.state == LinearRun && !Finished(r, frameTime) && r.destinationTime == 0.0
  }

  /** How far along its segment the runner is, as a fraction (0 for a segment of no duration). */
  function Progress(r: Snapshot): (t: real)
    ensures 0.0 <= r.currentTime <= r.destinationTime ==> 0.0 <= t <= 1.0
  {
    if r.destinationTime == 0.0 then 0.0 else r.currentTime / r.destinationTime
  }

  /**
   * What update keeps true: the clock lies within the segment; a waiting runner sits at its
   * destination; a running runner is where linear motion puts it; the radius is the fresh one.
   */
  ghost predicate Inv(r: Snapshot): (b: bool)
    ensures b ==> 0.0 <= Progress(r) <= 1.0
  {
    0.0 <= r.currentTime <= r.destinationTime &&
    r.radius == RADIUS &&
    (r.state == Wait ==> r.position == r.destination) &&
    (r.state == LinearRun ==> r.position == Lerp(r.source, r.destination, Progress(r)))
  }

  /**
   * One update by frameTime seconds. A finished segment snaps the runner to its destination,
   * restarts the clock and switches state: a finished leg becomes a pause, a finished pause
   * becomes a new leg from the snapped position to a random destination, timed by its length.
   * An unfinished leg moves the runner by interpolation; an unfinished pause only runs the clock.
   */
  function Step(r: Snapshot, frameTime: real, rolls: Rolls, legLength: real): (r': Snapshot)
    requires !DividesByZero(r, frameTime)
    ensures r'.radius == r.radius
    ensures r'.state != r.state <==> Finished(r, frameTime)
    ensures r'.currentTime == if Finished(r, frameTime) then 0.0 else r.currentTime + frameTime
  {
    var elapsed := r.currentTime + frameTime;
    if elapsed > r.destinationTime then
      match r.state
      case LinearRun =>
        r.(position := r.destination, currentTime := 0.0, destinationTime := rolls.wait, state := Wait)
      case Wait =>
        Snapshot(r.destination, r.destination, rolls.destination, 0.0,
                 legLength * rolls.speed, r.radius, LinearRun)
    else
      match r.state
      case LinearRun =>
        r.(currentTime := elapsed, position := Lerp(r.source, r.destination, elapsed / r.destinationTime))
      case Wait =>
        r.(currentTime := elapsed)
  }

  /**
   * The point lies within the runner's disc (distance_squared <= radius * radius); the runner's
   * own position always does.
   */
  predicate Collide(r: Snapshot, point: Vec2): (b: bool)
    ensures point == r.position ==> b
  {
    assert r.radius * r.radius >= 0.0;
    DistanceSquared(r.position, point) <= r.radius * r.radius
  }

  /** Some touch that is not cancelled lies within the runner's disc (an `any` over the touches). */
  function AnyTouchCollides(r: Snapshot, touches: seq<Touch>): (b: bool)
    ensures b <==> exists i :: 0 <= i < |touches| && touches[i].phase != Cancelled && Collide(r, touches[i].position)
  {
    if touches == [] then false
    else
      (touches[0].phase != Cancelled && Collide(r, touches[0].position)) ||
      (var rest := AnyTouchCollides(r, touches[1..]);
       assert forall i :: 1 <= i < |touches| ==> touches[i] == touches[1..][i - 1];
       rest)
  }

  /** The runner is touched: by the left mouse button held over it, or by a live touch on it. */
  function IsTouched(r: Snapshot, input: Input): (b: bool)
    ensures b <==>
      (input.mouseLeftDown && Collide(r, input.mousePosition)) ||
      (exists i :: 0 <= i < |input.touches| && input.touches[i].phase != Cancelled &&
                   Collide(r, input.touches[i].position))
  {
    (input.mouseLeftDown && Collide(r, input.mousePosition)) || AnyTouchCollides(r, input.touches)
  }

  // ---------------------------------------------------------------------------------------
  // Properties of one update

  /** State changes exactly when the segment finishes: it alternates, and only then. */
  lemma StateAlternates(r: Snapshot, frameTime: real, rolls: Rolls, legLength: real)
    requires !DividesByZero(r, frameTime)
    ensures var r' := Step(r, frameTime, rolls, legLength);
      (Finished(r, frameTime) ==> (r.state == LinearRun ==> r'.state == Wait) &&
                                  (r.state == Wait ==> r'.state == LinearRun)) &&
      (!Finished(r, frameTime) ==> r'.state == r.state)
  {
  }

  /** A finished segment snaps the runner to the old destination and restarts the clock. */
  lemma StepSnapsToDestination(r: Snapshot, frameTime: real, rolls: Rolls, legLength: real)
    requires Finished(r, frameTime)
    ensures var r' := Step(r, frameTime, rolls, legLength);
      r'.position == r.destination && r'.currentTime == 0.0
  {
  }

  /** A finished leg starts a pause of less than half a second at the destination. */
  lemma StepStartsPause(r: Snapshot, frameTime: real, rolls: Rolls, legLength: real, s: Screen)
    requires r.state == LinearRun && Finished(r, frameTime)
    requires RollsInRange(rolls, s)
    ensures var r' := Step(r, frameTime, rolls, legLength);
      r'.state == Wait &&
      r'.position == r.destination && r'.destination == r.destination &&
      r'.destinationTime == rolls.wait && 0.0 <= r'.destinationTime < 0.5
  {
  }

  /**
   * A finished pause starts a leg from the snapped position to a destination on the screen,
   * lasting its length times a factor in [0.0001, 0.001), so never a negative time.
   */
  lemma StepStartsLeg(r: Snapshot, frameTime: real, rolls: Rolls, legLength: real, s: Screen)
    requires r.state == Wait && Finished(r, frameTime)
    requires ValidScreen(s) && RollsInRange(rolls, s)
    requires IsLegLength(r.destination, rolls.destination, legLength)
    ensures var r' := Step(r, frameTime, rolls, legLength);
      r'.state == LinearRun &&
      r'.source == r'.position == r.destination &&
      r'.destination == rolls.destination &&
      GenRange(r'.destination.x, 0.0, s.width) && GenRange(r'.destination.y, 0.0, s.height) &&
      IsLegLength(r'.source, r'.destination, legLength) &&
      r'.destinationTime == legLength * rolls.speed &&
      0.0001 * legLength <= r'.destinationTime &&
      (legLength > 0.0 ==> r'.destinationTime < 0.001 * legLength)
  {
    assert 0.0001 <= rolls.speed < 0.001;
  }

  /** An unfinished pause changes nothing but the clock. */
  lemma StepWaits(r: Snapshot, frameTime: real, rolls: Rolls, legLength: real)
    requires r.state == Wait && !Finished(r, frameTime)
    ensures Step(r, frameTime, rolls, legLength) == r.(currentTime := r.currentTime + frameTime)
  {
  }

  /**
   * An unfinished leg keeps its endpoints and duration, and puts the runner at the fraction t
   * of the way along it, with t in [0, 1].
   */
  lemma StepMovesAlongLeg(r: Snapshot, frameTime: real, rolls: Rolls, legLength: real)
    requires Inv(r) && frameTime >= 0.0
    requires r.state == LinearRun && !Finished(r, frameTime) && r.destinationTime > 0.0
    ensures var r' := Step(r, frameTime, rolls, legLength);
      var t := r'.currentTime / r.destinationTime;
      r'.source == r.source && r'.destination == r.destination &&
      r'.destinationTime == r.destinationTime && r'.state == LinearRun &&
      0.0 <= t <= 1.0 &&
      r'.position == Lerp(r.source, r.destination, t) &&
      DistanceSquared(r.source, r'.position) == t * t * DistanceSquared(r.source, r.destination) &&
      DistanceSquared(r'.position, r.destination) ==
        (1.0 - t) * (1.0 - t) * DistanceSquared(r.source, r.destination)
  {
    var r' := Step(r, frameTime, rolls, legLength);
    var t := r'.currentTime / r.destinationTime;
    FractionInUnit(r'.currentTime, r.destinationTime);
    LerpOnSegment(r.source, r.destination, t);
  }

  /**
   * Under the invariant and a non-negative frame time, update divides by zero exactly when the
   * runner is on a leg of zero duration and the frame time is zero (so 0 / 0).
   */
  lemma DividesByZeroExactly(r: Snapshot, frameTime: real)
    requires Inv(r) && frameTime >= 0.0
    ensures DividesByZero(r, frameTime) <==>
      r.state == LinearRun && r.destinationTime == 0.0 && frameTime == 0.0
    ensures DividesByZero(r, frameTime) ==> r.currentTime == 0.0
  {
  }

  /**
   * A zero-length leg is reachable: when a pause ends and the random destination is the point
   * the runner stands on, the new leg has duration 0, and a following zero-time frame would
   * divide 0 by 0.
   */
  lemma ZeroLengthLegReachable(r: Snapshot, frameTime: real, rolls: Rolls, legLength: real)
    requires r.state == Wait && Finished(r, frameTime)
    requires rolls.destination == r.destination
    requires IsLegLength(r.destination, rolls.destination, legLength)
    ensures DividesByZero(Step(r, frameTime, rolls, legLength), 0.0)
  {
    assert legLength * legLength == 0.0;
    if legLength > 0.0 {
      assert legLength * legLength > 0.0;
    }
  }

  /**
   * With a non-negative frame time and in-range draws, update keeps the invariant: in
   * particular neither time goes negative and the radius is unchanged.
   */
  lemma StepKeepsInvariant(r: Snapshot, frameTime: real, rolls: Rolls, legLength: real, s: Screen)
    requires Inv(r) && frameTime >= 0.0 && !DividesByZero(r, frameTime)
    requires RollsInRange(rolls, s) && legLength >= 0.0
    ensures Inv(Step(r, frameTime, rolls, legLength))
  {
    var r' := Step(r, frameTime, rolls, legLength);
    if Finished(r, frameTime) && r.state == Wait {
      assert 0.0 <= rolls.speed;
      assert r'.destinationTime == legLength * rolls.speed >= 0.0;
      assert Progress(r') == 0.0;
    }
  }

  // ---------------------------------------------------------------------------------------
  // Spawning and hit-testing

  /** A fresh runner is at rest: no motion pending, the clock at zero, waiting, radius 50. */
  lemma SpawnedAtRest(spawn: Vec2)
    ensures var r := Spawned(spawn);
      r.position == r.source == r.destination == spawn &&
      r.currentTime == 0.0 && r.destinationTime == 0.0 &&
      r.state == Wait && r.radius == 50.0
  {
  }

  /** The first update of a fresh runner by a positive frame time sets off on a leg from the spawn point. */
  lemma SpawnedLeavesAtOnce(spawn: Vec2, frameTime: real, rolls: Rolls, legLength: real)
    requires frameTime > 0.0
    ensures var r' := Step(Spawned(spawn), frameTime, rolls, legLength);
      r'.state == LinearRun && r'.source == spawn && r'.destination == rolls.destination
  {
  }

  /**
   * A point hits the runner exactly when its distance from the runner is at most the radius;
   * so a point at distance radius + e, for e > 0, misses.
   */
  lemma CollideIffWithinRadius(r: Snapshot, point: Vec2, distance: real)
    requires r.radius >= 0.0
    requires IsLegLength(r.position, point, distance)
    ensures Collide(r, point) <==> distance <= r.radius
  {
    SquaresOrdered(distance, r.radius);
  }

  /** For non-negative reals, comparing squares compares the numbers. */
  lemma SquaresOrdered(d: real, q: real)
    requires d >= 0.0 && q >= 0.0
    ensures d * d <= q * q <==> d <= q
  {
    assert d * d - q * q == (d - q) * (d + q);
    if d > q {
      assert d - q > 0.0 && d + q > 0.0;
      assert (d - q) * (d + q) > 0.0;
    } else {
      assert d - q <= 0.0 && d + q >= 0.0;
      assert (d - q) * (d + q) <= 0.0;
    }
  }

  /** The scenario of a leg from (0, 0) to (100, 0) lasting 1 s: at 0.5 s it is at (50, 0). */
  lemma HalfwayScenario(rolls: Rolls, legLength: real)
    ensures var r := Snapshot(Vec2(25.0, 0.0), Vec2(0.0, 0.0), Vec2(100.0, 0.0), 0.25, 1.0, RADIUS, LinearRun);
      Step(r, 0.25, rolls, legLength).position == Vec2(50.0, 0.0)
  {
  }

  // ---------------------------------------------------------------------------------------
  // The runner object

  class Runner {
    var position: Vec2
    var sourcePosition: Vec2
    var destinationPosition: Vec2
    var currentTime: real
    var destinationTime: real
    var radius: real
    var state: RunnerState

    /** The runner's fields as one value. */
    function Value(): Snapshot
      reads this
    {
      Snapshot(position, sourcePosition, destinationPosition, currentTime, destinationTime, radius, state)
    }

    /** Default for Runner: a fresh runner at the spawn point drawn on the spawn circle. */
    constructor Default(spawn: Vec2, s: Screen)
      requires ValidScreen(s) && OnSpawnCircle(spawn, s)
      ensures Value() == Spawned(spawn)
    {
      sourcePosition := spawn;
      destinationPosition := spawn;
      currentTime := 0.0;
      destinationTime := 0.0;
      state := Wait;
      position := spawn;
      radius := RADIUS;
    }

    /**
     * update: advance the runner by frameTime seconds. The draws must lie in the ranges gen_range
     * gives for the screen, and legLength is the distance from the current destination to the
     * drawn one. The one input the Rust program cannot handle, division of time by zero, is excluded.
     */
    method Update(frameTime: real, rolls: Rolls, legLength: real, s: Screen)
      requires ValidScreen(s) && RollsInRange(rolls, s)
      requires IsLegLength(destinationPosition, rolls.destination, legLength)
      requires !DividesByZero(Value(), frameTime)
      modifies this
      ensures Value() == Step(old(Value()), frameTime, rolls, legLength)
      ensures frameTime >= 0.0 && old(Inv(Value())) ==> Inv(Value())
      ensures radius == old(radius)
    {
      ghost var before := Value();
      currentTime := currentTime + frameTime;
      if currentTime > destinationTime {
        position := destinationPosition;
        currentTime := 0.0;
        match state
        case LinearRun =>
          destinationTime := rolls.wait;
          state := Wait;
        case Wait =>
          sourcePosition := position;
          destinationPosition := rolls.destination;
          destinationTime := legLength * rolls.speed;
          state := LinearRun;
      } else {
        match state
        case LinearRun =>
          position := Lerp(sourcePosition, destinationPosition, currentTime / destinationTime);
        case Wait =>
      }
      if frameTime >= 0.0 && Inv(before) {
        StepKeepsInvariant(before, frameTime, rolls, legLength, s);
      }
    }

    /**
     * respawn_on_touch: when the runner is touched it is replaced wholesale by a fresh runner at
     * the given spawn point, and the hit is reported; otherwise nothing changes.
     */
    method RespawnOnTouch(input: Input, spawn: Vec2, s: Screen) returns (hit: bool)
      requires ValidScreen(s) && OnSpawnCircle(spawn, s)
      modifies this
      ensures hit == IsTouched(old(Value()), input)
      ensures Value() == if hit then Spawned(spawn) else old(Value())
    {
      if IsTouched(Value(), input) {
        position, sourcePosition, destinationPosition := spawn, spawn, spawn;
        currentTime, destinationTime := 0.0, 0.0;
        radius, state := RADIUS, Wait;
        hit := true;
      } else {
        hit := false;
      }
    }
  }
}
