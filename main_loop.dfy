/**
 * The game loop: every frame the runner is updated by the frame time, then respawned if it is
 * touched, and each respawn scores one point.
 */
module MainLoop {
  import opened Geometry
  import opened Host
  import opened Runners

  /** What the host supplies in one frame. */
  datatype FrameInput = FrameInput(
    frameTime: real,
    screen: Screen,
    rolls: Rolls,
    legLength: real,
    input: Input,
    spawn: Vec2)

  /**
   * The frame input is one the host can supply to runner r: a non-negative frame time, draws in
   * range, the true length of the next leg, a spawn point on the spawn circle, and not the 0 / 0
   * case of update.
   */
  predicate FrameOk(r: Snapshot, f: FrameInput) {
    f.frameTime >= 0.0 &&
    ValidScreen(f.screen) && RollsInRange(f.rolls, f.screen) &&
    IsLegLength(r.destination, f.rolls.destination, f.legLength) &&
    OnSpawnCircle(f.spawn, f.screen) &&
    !DividesByZero(r, f.frameTime)
  }

  /**
   * One frame: the runner after update and respawn_on_touch, and whether it was hit. A frame
   * the host can supply keeps the runner invariant.
   */
  function Tick(r: Snapshot, f: FrameInput): (res: (Snapshot, bool))
    requires !DividesByZero(r, f.frameTime)
    ensures Inv(r) && FrameOk(r, f) ==> Inv(res.0)
  {
    var moved := Step(r, f.frameTime, f.rolls, f.legLength);
    FrameStepKeepsInvariant(r, f);
    if IsTouched(moved, f.input) then (Spawned(f.spawn), true) else (moved, false)
  }

  /** The update of a frame the host can supply keeps the runner invariant. */
  lemma FrameStepKeepsInvariant(r: Snapshot, f: FrameInput)
    requires !DividesByZero(r, f.frameTime)
    ensures Inv(r) && FrameOk(r, f) ==> Inv(Step(r, f.frameTime, f.rolls, f.legLength))
  {
    if Inv(r) && FrameOk(r, f) {
      StepKeepsInvariant(r, f.frameTime, f.rolls, f.legLength, f.screen);
    }
  }

  /** Every frame of the sequence is one the host can supply to the runner it reaches. */
  predicate Admissible(r: Snapshot, frames: seq<FrameInput>)
    decreases |frames|
  {
    frames == [] ||
    (FrameOk(r, frames[0]) && Admissible(Tick(r, frames[0]).0, frames[1..]))
  }

  /**
   * The runner and score after the given frames, starting from runner r and the score. The
   * score never decreases and rises by at most one per frame.
   */
  function Run(r: Snapshot, score: nat, frames: seq<FrameInput>): (res: (Snapshot, nat))
    requires Admissible(r, frames)
    ensures score <= res.1 <= score + |frames|
    decreases |frames|
  {
    if frames == [] then (r, score)
    else
      var (next, hit) := Tick(r, frames[0]);
      Run(next, if hit then score + 1 else score, frames[1..])
  }

  /** Over any run, the clock and durations stay non-negative and the invariant holds throughout. */
  lemma {:induction false} RunKeepsInvariant(r: Snapshot, score: nat, frames: seq<FrameInput>)
    requires Inv(r) && Admissible(r, frames)
    ensures Inv(Run(r, score, frames).0)
    decreases |frames|
  {
    if frames != [] {
      var t := Tick(r, frames[0]);
      var score' := if t.1 then score + 1 else score;
      assert Run(r, score, frames) == Run(t.0, score', frames[1..]);
      RunKeepsInvariant(t.0, score', frames[1..]);
    }
  }

  /**
   * The scenario of an 800x600 screen with a waiting runner of radius 50 at (400, 300), tapped
   * at (400, 300): the tap hits, the score goes from 0 to 1 and the runner is a fresh one.
   */
  lemma TapScenario(rolls: Rolls, legLength: real, spawn: Vec2)
    requires OnSpawnCircle(spawn, Screen(800.0, 600.0))
    requires RollsInRange(rolls, Screen(800.0, 600.0))
    requires IsLegLength(Vec2(400.0, 300.0), rolls.destination, legLength)
    ensures var r := Snapshot(Vec2(400.0, 300.0), Vec2(400.0, 300.0), Vec2(400.0, 300.0), 0.0, 0.25, RADIUS, Wait);
      var f := FrameInput(0.0, Screen(800.0, 600.0), rolls, legLength,
                          Input(false, Vec2(0.0, 0.0), [Touch(Started, Vec2(400.0, 300.0))]), spawn);
      Admissible(r, [f]) && Run(r, 0, [f]) == (Spawned(spawn), 1)
  {
    var r := Snapshot(Vec2(400.0, 300.0), Vec2(400.0, 300.0), Vec2(400.0, 300.0), 0.0, 0.25, RADIUS, Wait);
    var f := FrameInput(0.0, Screen(800.0, 600.0), rolls, legLength,
                        Input(false, Vec2(0.0, 0.0), [Touch(Started, Vec2(400.0, 300.0))]), spawn);
    var moved := Step(r, f.frameTime, f.rolls, f.legLength);
    assert moved == r;
    assert Collide(moved, f.input.touches[0].position);
  }

  /**
   * The body of the main loop: update the runner by the frame time, then respawn it if it is
   * touched, adding one point for the hit.
   */
  method Frame(dot: Runner, score: nat, f: FrameInput) returns (newScore: nat)
    requires FrameOk(dot.Value(), f)
    modifies dot
    ensures (dot.Value(), newScore) ==
      (var (next, hit) := Tick(old(dot.Value()), f); (next, if hit then score + 1 else score))
    ensures newScore == score + 1 <==>
      IsTouched(Step(old(dot.Value()), f.frameTime, f.rolls, f.legLength), f.input)
    ensures newScore == score || newScore == score + 1
  {
    dot.Update(f.frameTime, f.rolls, f.legLength, f.screen);
    var hit := dot.RespawnOnTouch(f.input, f.spawn, f.screen);
    newScore := if hit then score + 1 else score;
  }

  /**
   * The main loop over a finite prefix of frames: a fresh runner and a score of 0, then one
   * Frame per frame input. The result is what Run computes, and the runner invariant holds.
   */
  method Play(spawn: Vec2, s: Screen, frames: seq<FrameInput>) returns (dot: Runner, score: nat)
    requires ValidScreen(s) && OnSpawnCircle(spawn, s)
    requires Admissible(Spawned(spawn), frames)
    ensures (dot.Value(), score) == Run(Spawned(spawn), 0, frames)
    ensures Inv(dot.Value()) && score <= |frames|
  {
    dot := new Runner.Default(spawn, s);
    score := 0;
    var i := 0;
    while i < |frames|
      invariant 0 <= i <= |frames|
      invariant Admissible(dot.Value(), frames[i..])
      invariant Run(dot.Value(), score, frames[i..]) == Run(Spawned(spawn), 0, frames)
    {
      assert frames[i..][1..] == frames[i + 1..];
      score := Frame(dot, score, frames[i]);
      i := i + 1;
    }
    assert frames[i..] == [];
    RunKeepsInvariant(Spawned(spawn), 0, frames);
  }
}
