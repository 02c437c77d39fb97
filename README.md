# forcats runner, modelled in Dafny

forcats is a small touch game. A red dot, the *runner*, wanders over the screen. Each frame
the main loop moves the runner by the frame time. If a click or touch lands on the runner, the
runner is replaced by a fresh one that spawns off-screen, and the score goes up by one.

The runner is a two-state timer machine:

- `LinearRun`: it travels a straight leg from `source_position` to `destination_position`,
  in `destination_time` seconds.
- `Wait`: it pauses at the destination for `destination_time` seconds.

Every update first adds the frame time to `current_time`. If the segment is then over, the
runner snaps to the destination, the clock restarts at 0, and the state switches:

- a finished leg becomes a pause of a random length in [0, 0.5) s;
- a finished pause becomes a new leg to a random point on the screen. The leg lasts its
  length times a random factor in [0.0001, 0.001) s per pixel.

While a leg is in progress, the runner is placed by linear interpolation.

The project has four modules:

- `Geometry` (geometry.dfy): the parts of glam's `Vec2` that the program uses, over exact
  reals. `distance_squared` and `lerp` are modelled directly. `distance` (src/main.rs:42) and
  `length` (src/main.rs:26) are square roots, so they are represented through their squares:
  `DistanceSquared` and `LengthSquared`, with the root itself passed in (`IsLegLength`,
  `InitialPosition`).
- `Host` (host.dfy): what the runner reads from macroquad, turned into values the caller
  passes in. These are the screen size, the possible results of `gen_range`, the spawn circle
  and the mouse/touch input.
- `Runners` (runner.dfy): the runner. `Snapshot` holds its fields as one value. `Step`,
  `Collide`, `IsTouched` and `Spawned` are pure definitions. The class `Runner` has the
  program's mutable fields and the methods `Update` and `RespawnOnTouch`, each proved equal to
  the pure definitions. The invariant `Inv` says:
  - 0 ≤ `current_time` ≤ `destination_time`;
  - the radius is 50;
  - a waiting runner sits at its destination;
  - a running runner is at `Lerp(source, destination, Progress)`, where `Progress` is
    `current_time / destination_time`, or 0 for a leg of zero duration.
- `MainLoop` (main_loop.dfy): the body of `main`'s loop (`Frame`: update, then respawn and
  score) and a finite run of it (`Play`), specified by the pure `Tick` and `Run`.

Every value the program takes from macroquad is a parameter. Most are constrained by
preconditions:

- the screen size is ≥ 0;
- each `gen_range(low, high)` result lies in [low, high), or equals low when the range is
  empty;
- the spawn point lies on the circle of radius 2·|centre| around the screen centre;
- the leg length is the Euclidean distance. It is a square root, which exact reals cannot
  compute, so it is passed in with `len ≥ 0 ∧ len² = distance_squared`.

The frame time is not otherwise constrained by `Step` or `Runner.Update`: they accept any frame
time except the division-by-zero case listed under "Left out".
A frame time ≥ 0 is the hypothesis under which `Update` and `Tick` keep the invariant, and it
is part of `FrameOk`, the condition on a frame that `Run` and `Play` require.

## Model

| member | source | states |
|---|---|---|
| `Geometry.DistanceSquared` | src/main.rs:68 | glam's distance_squared: never negative, and 0 from a point to itself |
| `Geometry.Lerp` | src/main.rs:49-50 | glam's lerp a + (b − a)·t: at parameter 0 it is the source point, at 1 the destination point |
| `Geometry.LerpOnSegment` | src/main.rs:49-50 | for every t, the interpolated point's squared distances from the source and the destination are t² and (1 − t)² times the leg's squared length, so it lies on the line through both ends; it is on the leg itself only for 0 ≤ t ≤ 1, which `StepMovesAlongLeg` supplies |
| `Geometry.FractionInUnit` | src/main.rs:50 | the interpolation parameter current_time / destination_time lies in [0, 1] when 0 ≤ current_time ≤ destination_time and destination_time > 0 |
| `Host.Centre` | src/main.rs:25 | the screen centre (width / 2, height / 2) lies on the screen |
| `Host.OnSpawnCircle` | src/main.rs:26 | definition: the point's squared distance from the centre is 4·\|centre\|², the circle of radius 2·\|centre\| on which the program spawns |
| `Host.InitialPosition` | src/main.rs:24-27 | random_initial_position: centre + 2·\|centre\|·(cos a, sin a), with the direction a unit vector and \|centre\| passed in; the result lies on the spawn circle |
| `Host.GenRange` | src/main.rs:21 | definition: a possible result of gen_range(low, high) is in [low, high), or low itself when the range is empty |
| `Host.OnScreenNearCentre` | src/main.rs:25 | every point on the screen is within half the diagonal of the screen centre |
| `Host.SpawnOffScreen` | src/main.rs:24-27 | a spawn point on the circle of radius 2·\|centre\| is strictly farther from the centre than any screen point, so it is off-screen |
| `Runners.RollsInRange` | src/main.rs:20-22 | the draws of one update are possible gen_range results: the pause lies in [0, 0.5) s, the factor in [0.0001, 0.001) s per pixel (src/main.rs:36, 42), and on a screen of non-negative size the destination lies on the screen |
| `Runners.Inv` | src/main.rs:29-55 | the invariant update keeps: 0 ≤ current_time ≤ destination_time, radius 50, a waiting runner at its destination, a running one at lerp(source, destination, progress); under it the progress lies in [0, 1] |
| `Runners.Collide` | src/main.rs:67-69 | definition: distance_squared(position, point) ≤ radius²; the runner's own position always collides |
| `Runners.Step` | src/main.rs:29-55 | update keeps the radius; the state changes exactly when the segment has finished; the clock is reset to 0 on completion and otherwise advanced by the frame time |
| `Runners.Progress` | src/main.rs:50 | the interpolation parameter current_time / destination_time lies in [0, 1] whenever 0 ≤ current_time ≤ destination_time (0 for a leg of no duration) |
| `Runners.Spawned` | src/main.rs:87-99 | a default runner satisfies the invariant |
| `Runners.AnyTouchCollides` | src/main.rs:74 | the `any` over touches is true iff some touch that is not cancelled lies in the runner's disc |
| `Runners.IsTouched` | src/main.rs:71-75 | touched iff the left mouse button is down over the runner, or some non-cancelled touch lies in its disc |
| `Runners.StateAlternates` | src/main.rs:34-54 | a finished LinearRun becomes Wait, a finished Wait becomes LinearRun, and an unfinished step keeps the state |
| `Runners.StepSnapsToDestination` | src/main.rs:30-33 | when current_time + frame_time exceeds destination_time, the new position is the old destination and current_time is 0 |
| `Runners.StepStartsPause` | src/main.rs:35-37 | a finished leg becomes a Wait at the destination, with a drawn duration in [0, 0.5) |
| `Runners.StepStartsLeg` | src/main.rs:39-43 | a finished pause starts a leg from the snapped position to a drawn on-screen destination, lasting distance × factor, between 0.0001 and 0.001 times the distance, hence ≥ 0 |
| `Runners.StepWaits` | src/main.rs:52 | an unfinished pause changes nothing but current_time |
| `Runners.StepMovesAlongLeg` | src/main.rs:48-51 | an unfinished leg keeps its endpoints and duration and puts the runner at lerp(source, destination, t), with t in [0, 1] and the runner on the segment |
| `Runners.DividesByZeroExactly` | src/main.rs:46-51 | under the invariant and a frame time ≥ 0, the division in update is by zero exactly for a zero-duration leg and a zero frame time, where it is 0 / 0 |
| `Runners.ZeroLengthLegReachable` | src/main.rs:39-50 | a pause that ends with the drawn destination equal to the current position gives a leg of duration 0, so the 0 / 0 case is reachable |
| `Runners.StepKeepsInvariant` | src/main.rs:29-55 | with frame_time ≥ 0 and in-range draws, update keeps 0 ≤ current_time ≤ destination_time, the radius, and the position invariant of each state |
| `Runners.SpawnedAtRest` | src/main.rs:87-99 | a default runner has position = source = destination = spawn point, both times 0, state Wait and radius 50 |
| `Runners.SpawnedLeavesAtOnce` | src/main.rs:29-43 | the first update of a fresh runner by a positive frame time starts a leg from the spawn point to the drawn destination |
| `Runners.CollideIffWithinRadius` | src/main.rs:67-69 | for radius ≥ 0, a point collides iff its distance from the runner is at most the radius, so a point at radius + ε misses |
| `Runners.HalfwayScenario` | src/main.rs:48-51 | a leg from (0,0) to (100,0) lasting 1 s puts the runner at (50,0) at 0.5 s |
| `Runners.Runner.Default` | src/main.rs:87-99 | the constructor yields exactly the default runner at the spawn point |
| `Runners.Runner.Update` | src/main.rs:29-55 | the new fields are Step of the old ones; the invariant is kept for frame_time ≥ 0; the radius is unchanged |
| `Runners.Runner.RespawnOnTouch` | src/main.rs:77-84 | returns true iff touched; then the whole runner equals a default one at the spawn point; otherwise nothing changes |
| `MainLoop.Tick` | src/main.rs:119-120 | one frame (update, then respawn) that the host can supply keeps the runner invariant |
| `MainLoop.Run` | src/main.rs:117-120 | the loop over a finite sequence of admissible frames; the score never decreases and rises by at most one per frame |
| `MainLoop.RunKeepsInvariant` | src/main.rs:117-120 | over any admissible sequence of frames (draws in range, true leg lengths, spawn points on the circle, frame time ≥ 0, and no 0 / 0 frame) the invariant holds at the end, so neither time ever becomes negative |
| `MainLoop.TapScenario` | src/main.rs:77-84 | on an 800×600 screen, a waiting runner of radius 50 at (400,300) tapped at (400,300) is hit: the score goes from 0 to 1 and the runner becomes a default one |
| `MainLoop.Frame` | src/main.rs:118-120 | one loop iteration gives the runner after update and respawn, and the score rises by exactly 1 iff the updated runner was touched |
| `MainLoop.Play` | src/main.rs:115-120 | a fresh runner and score 0, then the given frames: the result is Run's, the invariant holds and the score is at most the number of frames |

## Left out

- `draw` (src/main.rs:57-65) is not modelled. It only renders, through macroquad's `draw_circle`.
- `window_conf`, `clear_background`, `draw_text`, `next_frame().await` and
  `simulate_mouse_with_touch` (src/main.rs:102-126) are not modelled. They are windowing,
  rendering and async plumbing.
- `main`'s loop never ends. `Play` models a finite prefix of it. `Frame` models one iteration.
- `random_initial_position` (src/main.rs:24-27) is modelled by `InitialPosition` without its
  trigonometry: the cosine and sine of the random angle are passed in as a unit vector, and
  \|centre\| as a parameter whose square is length_squared. The angle's uniform distribution
  in [0, 2π) is not modelled. `Runner.Default`, `RespawnOnTouch` and `Frame` take any spawn
  point on the spawn circle, which includes every result of `InitialPosition`.
- `gen_range` is modelled only by the range of its result. Its distribution and the state of
  the random generator are not modelled. All draws are passed to `Update`, including those
  that the branch taken does not use.
- The leg length (glam's `distance`, a square root) is a parameter with the precondition
  `len ≥ 0 ∧ len² = distance_squared`. Exact reals have no square root.
- f32 rounding, overflow and NaN are not modelled: all fields are exact reals. This includes
  the case where f32 rounding makes `gen_range` return its upper bound.
- `Runners.Runner.Update` excludes, by precondition, the inputs where the program divides by
  zero. Such an input is a LinearRun leg of duration 0 that is not finished. Under the
  invariant alone this means current_time = 0 and frame_time ≤ 0. Under the invariant and a
  non-negative frame time it means current_time = frame_time = 0. On f32 the program then
  computes 0 / 0 = NaN, or −inf for a negative frame time, and places the runner there for
  that frame. `DividesByZeroExactly` characterises this
  case, and `ZeroLengthLegReachable` shows that it can occur.
- `Runners.Step` and `MainLoop.Tick` carry the same requires (`!DividesByZero`) directly.
- `MainLoop.Frame`, `MainLoop.Run` and `MainLoop.Play` inherit that exclusion through
  `FrameOk`.
- `MainLoop.Play` also assumes `gen_range` and the frame time behave as stated above.
- The score is an unbounded `nat`. The program's `u32` would overflow after 4294967295 hits:
  a panic in debug builds, wrap-around in release builds.
- `Host.SpawnOffScreen` is stated only for a screen whose centre is not the origin. For a
  0×0 screen the spawn point and the screen are both the origin.
- Touch ids are not modelled, because `is_touched` does not read them.
- The screen size is read fresh each frame, as in the program. A window resize mid-leg
  therefore does not move a destination that was already drawn.
