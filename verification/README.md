# Sun and planets: a Dafny model of the orbital core

The program simulates a fixed Sun at the centre of the window and planets
spawned by mouse clicks. Each planet is a rigid body pulled toward the Sun by
an inverse-square force. Each planet draws a trail of its last 70 positions.
A planet is removed once its centre comes within `SUN_RADIUS` of the Sun's
centre. This project models the discrete and geometric core of
`src/main.cpp` and proves properties of it:

- `normalize`, the initial tangent velocity and the direction of gravity,
  over real-valued 2D vectors;
- the trail buffer (append, shift left, resize to 70), as a function and as
  an in-place array method;
- the strict centre-to-centre collision test;
- the per-frame loop that applies gravity, updates the trail, checks for a
  collision and erases in place with `it = erase(it)`.

Modules, leaves first:

- `Reals` (`reals.dfy`) holds real-arithmetic facts the solver needs spelled out.
- `Config` (`config.dfy`) holds the constants.
- `Wrappers` (`wrappers.dfy`) holds `Option`.
- `Vector` (`vector.dfy`) holds 2D vectors and `normalize`.
- `Gravity` (`gravity.dfy`) holds the force of `applyGravity`.
- `Trail` (`trail.dfy`) holds `updateTrail`.
- `Planets` (`planet.dfy`) holds the body, the planet, its constructor, `applyGravity`, `update` and `checkCollision`.
- `Simulation` (`simulation.dfy`) holds the frame loop and the world. The
  erase-while-iterating loop and the filter it computes are stated for any
  per-planet update and removal test; a frame instantiates them with the
  gravity-and-trail step and the collision test.

Modelling choices:

- Floating point is modelled as `real`. Rounding is not modelled.
- `std::sqrt` is a foreign function, and the model never computes a square
  root. Pure geometry takes the length as an argument. `IsLength(len, v)`
  says that the length is exact.
- Operations that call `std::sqrt` take `sqrt: real -> real` as a
  parameter. They apply it where the source does, with one exception:
  `applyGravity` takes the root of the same squared distance twice, once
  directly and once inside `normalize`, and `ApplyGravity` takes it once and
  reuses the value. Both calls have the same argument, so the result is the
  same.
- Properties that depend on the root being correct assume it only at the
  points used: `RootAt(sqrt, x)`.
- The Box2D body becomes `Body(position, velocity, force)` in physics units.
  `ApplyForceToCenter` adds to the accumulated force. `world.Step` runs after
  the loop, and nothing in the model moves a body. The collision test and the
  trail therefore both read the position from before the step.
- A planet's identity (its `unique_ptr`) is a `nat` id. The `World` hands out
  ids from a counter, `nextId`.

## Model

| member | source | states |
|---|---|---|
| Vector.Normalize | src/main.cpp:18-23 | with a zero length the vector comes back unchanged, and the zero vector always stays zero |
| Vector.NormalizeUnit | src/main.cpp:18-21 | for a non-zero vector and its true length, the result has length 1, is parallel to the input and has a positive dot product with it |
| Vector.LengthZero | src/main.cpp:19-20 | the computed length is zero exactly for the zero vector, so the `length != 0` guard tests for the zero vector |
| Vector.PerpFacts | src/main.cpp:89 | the quarter-turn `(-dy, dx)` has dot product 0 with `(dx, dy)`, the same squared length, and cross product equal to the squared length |
| Vector.ScaledUnit | src/main.cpp:118 | a positive multiple `m` of a normalized non-zero vector points along it and has squared length `m²` |
| Gravity.ForceMagnitude | src/main.cpp:117 | the force magnitude is positive at every positive distance |
| Gravity.InverseSquare | src/main.cpp:117 | multiplying the distance by `k` divides the magnitude by `k²` |
| Gravity.GravityForce | src/main.cpp:113-116 | a force is produced exactly when the scaled distance is positive |
| Gravity.GravityTowardSun | src/main.cpp:107-123 | with the true distance, there is no force exactly when the planet is on the Sun's centre; otherwise the force is parallel to `sun - position`, points toward the Sun, and has the inverse-square magnitude of the scaled distance |
| Trail.ShiftLeft | src/main.cpp:100-102 | slot `i-1` holds the former slot `i` for every `1 <= i < count`, and the last slot keeps its value |
| Trail.UpdateTrail | src/main.cpp:97-105 | the trail never exceeds 70 entries; below 70 the new trail is `old + [p]`; at 70 it is `old[1..] + [p]`, so the oldest entry is dropped; the newest entry is the recorded position |
| Trail.UpdateKeepsNewest | src/main.cpp:98-104 | one update of a bounded trail keeps exactly the newest 70 positions |
| Trail.RecordKeepsNewest | src/main.cpp:97-105 | after any sequence of updates, a bounded trail holds exactly the newest 70 positions ever recorded, oldest first |
| Trail.SeventyFirstDropsFirst | src/main.cpp:99-103 | from an empty trail, recording a 71st position drops the first and keeps positions 2..71 in order |
| Trail.UpdateTrailBuffer | src/main.cpp:97-105 | the in-place append, shift loop and `resize(70)` produce the FIFO trail; `resize` drops only the duplicated tail slot |
| Planets.PixelsRoundTrip | src/main.cpp:63 | dividing by `SCALE` when the body is created and multiplying by `SCALE` when it is read back are inverse to each other |
| Planets.TangentPerpendicular | src/main.cpp:88-90 | the normalized quarter-turn scaled by the speed is perpendicular to the spawn direction, has squared length `speed²`, and turns in the positive sense for a positive speed |
| Planets.OrbitalSpeedSquared | src/main.cpp:83-86 | with a true square root, the speed is positive and `speed² · r = G · SUN_RADIUS · 15²` at physics distance `r` |
| Planets.NewPlanet | src/main.cpp:51-95 | a new planet carries the given id, has an empty trail and no accumulated force, and is drawn exactly at the clicked position |
| Planets.SpawnVelocity | src/main.cpp:79-94 | the initial velocity is perpendicular to the Sun-planet line and turned in the positive sense of a y-up frame (clockwise as drawn on the y-down screen, although the comment at src/main.cpp:78 calls it counter-clockwise), and its squared speed times the physics distance is `G · SUN_RADIUS · 15²` |
| Planets.SpawnScenario | src/main.cpp:79-94 | Sun at (400, 300) and a click at (500, 300): the body starts at (5, 3) with velocity `(0, sqrt(G · SUN_RADIUS) · 15)` |
| Planets.ApplyGravity | src/main.cpp:107-123 | applying gravity changes only the accumulated force, never the position, the velocity, the trail or the identity |
| Planets.GravityPullsTowardSun | src/main.cpp:107-123 | with the true distance, a planet on the Sun's centre is left untouched, and otherwise the added force points at the Sun |
| Planets.Update | src/main.cpp:125-128 | `update` leaves the body alone; on a trail of at most 70 entries the new trail grows by one until it holds 70, ends with the current pixel position, and is exactly the newest 70 of the old trail followed by that position |
| Planets.CollisionIffInsideSun | src/main.cpp:130-136 | with the true distance, a collision happens exactly when the squared centre distance is below `SUN_RADIUS²` (50²) |
| Planets.TouchingIsNotCollision | src/main.cpp:130-136 | a planet at distance exactly 50, or closer than 50 + `PLANET_RADIUS` but not below 50, survives: the planet's radius is not added |
| Planets.Tick | src/main.cpp:173-174 | one visit keeps the id, position and velocity, appends exactly one trail entry (the current pixel position), and leaves the collision verdict unchanged |
| Simulation.Kept | src/main.cpp:176-181 | for any removal test, the planets left are at most the visited ones, and none of them is selected for removal |
| Simulation.KeptMembership | src/main.cpp:176-181 | a planet is left exactly when it was visited and is not selected for removal |
| Simulation.KeptAppend | src/main.cpp:172-182 | the filter distributes over concatenation, so planets keep their relative order |
| Simulation.KeptSnoc | src/main.cpp:176-180 | visiting one more planet extends the result by that planet exactly when it is not selected for removal |
| Simulation.PruneLoop | src/main.cpp:172-182 | for any per-planet update and removal test, the erase-while-iterating loop visits each original planet exactly once, in order, with none skipped after an erase; each visit applies the update, also to the planets then erased; the planets left are the in-order filter of the visited ones not selected |
| Simulation.PruneFrame | src/main.cpp:172-182 | the loop of one frame gives every planet gravity and exactly one trail append, including the ones then erased, and leaves exactly the non-colliding ones, in order |
| Simulation.KeptDistinct | src/main.cpp:177 | erasing never duplicates a planet |
| Simulation.SurvivorPresent | src/main.cpp:176-181 | a planet that does not collide is still present after the frame |
| Simulation.KeptFate | src/main.cpp:176-181 | with distinct identities, a visited planet is left exactly when it is not selected for removal, and any planet left with its identity is that very planet |
| Simulation.TickAllDistinct | src/main.cpp:172-174 | visiting every planet keeps identities distinct: the loop updates each planet in place and never creates one |
| Simulation.PlanetFate | src/main.cpp:172-182 | with distinct identities, a planet is present after the frame exactly when it did not collide, and if present it has had exactly one trail append |
| Simulation.SurvivorsFromBefore | src/main.cpp:172-182 | every planet after the frame is one that was there before, after one visit; no planet is re-added |
| Simulation.Spawn | src/main.cpp:163-166 | a click appends one new planet at the clicked position, with an empty trail, after the existing planets; the world invariant is kept |
| Simulation.Frame | src/main.cpp:171-182 | one frame keeps the world invariant, never adds a planet, and leaves no colliding planet |
| Simulation.FrameKeepsValid | src/main.cpp:172-182 | the prune loop keeps identities distinct and every trail within 70 entries |

## Left out

- Rendering and windowing (SFML window, event polling, shapes, drawing, colours, frame-rate limit, `sf::Clock`). These are presentation and I/O. The random colour (line 57) has no effect on behaviour.
- Box2D (`b2World`, `CreateBody`, `CreateFixture`, `SetLinearVelocity`, `ApplyForceToCenter`, `world.Step`) is a foreign library. Only the accumulated force and the stored velocity are modelled. `world.Step(deltaTime, 8, 3)` and the `×4` time factor are not modelled, so positions never change inside the model.
- Planets.ApplyGravity: `world.Step` also clears each body's accumulated force after integrating it. `Frame` does not reset `body.force`, so the force is meaningful only within one frame: over several model frames it is the sum of all forces applied.
- Floating-point rounding: every quantity is an exact real. `0.0001f` is taken as exactly `0.0001`.
- `std::sqrt` and `std::pow` have no real-number definition here. The square root is a parameter, and squaring is multiplication.
- Planets.NewPlanet: spawning exactly on the Sun's centre is excluded by its precondition. The source divides by zero there and produces a non-finite velocity.
- Trail.UpdateTrail: the contract speaks about trails of at most 70 entries. Longer trails are never produced, because every trail starts empty.
- Planet-count growth is unbounded in principle. Only collisions remove planets, and the model makes no claim about it.
