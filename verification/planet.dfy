/**
 * One planet: its rigid body (position, velocity and accumulated force, in
 * physics units), its identity and its trail. The physics engine's step is
 * not modelled, so a body's position only changes outside these operations.
 */
module Planets {

  import opened Config
  import opened Vector
  import opened Wrappers
  import Reals
  import Gravity
  import Trail

  /** The rigid body of a planet, in physics units (metres). */
  datatype Body = Body(position: Vec2, velocity: Vec2, force: Vec2)

  /** A planet; `id` stands for the identity of its heap object. */
  datatype Planet = Planet(id: nat, body: Body, trail: seq<Vec2>)

  /** Screen position to physics position: divide by `SCALE`. */
  function ToPhysics(p: Vec2): Vec2 {
    Vec2(p.x / PixelsPerMeter, p.y / PixelsPerMeter)
  }

  /** Physics position to screen position: multiply by `SCALE`. */
  function ToPixels(p: Vec2): Vec2 {
    Scale(PixelsPerMeter, p)
  }

  /** The two unit conversions are inverse to each other. */
  lemma PixelsRoundTrip(p: Vec2)
    ensures ToPixels(ToPhysics(p)) == p
    ensures ToPhysics(ToPixels(p)) == p
  {
  }

  /** Where the planet is drawn: its body position in pixels. */
  function PixelPosition(pl: Planet): Vec2 {
    ToPixels(pl.body.position)
  }

  /** `sqrt` returns the non-negative square root of `x`. */
  predicate RootAt(sqrt: real -> real, x: real) {
    sqrt(x) >= 0.0 && sqrt(x) * sqrt(x) == x
  }

  /**
   * The tangent velocity at spawn: the quarter-turned `direction`,
   * normalized with `len` (its length), times `speed`.
   */
  function TangentVelocity(direction: Vec2, len: real, speed: real): Vec2 {
    Scale(speed, Normalize(Perp(direction), len))
  }

  /**
   * With `len` the true length of a non-zero `direction`, the tangent is
   * perpendicular to `direction`, has squared length `speed * speed`, and for
   * a positive speed turns from `direction` in the positive sense.
   */
  lemma TangentPerpendicular(direction: Vec2, len: real, speed: real)
    requires IsLength(len, direction) && direction != Zero
    ensures Dot(TangentVelocity(direction, len, speed), direction) == 0.0
    ensures NormSq(TangentVelocity(direction, len, speed)) == speed * speed
    ensures speed > 0.0 ==> Cross(direction, TangentVelocity(direction, len, speed)) > 0.0
  {
    var t := Perp(direction);
    var n := Normalize(t, len);
    PerpFacts(direction);
    LengthZero(len, direction);
    assert IsLength(len, t);
    NormalizeUnit(t, len);
    var k := 1.0 / len;
    assert n == Scale(k, t);
    ScaleProducts(k, t, direction);
    assert Dot(n, direction) == 0.0;
    assert Cross(direction, n) == k * NormSq(direction);
    assert k * NormSq(direction) == len by {
      assert k * (len * len) == (k * len) * len;
    }
    ScaleProducts(speed, n, direction);
    ScaleProducts(speed, n, n);
    if speed > 0.0 {
      Reals.MulPositive(speed, len);
    }
  }

  /** The circular-orbit speed at physics distance `distance`, times the empirical factor. */
  function OrbitalSpeed(distance: real, sqrt: real -> real): real
    requires distance != 0.0
  {
    sqrt(G * SunRadius / distance) * SpeedFactor
  }

  /** With a true square root, the speed satisfies `speed² · r = G · SUN_RADIUS · 15²`. */
  lemma OrbitalSpeedSquared(distance: real, sqrt: real -> real)
    requires distance > 0.0 && RootAt(sqrt, G * SunRadius / distance)
    ensures OrbitalSpeed(distance, sqrt) > 0.0
    ensures OrbitalSpeed(distance, sqrt) * OrbitalSpeed(distance, sqrt) * distance
            == G * SunRadius * SpeedFactor * SpeedFactor
  {
  }

  /**
   * The planet constructor: the body is placed at `position` (converted to
   * physics units) with a tangential initial velocity for a counterclockwise
   * orbit, no accumulated force, and an empty trail.
   */
  function NewPlanet(id: nat, position: Vec2, sun: Vec2, sqrt: real -> real): (r: Planet)
    requires sqrt(NormSq(Sub(position, sun))) != 0.0
    ensures r.id == id && r.trail == [] && r.body.force == Zero
    ensures PixelPosition(r) == position
  {
    PixelsRoundTrip(position);
    var direction := Sub(position, sun);
    var distance := sqrt(NormSq(direction)) / PixelsPerMeter;
    var speed := OrbitalSpeed(distance, sqrt);
    var tangent := Perp(direction);
    var velocity := TangentVelocity(direction, sqrt(NormSq(tangent)), speed);
    Planet(id, Body(ToPhysics(position), velocity, Zero), [])
  }

  /** The spawn distance the constructor measures, in physics units. */
  function SpawnDistance(position: Vec2, sun: Vec2, sqrt: real -> real): real {
    sqrt(NormSq(Sub(position, sun))) / PixelsPerMeter
  }

  /**
   * With a true square root, a planet spawned away from the Sun starts with a
   * velocity perpendicular to the Sun-planet line, turned in the positive
   * sense of a y-up frame (clockwise as drawn on the y-down screen),
   * whose squared speed is `G · SUN_RADIUS · 15² / r` at physics distance `r`.
   */
  lemma SpawnVelocity(id: nat, position: Vec2, sun: Vec2, sqrt: real -> real)
    requires RootAt(sqrt, NormSq(Sub(position, sun)))
    requires sqrt(NormSq(Sub(position, sun))) != 0.0
    requires RootAt(sqrt, G * SunRadius / SpawnDistance(position, sun, sqrt))
    ensures var v := NewPlanet(id, position, sun, sqrt).body.velocity;
            && Dot(v, Sub(position, sun)) == 0.0
            && Cross(Sub(position, sun), v) > 0.0
            && NormSq(v) * SpawnDistance(position, sun, sqrt) == G * SunRadius * SpeedFactor * SpeedFactor
  {
    var direction := Sub(position, sun);
    var len := sqrt(NormSq(direction));
    assert IsLength(len, direction);
    LengthZero(len, direction);
    var distance := SpawnDistance(position, sun, sqrt);
    var speed := OrbitalSpeed(distance, sqrt);
    OrbitalSpeedSquared(distance, sqrt);
    PerpFacts(direction);
    TangentPerpendicular(direction, len, speed);
  }

  /**
   * With the Sun at (400, 300) and a click at (500, 300), one physics unit
   * away: the body starts at (5, 3) moving along +y (downwards on screen)
   * at `sqrt(G · SUN_RADIUS) · 15`.
   */
  lemma SpawnScenario(sqrt: real -> real)
    requires sqrt(10000.0) == 100.0 && sqrt(G * SunRadius) > 0.0
    ensures NewPlanet(0, Vec2(500.0, 300.0), Vec2(400.0, 300.0), sqrt).body.position == Vec2(5.0, 3.0)
    ensures NewPlanet(0, Vec2(500.0, 300.0), Vec2(400.0, 300.0), sqrt).body.velocity
            == Vec2(0.0, sqrt(G * SunRadius) * SpeedFactor)
  {
    var position, sun := Vec2(500.0, 300.0), Vec2(400.0, 300.0);
    ScenarioDistance(sqrt);
    ScenarioTangent(OrbitalSpeed(1.0, sqrt));
    PixelsRoundTrip(position);
  }

  lemma ScenarioDistance(sqrt: real -> real)
    requires sqrt(10000.0) == 100.0
    ensures NormSq(Sub(Vec2(500.0, 300.0), Vec2(400.0, 300.0))) == 10000.0
    ensures NormSq(Perp(Sub(Vec2(500.0, 300.0), Vec2(400.0, 300.0)))) == 10000.0
    ensures SpawnDistance(Vec2(500.0, 300.0), Vec2(400.0, 300.0), sqrt) == 1.0
    ensures OrbitalSpeed(1.0, sqrt) == sqrt(G * SunRadius) * SpeedFactor
  {
  }

  lemma ScenarioTangent(speed: real)
    ensures TangentVelocity(Sub(Vec2(500.0, 300.0), Vec2(400.0, 300.0)), 100.0, speed) == Vec2(0.0, speed)
  {
    ScenarioPerp();
    ScenarioUnit(speed);
  }

  lemma ScenarioPerp()
    ensures Perp(Sub(Vec2(500.0, 300.0), Vec2(400.0, 300.0))) == Vec2(0.0, 100.0)
  {
  }

  lemma ScenarioUnit(speed: real)
    ensures Scale(speed, Normalize(Vec2(0.0, 100.0), 100.0)) == Vec2(0.0, speed)
  {
  }

  /**
   * Applying gravity adds the Sun's pull to the body's accumulated force and
   * changes nothing else; the square root is taken of the squared pixel
   * distance to the Sun.
   */
  function ApplyGravity(pl: Planet, sun: Vec2, sqrt: real -> real): (r: Planet)
    ensures r.id == pl.id && r.trail == pl.trail
    ensures r.body.position == pl.body.position && r.body.velocity == pl.body.velocity
  {
    var position := PixelPosition(pl);
    match Gravity.GravityForce(position, sun, sqrt(NormSq(Sub(sun, position))))
    case None => pl
    case Some(f) => pl.(body := pl.body.(force := Add(pl.body.force, f)))
  }

  /**
   * With a true square root, gravity leaves a planet on the Sun's centre
   * untouched and otherwise adds a force pointing at the Sun.
   */
  lemma GravityPullsTowardSun(pl: Planet, sun: Vec2, sqrt: real -> real)
    requires RootAt(sqrt, NormSq(Sub(sun, PixelPosition(pl))))
    ensures PixelPosition(pl) == sun ==> ApplyGravity(pl, sun, sqrt) == pl
    ensures PixelPosition(pl) != sun ==>
              var added := Sub(ApplyGravity(pl, sun, sqrt).body.force, pl.body.force);
              var direction := Sub(sun, PixelPosition(pl));
              Cross(added, direction) == 0.0 && Dot(added, direction) > 0.0
  {
    var position := PixelPosition(pl);
    var len := sqrt(NormSq(Sub(sun, position)));
    assert IsLength(len, Sub(sun, position));
    Gravity.GravityTowardSun(position, sun, len);
    match Gravity.GravityForce(position, sun, len)
    case None =>
    case Some(f) =>
      assert Sub(Add(pl.body.force, f), pl.body.force) == f;
  }

  /**
   * `update`: record the current pixel position in the trail. The body is
   * untouched; a trail within capacity stays within it, ends with the current
   * position and holds the newest `TrailCapacity` positions recorded so far.
   */
  function Update(pl: Planet): (r: Planet)
    ensures r.id == pl.id && r.body == pl.body
    ensures Trail.Bounded(pl.trail) ==>
              && Trail.Bounded(r.trail)
              && |r.trail| == (if |pl.trail| < TrailCapacity then |pl.trail| + 1 else TrailCapacity)
              && r.trail[|r.trail| - 1] == PixelPosition(pl)
              && r.trail == Trail.Newest(pl.trail + [PixelPosition(pl)], TrailCapacity)
  {
    pl.(trail := Trail.UpdateTrail(pl.trail, PixelPosition(pl)))
  }

  /** `checkCollision`: the centre-to-centre distance is strictly below the Sun's radius. */
  function CheckCollision(pl: Planet, sun: Vec2, sqrt: real -> real): bool {
    sqrt(DistSq(PixelPosition(pl), sun)) < SunRadius
  }

  /**
   * With a true square root, a planet collides exactly when its centre lies
   * strictly inside the circle of radius `SUN_RADIUS` around the Sun's centre.
   */
  lemma CollisionIffInsideSun(pl: Planet, sun: Vec2, sqrt: real -> real)
    requires RootAt(sqrt, DistSq(PixelPosition(pl), sun))
    ensures CheckCollision(pl, sun, sqrt) <==> DistSq(PixelPosition(pl), sun) < SunRadius * SunRadius
  {
    Reals.SquareMonotone(sqrt(DistSq(PixelPosition(pl), sun)), SunRadius);
  }

  /**
   * A planet whose centre is at least `SUN_RADIUS` away survives, even when
   * its disc overlaps the Sun's: the planet's own radius is not added.
   */
  lemma TouchingIsNotCollision(pl: Planet, sun: Vec2, sqrt: real -> real)
    requires RootAt(sqrt, DistSq(PixelPosition(pl), sun))
    requires SunRadius * SunRadius <= DistSq(PixelPosition(pl), sun)
             < (SunRadius + PlanetRadius) * (SunRadius + PlanetRadius)
    ensures !CheckCollision(pl, sun, sqrt)
  {
    CollisionIffInsideSun(pl, sun, sqrt);
  }

  /** One visit of the frame loop: apply gravity, then update. */
  function Tick(pl: Planet, sun: Vec2, sqrt: real -> real): (r: Planet)
    ensures r.id == pl.id
    ensures r.body.position == pl.body.position && r.body.velocity == pl.body.velocity
    ensures r.trail == Trail.UpdateTrail(pl.trail, PixelPosition(pl))
    ensures CheckCollision(r, sun, sqrt) == CheckCollision(pl, sun, sqrt)
  {
    Update(ApplyGravity(pl, sun, sqrt))
  }
}
