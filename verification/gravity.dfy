/** The Sun's pull on one planet (`Planet::applyGravity`). */
module Gravity {

  import opened Config
  import opened Vector
  import opened Wrappers
  import Reals

  /** The inverse-square magnitude at physics distance `d`. */
  function ForceMagnitude(d: real): (m: real)
    requires d > 0.0
    ensures m > 0.0
  {
    Reals.MulPositive(d, d);
    G * SunRadius * PlanetRadius / (d * d)
  }

  /**
   * The force on a planet at pixel position `position`, where `len` is the
   * square root the source takes of the squared pixel distance to the Sun.
   * No force when the scaled distance is not positive.
   */
  function GravityForce(position: Vec2, sun: Vec2, len: real): (r: Option<Vec2>)
    ensures r.Some? <==> len > 0.0
  {
    var direction := Sub(sun, position);
    var distance := len / PixelsPerMeter;
    if distance > 0.0 then Some(Scale(ForceMagnitude(distance), Normalize(direction, len))) else None
  }

  /** Doubling, tripling, ... the distance divides the magnitude by the square of the factor. */
  lemma InverseSquare(d: real, k: real)
    requires d > 0.0 && k > 0.0
    ensures ForceMagnitude(k * d) * (k * k) == ForceMagnitude(d)
  {
  }

  /**
   * With `len` the true distance: no force exactly when the planet sits on the
   * Sun's centre; otherwise the force points at the Sun (parallel to
   * `sun - position`, positive dot product) with the inverse-square magnitude
   * of the physics distance `len / SCALE`.
   */
  lemma GravityTowardSun(position: Vec2, sun: Vec2, len: real)
    requires IsLength(len, Sub(sun, position))
    ensures GravityForce(position, sun, len).None? <==> position == sun
    ensures GravityForce(position, sun, len).Some? ==>
              var f := GravityForce(position, sun, len).value;
              var direction := Sub(sun, position);
              && Cross(f, direction) == 0.0
              && Dot(f, direction) > 0.0
              && NormSq(f) == ForceMagnitude(len / PixelsPerMeter) * ForceMagnitude(len / PixelsPerMeter)
  {
    var direction := Sub(sun, position);
    LengthZero(len, direction);
    SubZero(sun, position);
    if len > 0.0 {
      ScaledUnit(direction, len, ForceMagnitude(len / PixelsPerMeter));
    }
  }
}
