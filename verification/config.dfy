/** The simulation's global constants, as real numbers. */
module Config {

  /** `SCALE`: pixels per physics metre, between screen space and the physics world. */
  const PixelsPerMeter: real := 100.0

  /** Radius of the Sun, in pixels; also the collision threshold. */
  const SunRadius: real := 50.0

  /** Radius of every planet, in pixels. */
  const PlanetRadius: real := 10.0

  /** The custom gravitational constant. */
  const G: real := 0.0001

  /** Empirical factor applied to the circular-orbit speed at spawn. */
  const SpeedFactor: real := 15.0

  /** Maximum number of positions a planet's trail holds. */
  const TrailCapacity: nat := 70
}
