/** The black hole of the scene: its mass and position, and the horizon
    radius derived from the mass once, when the record is built. */
module BlackHoles {
  import opened Vectors

  /** The gravitational constant G and the speed of light c. Their values are
      defined outside this model; all that is used is G > 0 and c != 0. */
  datatype PhysicalConstants = PhysicalConstants(G: real, c: real) {
    predicate Valid() {
      G > 0.0 && c != 0.0
    }
  }

  /** The Schwarzschild radius 2 * G * mass / (c * c). */
  function HorizonRadius(k: PhysicalConstants, mass: real): (r: real)
    requires k.Valid()
    ensures r * (k.c * k.c) == 2.0 * k.G * mass
  {
    2.0 * k.G * mass / (k.c * k.c)
  }

  /** The fields of the record. The constants the radius was derived with
      are kept beside it, so that its consistency can be stated. */
  datatype BlackHole = BlackHole(constants: PhysicalConstants, mass: real, position: Vec3, radius: real)

  /** The radius agrees with the mass. */
  predicate Consistent(bh: BlackHole) {
    bh.constants.Valid() && bh.radius == HorizonRadius(bh.constants, bh.mass)
  }

  /** A black hole as the program can hold one: only NewBlackHole builds the
      record, and a record whose radius disagrees with its mass (built
      directly or by updating a field) is not of this type. */
  type ValidBlackHole = bh: BlackHole | Consistent(bh)
    witness BlackHole(PhysicalConstants(1.0, 1.0), 0.0, Vec3(0.0, 0.0, 0.0), 0.0)

  /** The constructor: keeps mass and position as given and derives the
      horizon radius from the mass. */
  function NewBlackHole(k: PhysicalConstants, mass: real, position: Vec3): (bh: ValidBlackHole)
    requires k.Valid()
    ensures bh.constants == k && bh.mass == mass && bh.position == position
    ensures bh.radius * (k.c * k.c) == 2.0 * k.G * mass
  {
    BlackHole(k, mass, position, HorizonRadius(k, mass))
  }

  /** The square of a non-zero real is positive. */
  lemma SquarePositive(c: real)
    requires c != 0.0
    ensures c * c > 0.0
  {
    if c < 0.0 {
      assert c * c == (-c) * (-c);
    }
  }

  /** The radius is the mass times the positive factor 2 * G / (c * c). */
  lemma RadiusFactor(k: PhysicalConstants, mass: real)
    requires k.Valid()
    ensures 2.0 * k.G / (k.c * k.c) > 0.0
    ensures HorizonRadius(k, mass) == (2.0 * k.G / (k.c * k.c)) * mass
  {
    SquarePositive(k.c);
  }

  /** The radius has the sign of the mass: non-negative for a non-negative
      mass, positive for a positive one, zero only for zero mass. */
  lemma RadiusSign(k: PhysicalConstants, mass: real)
    requires k.Valid()
    ensures HorizonRadius(k, mass) > 0.0 <==> mass > 0.0
    ensures HorizonRadius(k, mass) == 0.0 <==> mass == 0.0
    ensures HorizonRadius(k, mass) >= 0.0 <==> mass >= 0.0
  {
    RadiusFactor(k, mass);
    var f := 2.0 * k.G / (k.c * k.c);
    if mass < 0.0 {
      assert f * mass == -(f * (-mass));
    }
  }

  /** The radius is linear in the mass: scaling the mass by a scales it by a. */
  lemma RadiusLinear(k: PhysicalConstants, mass: real, a: real)
    requires k.Valid()
    ensures HorizonRadius(k, a * mass) == a * HorizonRadius(k, mass)
  {
    RadiusFactor(k, mass);
    RadiusFactor(k, a * mass);
  }

  /** Doubling the mass doubles the radius, wherever either black hole is
      placed. */
  lemma RadiusDoubles(k: PhysicalConstants, mass: real, p: Vec3, q: Vec3)
    requires k.Valid()
    ensures NewBlackHole(k, 2.0 * mass, p).radius == 2.0 * NewBlackHole(k, mass, q).radius
  {
    RadiusLinear(k, mass, 2.0);
  }

  /** Every black hole the program can hold has a radius that satisfies
      r * c * c == 2 * G * mass: the radius never disagrees with the mass. */
  lemma RadiusMatchesMass(bh: ValidBlackHole)
    ensures bh.constants.Valid()
    ensures bh.radius * (bh.constants.c * bh.constants.c) == 2.0 * bh.constants.G * bh.mass
  {
  }

  /** Changing the mass of a record after construction, as a field update
      would, leaves a record that is not a ValidBlackHole (for a non-zero mass):
      the stored radius then disagrees with the new mass. */
  lemma MassUpdateBreaksConsistency(k: PhysicalConstants, mass: real, p: Vec3)
    requires k.Valid() && mass != 0.0
    ensures !Consistent(NewBlackHole(k, mass, p).(mass := 2.0 * mass))
  {
    RadiusLinear(k, mass, 2.0);
    RadiusSign(k, mass);
  }

  /** Two black holes with the same constants and mass have the same radius,
      wherever they are placed. */
  lemma RadiusIndependentOfPosition(a: ValidBlackHole, b: ValidBlackHole)
    requires a.constants == b.constants && a.mass == b.mass
    ensures a.radius == b.radius
  {
  }
}
