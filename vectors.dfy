/** Three-component values: the colours of the framebuffer (glm::vec3) and
    the positions of scene objects (glm::dvec3). Components are reals; the
    floating-point widths of the two glm types are not distinguished. */
module Vectors {

  datatype Vec3 = Vec3(x: real, y: real, z: real)

  /** A colour is a red, green, blue triple. */
  type Color = Vec3

  /** glm::vec3(0.0f): the colour a cleared or freshly built buffer holds. */
  const Black: Color := Vec3(0.0, 0.0, 0.0)

  /** Every component lies in the displayable range [0, 1]. */
  predicate InUnit(c: Color) {
    0.0 <= c.x <= 1.0 && 0.0 <= c.y <= 1.0 && 0.0 <= c.z <= 1.0
  }

  /** glm::clamp(v, 0, 1) on one component: min(max(v, 0), 1). */
  function Clamp01(v: real): (r: real)
    ensures 0.0 <= r <= 1.0
    ensures 0.0 <= v <= 1.0 ==> r == v
    ensures v < 0.0 ==> r == 0.0
    ensures 1.0 < v ==> r == 1.0
  {
    var lowered := if v < 0.0 then 0.0 else v;
    if 1.0 < lowered then 1.0 else lowered
  }

  /** glm::clamp(color, vec3(0), vec3(1)), applied componentwise. */
  function ClampColor(c: Color): (r: Color)
    ensures InUnit(r)
    ensures InUnit(c) ==> r == c
    ensures r.x == Clamp01(c.x) && r.y == Clamp01(c.y) && r.z == Clamp01(c.z)
  {
    Vec3(Clamp01(c.x), Clamp01(c.y), Clamp01(c.z))
  }

  /** Clamping a colour twice is the same as clamping it once. */
  lemma ClampColorIdempotent(c: Color)
    ensures ClampColor(ClampColor(c)) == ClampColor(c)
  {
  }
}
