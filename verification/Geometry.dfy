/** The vector and vertex values that the terrain mesh is made of
    (glm::vec2 / glm::vec3 and the Vertex record of src/object/vertex.h).
    Components are reals: IEEE-754 single-precision rounding is not modelled. */
module Geometry {

  datatype Vec2 = Vec2(u: real, v: real)

  datatype Vec3 = Vec3(x: real, y: real, z: real)

  /** One mesh vertex: its position, its (flat, per-triangle) normal and its texture coordinate. */
  datatype Vertex = Vertex(position: Vec3, normal: Vec3, uv: Vec2)

  const ZeroUV: Vec2 := Vec2(0.0, 0.0)

  function Add(a: Vec3, b: Vec3): Vec3 {
    Vec3(a.x + b.x, a.y + b.y, a.z + b.z)
  }

  function Sub(a: Vec3, b: Vec3): Vec3 {
    Vec3(a.x - b.x, a.y - b.y, a.z - b.z)
  }

  /** Scalar times vector. */
  function Times(k: real, a: Vec3): Vec3 {
    Vec3(k * a.x, k * a.y, k * a.z)
  }

  /** Component-wise product, glm's `v * scale` for two vec3. */
  function Mul(a: Vec3, b: Vec3): Vec3 {
    Vec3(a.x * b.x, a.y * b.y, a.z * b.z)
  }

  function Min(a: real, b: real): real { if a <= b then a else b }
  function Max(a: real, b: real): real { if a >= b then a else b }
  function Abs(a: real): real { if a < 0.0 then -a else a }

  /** glm::clamp(v, lo, hi), which GLM defines as min(max(v, lo), hi). */
  function GlmClamp(v: real, lo: real, hi: real): (r: real)
    ensures r <= hi
    ensures r == v || r == lo || r == hi
  {
    Min(Max(v, lo), hi)
  }

  /** With lo <= hi, glm::clamp lands in [lo, hi] and leaves a value already there unchanged. */
  lemma GlmClampInRange(v: real, lo: real, hi: real)
    requires lo <= hi
    ensures lo <= GlmClamp(v, lo, hi) <= hi
    ensures lo <= v <= hi ==> GlmClamp(v, lo, hi) == v
  {
  }

  /** r lies between a and b (in either order). */
  predicate Between(a: real, r: real, b: real) {
    (a <= r <= b) || (b <= r <= a)
  }

  /** Every coordinate of p lies between the corresponding coordinates of p0 and p1:
      the axis-aligned box spanned by the segment p0..p1 contains p. */
  predicate InSegmentBox(p0: Vec3, p: Vec3, p1: Vec3) {
    Between(p0.x, p.x, p1.x) && Between(p0.y, p.y, p1.y) && Between(p0.z, p.z, p1.z)
  }

  /** Axis-aligned box containment, lo and hi inclusive. */
  predicate InBox(p: Vec3, lo: Vec3, hi: Vec3) {
    lo.x <= p.x <= hi.x && lo.y <= p.y <= hi.y && lo.z <= p.z <= hi.z
  }
}
