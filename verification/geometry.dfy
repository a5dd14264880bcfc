/** `glm::vec3` arithmetic over exact reals, and axis-aligned boxes given by
    their `min` (bottom-left-back) and `max` (top-right-front) corners. */
module Geometry {

  datatype Vec3 = Vec3(x: real, y: real, z: real)

  /** `glm::vec3(a)`: all three components equal to `a`. */
  function Splat(a: real): Vec3 { Vec3(a, a, a) }

  function Add(a: Vec3, b: Vec3): Vec3 { Vec3(a.x + b.x, a.y + b.y, a.z + b.z) }

  function Sub(a: Vec3, b: Vec3): Vec3 { Vec3(a.x - b.x, a.y - b.y, a.z - b.z) }

  function Scale(a: Vec3, k: real): Vec3 { Vec3(a.x * k, a.y * k, a.z * k) }

  function Dot(a: Vec3, b: Vec3): real { a.x * b.x + a.y * b.y + a.z * b.z }

  /** The squared Euclidean length. */
  function SqNorm(a: Vec3): (r: real)
    ensures r >= 0.0
  {
    Dot(a, a)
  }

  function Min1(a: real, b: real): real { if a <= b then a else b }

  function Max1(a: real, b: real): real { if a >= b then a else b }

  /** Component-wise `<=`. */
  predicate LessEq(a: Vec3, b: Vec3) { a.x <= b.x && a.y <= b.y && a.z <= b.z }

  /** `glm::min`: the component-wise minimum, a lower bound of both. */
  function Min(a: Vec3, b: Vec3): (r: Vec3)
    ensures LessEq(r, a) && LessEq(r, b)
    ensures forall c :: LessEq(c, a) && LessEq(c, b) ==> LessEq(c, r)
  {
    Vec3(Min1(a.x, b.x), Min1(a.y, b.y), Min1(a.z, b.z))
  }

  /** `glm::max`: the component-wise maximum, an upper bound of both. */
  function Max(a: Vec3, b: Vec3): (r: Vec3)
    ensures LessEq(a, r) && LessEq(b, r)
    ensures forall c :: LessEq(a, c) && LessEq(b, c) ==> LessEq(r, c)
  {
    Vec3(Max1(a.x, b.x), Max1(a.y, b.y), Max1(a.z, b.z))
  }

  /** An axis-aligned box. */
  datatype Box = Box(min: Vec3, max: Vec3)

  /** The corners are ordered on every axis. */
  predicate ValidBox(b: Box) { LessEq(b.min, b.max) }

  /** Closed containment of a point. */
  predicate Contains(b: Box, p: Vec3) { LessEq(b.min, p) && LessEq(p, b.max) }

  /** Closed containment of a box. */
  predicate ContainsBox(outer: Box, inner: Box)
  {
    LessEq(outer.min, inner.min) && LessEq(inner.max, outer.max)
  }

  /** `(min + max) * 0.5`, the box centre. */
  function Mid(b: Box): (m: Vec3)
    ensures ValidBox(b) ==> Contains(b, m)
  {
    Scale(Add(b.min, b.max), 0.5)
  }

  /** The smallest box containing both. */
  function Hull(a: Box, b: Box): (h: Box)
    ensures ContainsBox(h, a) && ContainsBox(h, b)
    ensures forall c :: ContainsBox(c, a) && ContainsBox(c, b) ==> ContainsBox(c, h)
  {
    Box(Min(a.min, b.min), Max(a.max, b.max))
  }

  /** `std::max(lo, std::min(v, hi))`. */
  function Clamp1(lo: real, v: real, hi: real): (r: real)
    ensures lo <= hi ==> lo <= r <= hi
    ensures lo <= v <= hi ==> r == v
  {
    Max1(lo, Min1(v, hi))
  }

  /** The point of `b` nearest to `p`, clamped axis by axis. */
  function ClosestPoint(b: Box, p: Vec3): (c: Vec3)
    ensures ValidBox(b) ==> Contains(b, c)
    ensures Contains(b, p) ==> c == p
  {
    Vec3(Clamp1(b.min.x, p.x, b.max.x),
         Clamp1(b.min.y, p.y, b.max.y),
         Clamp1(b.min.z, p.z, b.max.z))
  }

  /** On one axis the clamped value is at least as close to `v` as any
      value of the interval. */
  lemma Clamp1Nearest(lo: real, v: real, hi: real, q: real)
    requires lo <= q <= hi
    ensures (Clamp1(lo, v, hi) - v) * (Clamp1(lo, v, hi) - v) <= (q - v) * (q - v)
  {
    var c := Clamp1(lo, v, hi);
    if v < lo {
      assert c == lo && 0.0 < c - v <= q - v;
    } else if v > hi {
      assert c == hi && 0.0 < v - c <= v - q;
    } else {
      assert c == v;
    }
  }

  /** The clamped point is the point of the box nearest to `p`. */
  lemma ClosestPointNearest(b: Box, p: Vec3, q: Vec3)
    requires Contains(b, q)
    ensures SqNorm(Sub(ClosestPoint(b, p), p)) <= SqNorm(Sub(q, p))
  {
    var c := ClosestPoint(b, p);
    Clamp1Nearest(b.min.x, p.x, b.max.x, q.x);
    Clamp1Nearest(b.min.y, p.y, b.max.y, q.y);
    Clamp1Nearest(b.min.z, p.z, b.max.z, q.z);
    AddLe3((c.x - p.x) * (c.x - p.x), (q.x - p.x) * (q.x - p.x),
           (c.y - p.y) * (c.y - p.y), (q.y - p.y) * (q.y - p.y),
           (c.z - p.z) * (c.z - p.z), (q.z - p.z) * (q.z - p.z));
  }

  lemma AddLe3(a1: real, b1: real, a2: real, b2: real, a3: real, b3: real)
    requires a1 <= b1 && a2 <= b2 && a3 <= b3
    ensures a1 + a2 + a3 <= b1 + b2 + b3
  {
  }
}
