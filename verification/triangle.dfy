/** The `Triangle` primitive: its vertices, centre and box test. */
module Triangles {
  import opened Geometry

  /** Three vertices and a colour. The unit normal the constructor also
      stores is not part of this model. */
  datatype Triangle = Triangle(v0: Vec3, v1: Vec3, v2: Vec3, color: Vec3)

  /** The constructor keeps the vertices and colour as given; the colour
      defaults to white. */
  function NewTriangle(v0: Vec3, v1: Vec3, v2: Vec3, color: Vec3 := Splat(1.0)): (t: Triangle)
    ensures t.v0 == v0 && t.v1 == v1 && t.v2 == v2 && t.color == color
  {
    Triangle(v0, v1, v2, color)
  }

  /** The centroid: component-wise mean of the three vertices. */
  function GetCenter(t: Triangle): (c: Vec3)
    ensures 3.0 * c.x == t.v0.x + t.v1.x + t.v2.x
    ensures 3.0 * c.y == t.v0.y + t.v1.y + t.v2.y
    ensures 3.0 * c.z == t.v0.z + t.v1.z + t.v2.z
  {
    Vec3((t.v0.x + t.v1.x + t.v2.x) / 3.0,
         (t.v0.y + t.v1.y + t.v2.y) / 3.0,
         (t.v0.z + t.v1.z + t.v2.z) / 3.0)
  }

  /** The centroid lies in every box that holds all three vertices. */
  lemma CenterInBox(t: Triangle, b: Box)
    requires Contains(b, t.v0) && Contains(b, t.v1) && Contains(b, t.v2)
    ensures Contains(b, GetCenter(t))
  {
  }

  /** The centroid ignores the order of the vertices, and a triangle
      collapsed to one point has that point as centre. */
  lemma CenterSymmetric(t: Triangle)
    ensures GetCenter(Triangle(t.v1, t.v0, t.v2, t.color)) == GetCenter(t)
    ensures GetCenter(Triangle(t.v0, t.v2, t.v1, t.color)) == GetCenter(t)
    ensures t.v0 == t.v1 == t.v2 ==> GetCenter(t) == t.v0
  {
  }

  /** True when some vertex lies in the closed box `[min, max]`. */
  function IsInBox(t: Triangle, min: Vec3, max: Vec3): (r: bool)
    ensures r <==> Contains(Box(min, max), t.v0) || Contains(Box(min, max), t.v1)
                   || Contains(Box(min, max), t.v2)
  {
    (t.v0.x >= min.x && t.v0.x <= max.x && t.v0.y >= min.y && t.v0.y <= max.y && t.v0.z >= min.z && t.v0.z <= max.z) ||
    (t.v1.x >= min.x && t.v1.x <= max.x && t.v1.y >= min.y && t.v1.y <= max.y && t.v1.z >= min.z && t.v1.z <= max.z) ||
    (t.v2.x >= min.x && t.v2.x <= max.x && t.v2.y >= min.y && t.v2.y <= max.y && t.v2.z >= min.z && t.v2.z <= max.z)
  }

  /** The bounds are inclusive: a vertex on any of the box's eight corners
      counts, whichever vertex it is. */
  lemma IsInBoxInclusive(t: Triangle, min: Vec3, max: Vec3, xUp: bool, yUp: bool, zUp: bool)
    requires LessEq(min, max)
    ensures var corner := Vec3(if xUp then max.x else min.x,
                               if yUp then max.y else min.y,
                               if zUp then max.z else min.z);
            t.v0 == corner || t.v1 == corner || t.v2 == corner ==> IsInBox(t, min, max)
  {
  }

  /** Reordering the vertices does not change the answer. */
  lemma IsInBoxPermutation(t: Triangle, min: Vec3, max: Vec3)
    ensures IsInBox(Triangle(t.v1, t.v0, t.v2, t.color), min, max) == IsInBox(t, min, max)
    ensures IsInBox(Triangle(t.v0, t.v2, t.v1, t.color), min, max) == IsInBox(t, min, max)
    ensures IsInBox(Triangle(t.v2, t.v0, t.v1, t.color), min, max) == IsInBox(t, min, max)
  {
  }

  /** A larger box keeps the answer true. */
  lemma IsInBoxMonotone(t: Triangle, inner: Box, outer: Box)
    requires ContainsBox(outer, inner)
    requires IsInBox(t, inner.min, inner.max)
    ensures IsInBox(t, outer.min, outer.max)
  {
  }

  /** Only vertices are tested: a triangle whose edge crosses the unit
      cube with every vertex outside it is reported as not in the box. */
  lemma IsInBoxIgnoresEdges()
    ensures var t := Triangle(Vec3(-1.0, 0.5, 0.5), Vec3(2.0, 0.5, 0.5), Vec3(-1.0, 3.0, 0.5), Splat(1.0));
            var m := Vec3(0.5, 0.5, 0.5);
            && Contains(Box(Splat(0.0), Splat(1.0)), m)
            && m == Add(Scale(t.v0, 0.5), Scale(t.v1, 0.5))
            && !IsInBox(t, Splat(0.0), Splat(1.0))
  {
  }
}
