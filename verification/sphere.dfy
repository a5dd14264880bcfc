/** The `Sphere` record the octree refers to by index. */
module Spheres {
  import opened Geometry

  /** Centre and radius, plus the material fields the renderer uploads. */
  datatype Sphere = Sphere(
    center: Vec3,
    radius: real,
    materialType: int,
    albedo: Vec3,
    fuzz: real,
    refractionIndex: real)

  /** The constructor with its defaults: diffuse material 0, white albedo,
      no fuzz and refraction index 1. The radius is not validated. */
  function NewSphere(center: Vec3, radius: real, materialType: int := 0,
                     albedo: Vec3 := Splat(1.0), fuzz: real := 0.0,
                     refractionIndex: real := 1.0): (s: Sphere)
    ensures s.center == center && s.radius == radius
    ensures s.materialType == materialType && s.albedo == albedo
    ensures s.fuzz == fuzz && s.refractionIndex == refractionIndex
  {
    Sphere(center, radius, materialType, albedo, fuzz, refractionIndex)
  }

  /** Built from centre and radius alone, a sphere carries the default
      material whatever the radius, a negative one included. */
  lemma NewSphereDefaults(center: Vec3, radius: real)
    ensures NewSphere(center, radius).materialType == 0
    ensures NewSphere(center, radius).albedo == Vec3(1.0, 1.0, 1.0)
    ensures NewSphere(center, radius).fuzz == 0.0
    ensures NewSphere(center, radius).refractionIndex == 1.0
    ensures NewSphere(center, radius).radius == radius
  {
  }

  /** The axis-aligned extent `center -/+ vec3(radius)`. It is a proper box
      around the centre exactly when the radius is not negative. */
  function Extent(s: Sphere): (b: Box)
    ensures ValidBox(b) <==> s.radius >= 0.0
    ensures s.radius >= 0.0 ==> Contains(b, s.center)
    ensures Mid(b) == s.center
  {
    Box(Sub(s.center, Splat(s.radius)), Add(s.center, Splat(s.radius)))
  }
}
