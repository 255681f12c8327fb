/** The scene (src/scene.rs): image size, field of view, shapes, lights and
    the shadow bias, together with the nearest-hit search every ray goes
    through. */
module Scenes {
  import opened Wrappers
  import opened Vector
  import opened Coordinates
  import opened Colors
  import opened Objects

  datatype Scene = Scene(width: nat, height: nat, fov: real, shapes: seq<Shape>, lights: seq<Light>, shadow: real)

  // ----- the fixed scene -----

  /** The one light: a greenish spherical light above and behind the origin. */
  const SCENE_LIGHT: Light :=
    Spherical(Coordinate(-2.0, 10.0, -3.0), Color(0.3, 0.8, 0.3), 24000.0)

  const BLUE_SPHERE: Shape :=
    NewSphere(Coordinate(-3.0, 0.0, -6.0), 2.0, Color(0.2 * 255.0, 0.2 * 255.0, 1.0 * 255.0), 0.004, 0.5)

  const RED_SPHERE: Shape :=
    NewSphere(Coordinate(2.0, -1.0, -4.0), 1.0, Color(1.0 * 255.0, 0.2 * 255.0, 0.2 * 255.0), 0.0038, 0.6)

  const FLOOR: Shape :=
    NewPlane(Coordinate(0.0, -2.0, 0.0), Vec3(0.0, -1.0, 0.0), Color(0.1 * 255.0, 0.1 * 255.0, 0.1 * 255.0), 0.008, 0.4)

  const BACK_WALL: Shape :=
    NewPlane(Coordinate(0.0, 0.0, -20.0), Vec3(0.0, 0.0, -1.0), Color(0.1 * 255.0, 0.1 * 255.0, 1.0 * 255.0), 0.005, 0.4)

  const SIDE_WALL: Shape :=
    NewPlane(Coordinate(-10.0, 0.0, -20.0), Vec3(-1.0, 0.0, 0.0), Color(1.0 * 255.0, 0.0 * 255.0, 0.2 * 255.0), 0.008, 0.4)

  /** The built-in scene: an 800 by 600 image with a 90 degree field of view,
      one spherical light, two spheres followed by three planes, and a shadow
      bias of 0.1. */
  function NewScene(): (s: Scene)
    ensures s.width == 800 && s.height == 600 && s.fov == 90.0 && s.shadow == 0.1
    ensures |s.lights| == 1 && s.lights[0].Spherical?
    ensures |s.shapes| == 5
    ensures s.shapes[0].SphereShape? && s.shapes[1].SphereShape?
    ensures s.shapes[2].PlaneShape? && s.shapes[3].PlaneShape? && s.shapes[4].PlaneShape?
  {
    Scene(800, 600, 90.0, [BLUE_SPHERE, RED_SPHERE, FLOOR, BACK_WALL, SIDE_WALL], [SCENE_LIGHT], 0.1)
  }

  /** A shape reflects a positive fraction of light less than one and has
      positive irradiance; a sphere has positive radius and does not contain
      the origin; a plane has a unit normal. */
  predicate WellFormedShape(shape: Shape)
  {
    && 0.0 < Reflectivity(shape) < 1.0
    && 0.0 < Irradiance(shape)
    && (shape.SphereShape? ==>
          0.0 < shape.sphere.radius
          && shape.sphere.radius * shape.sphere.radius
             < Dot(Sub(shape.sphere.center, Coordinate(0.0, 0.0, 0.0)), Sub(shape.sphere.center, Coordinate(0.0, 0.0, 0.0))))
    && (shape.PlaneShape? ==> Dot(shape.plane.normal, shape.plane.normal) == 1.0)
  }

  /** Every shape of the built-in scene is well formed: in particular the
      camera at the origin lies outside both spheres. */
  lemma NewSceneWellFormed()
    ensures forall i :: 0 <= i < |NewScene().shapes| ==> WellFormedShape(NewScene().shapes[i])
  {
    assert WellFormedShape(BLUE_SPHERE);
    assert WellFormedShape(RED_SPHERE);
    assert WellFormedShape(FLOOR);
    assert WellFormedShape(BACK_WALL);
    assert WellFormedShape(SIDE_WALL);
    assert NewScene().shapes == [BLUE_SPHERE, RED_SPHERE, FLOOR, BACK_WALL, SIDE_WALL];
  }

  // ----- nearest hit -----

  /** `h` records the first of the nearest intersections of the ray with the
      first `n` shapes: a real hit of the shape it names, no farther than any
      other hit, and strictly nearer than every hit of an earlier shape. */
  ghost predicate FirstNearest(sqrt: SquareRoot, shapes: seq<Shape>, ray: Ray, n: nat, h: Hit)
    requires n <= |shapes|
  {
    && h.index < n
    && ShapeHit(sqrt, shapes[h.index], ray) == Some(h.distance)
    && (forall i :: 0 <= i < n && ShapeHit(sqrt, shapes[i], ray).Some? ==>
          h.distance <= ShapeHit(sqrt, shapes[i], ray).value)
    && (forall i :: 0 <= i < h.index && ShapeHit(sqrt, shapes[i], ray).Some? ==>
          h.distance < ShapeHit(sqrt, shapes[i], ray).value)
  }

  /** The nearest hit among the first `n` shapes, scanning in order and
      replacing the best so far only by a strictly nearer hit (so ties go to
      the earlier shape). */
  function NearestAmong(sqrt: SquareRoot, shapes: seq<Shape>, ray: Ray, n: nat): (r: Option<Hit>)
    requires n <= |shapes|
    ensures r.None? <==> forall i :: 0 <= i < n ==> ShapeHit(sqrt, shapes[i], ray).None?
    ensures r.Some? ==> FirstNearest(sqrt, shapes, ray, n, r.value)
  {
    if n == 0 then None
    else
      var best := NearestAmong(sqrt, shapes, ray, n - 1);
      match ShapeHit(sqrt, shapes[n - 1], ray)
      case None => best
      case Some(d) =>
        if best.None? || d < best.value.distance then Some(Hit(d, n - 1)) else best
  }

  /** The scene's answer for a ray: the first nearest hit over all shapes;
      the lights play no part. */
  function Trace(sqrt: SquareRoot, scene: Scene, ray: Ray): (r: Option<Hit>)
    ensures r.None? <==> forall i :: 0 <= i < |scene.shapes| ==> ShapeHit(sqrt, scene.shapes[i], ray).None?
    ensures r.Some? ==> FirstNearest(sqrt, scene.shapes, ray, |scene.shapes|, r.value)
  {
    NearestAmong(sqrt, scene.shapes, ray, |scene.shapes|)
  }

  /** The first nearest hit is unique, so the trace reports a hit exactly
      when that hit is the first nearest one. */
  lemma TraceIsFirstNearest(sqrt: SquareRoot, scene: Scene, ray: Ray, h: Hit)
    ensures Trace(sqrt, scene, ray) == Some(h) <==> FirstNearest(sqrt, scene.shapes, ray, |scene.shapes|, h)
  {
  }

  /** Only the shape list matters to the trace: scenes with the same shapes
      answer every ray the same way, whatever their lights, size or bias. */
  lemma TraceIgnoresLights(sqrt: SquareRoot, scene: Scene, other: Scene, ray: Ray)
    requires scene.shapes == other.shapes
    ensures Trace(sqrt, scene, ray) == Trace(sqrt, other, ray)
  {
  }
}
