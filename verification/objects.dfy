/** Shapes, lights, rays and hits (src/objects.rs): the geometric queries
    the renderer asks of each primitive and each light. */
module Objects {
  import opened Wrappers
  import opened ExtendedReals
  import opened RealArith
  import opened Vector
  import opened Coordinates
  import opened Colors

  /** The tolerance below which a plane counts as facing away from a ray. */
  const EPSILON: real := 0.000001

  /** The circle constant used by the shading and falloff formulas. */
  const PI: real := 3.14159265358979323846

  datatype Ray = Ray(origin: Coordinate, direction: Vec3)

  datatype Sphere = Sphere(center: Coordinate, radius: real, color: Color, irradiance: real, reflectivity: real)

  datatype Plane = Plane(center: Coordinate, normal: Vec3, color: Color, irradiance: real, reflectivity: real)

  datatype Shape = PlaneShape(plane: Plane) | SphereShape(sphere: Sphere)

  datatype Light =
    | Directional(direction: Vec3, color: Color, strength: real)
    | Spherical(position: Coordinate, color: Color, strength: real)

  /** A ray's intersection with the shape at position `index` of the scene's
      shape list (the source borrows the shape itself). */
  datatype Hit = Hit(distance: real, index: nat)

  // ----- shapes: construction and material accessors -----

  /** The colour stored in the shape, whatever its kind. */
  function ShapeColor(s: Shape): (c: Color)
    ensures s.SphereShape? ==> c == s.sphere.color
    ensures s.PlaneShape? ==> c == s.plane.color
  {
    match s
    case SphereShape(sphere) => sphere.color
    case PlaneShape(plane) => plane.color
  }

  /** The irradiance stored in the shape, whatever its kind. */
  function Irradiance(s: Shape): (e: real)
    ensures s.SphereShape? ==> e == s.sphere.irradiance
    ensures s.PlaneShape? ==> e == s.plane.irradiance
  {
    match s
    case SphereShape(sphere) => sphere.irradiance
    case PlaneShape(plane) => plane.irradiance
  }

  /** The reflectivity stored in the shape, whatever its kind. */
  function Reflectivity(s: Shape): (k: real)
    ensures s.SphereShape? ==> k == s.sphere.reflectivity
    ensures s.PlaneShape? ==> k == s.plane.reflectivity
  {
    match s
    case SphereShape(sphere) => sphere.reflectivity
    case PlaneShape(plane) => plane.reflectivity
  }

  /** A sphere whose accessors report exactly the material it was built with. */
  function NewSphere(center: Coordinate, radius: real, color: Color, irradiance: real, reflectivity: real): (s: Shape)
    ensures s.SphereShape? && s.sphere.center == center && s.sphere.radius == radius
    ensures ShapeColor(s) == color && Irradiance(s) == irradiance && Reflectivity(s) == reflectivity
  {
    SphereShape(Sphere(center, radius, color, irradiance, reflectivity))
  }

  /** A plane whose accessors report exactly the material it was built with. */
  function NewPlane(center: Coordinate, normal: Vec3, color: Color, irradiance: real, reflectivity: real): (s: Shape)
    ensures s.PlaneShape? && s.plane.center == center && s.plane.normal == normal
    ensures ShapeColor(s) == color && Irradiance(s) == irradiance && Reflectivity(s) == reflectivity
  {
    PlaneShape(Plane(center, normal, color, irradiance, reflectivity))
  }

  // ----- intersection -----

  /** The point `t` units along the ray. */
  function PointAt(ray: Ray, t: real): Coordinate
  {
    AddVec(ray.origin, Scale(ray.direction, t))
  }

  /** One-sided plane test: only rays whose direction has a dot product with
      the stored normal above EPSILON can hit, and only at a non-negative
      distance. */
  function PlaneHit(plane: Plane, ray: Ray): (r: Option<real>)
    ensures Dot(plane.normal, ray.direction) <= EPSILON ==> r == None
    ensures r.Some? <==> EPSILON < Dot(plane.normal, ray.direction) && 0.0 <= Dot(Sub(plane.center, ray.origin), plane.normal)
    ensures r.Some? ==> 0.0 <= r.value && r.value * Dot(plane.normal, ray.direction) == Dot(Sub(plane.center, ray.origin), plane.normal)
  {
    var denom := Dot(plane.normal, ray.direction);
    if denom > EPSILON then
      var v := Sub(plane.center, ray.origin);
      var distance := Dot(v, plane.normal) / denom;
      DivideByPositive(Dot(v, plane.normal), denom);
      if distance >= 0.0 then Some(distance) else None
    else
      None
  }

  /** A plane hit lies on the plane: the hit point's offset from the plane's
      anchor point is orthogonal to the normal. */
  lemma PlaneHitOnPlane(plane: Plane, ray: Ray)
    requires PlaneHit(plane, ray).Some?
    ensures Dot(Sub(PointAt(ray, PlaneHit(plane, ray).value), plane.center), plane.normal) == 0.0
  {
    var t := PlaneHit(plane, ray).value;
    var o, d, c, n := ray.origin, ray.direction, plane.center, plane.normal;
    assert t * Dot(n, d) == Dot(Sub(c, o), n);
    PlaneAlgebra(o.x, o.y, o.z, d.x, d.y, d.z, c.x, c.y, c.z, n.x, n.y, n.z, t);
  }

  /** How far along the ray the sphere's center lies (its projection onto
      the direction). */
  function Projection(sphere: Sphere, ray: Ray): real
  {
    Dot(Sub(sphere.center, ray.origin), ray.direction)
  }

  /** The source's `squared`: the squared length of the center line, taken
      as the square of its computed length, minus the squared projection.
      For a unit direction and an exact square root this is the squared
      distance from the center to the ray's line. */
  function Squared(sqrt: SquareRoot, sphere: Sphere, ray: Ray): (sq: real)
  {
    var centerLine := Sub(sphere.center, ray.origin);
    Length(sqrt, centerLine) * Length(sqrt, centerLine) - Projection(sphere, ray) * Projection(sphere, ray)
  }

  /** The source's `width_square`: half the length of the chord the ray's
      line cuts from the sphere. */
  function HalfChord(sqrt: SquareRoot, sphere: Sphere, ray: Ray): real
  {
    sqrt(sphere.radius * sphere.radius - Squared(sqrt, sphere, ray))
  }

  /** The root choice of the sphere test, given the projection `length` and
      the half chord `width`: none when both roots `length -/+ width` are
      negative, otherwise `neg` if `neg < pos`, else `pos`. */
  function RootChoice(length: real, width: real): (r: Option<real>)
    ensures r.None? <==> length - width < 0.0 && length + width < 0.0
    ensures r.Some? ==> r.value <= length - width && r.value <= length + width
    ensures r.Some? ==> r.value == length - width || r.value == length + width
  {
    var neg := length - width;
    var pos := length + width;
    if neg < 0.0 && pos < 0.0 then None
    else Some(if neg < pos then neg else pos)
  }

  /** For a non-negative half chord the choice fails exactly when the far root
      is negative, and otherwise always yields the near root. */
  lemma RootChoiceNear(length: real, width: real)
    requires 0.0 <= width
    ensures RootChoice(length, width).None? <==> length + width < 0.0
    ensures RootChoice(length, width).Some? ==> RootChoice(length, width).value == length - width
  {
  }

  /** The sphere test: miss when the line passes farther than the radius from
      the center, otherwise choose among the two roots. */
  function SphereHit(sqrt: SquareRoot, sphere: Sphere, ray: Ray): (r: Option<real>)
    ensures r.Some? ==> r.value <= Projection(sphere, ray)
  {
    if Squared(sqrt, sphere, ray) > sphere.radius * sphere.radius then
      None
    else
      RootChoice(Projection(sphere, ray), HalfChord(sqrt, sphere, ray))
  }

  /** With an exact square root, `squared` is the center line's squared
      length minus the squared projection. */
  lemma SquaredExact(sqrt: SquareRoot, sphere: Sphere, ray: Ray)
    requires IsSqrt(sqrt)
    ensures Squared(sqrt, sphere, ray) == Dot(Sub(sphere.center, ray.origin), Sub(sphere.center, ray.origin)) - Projection(sphere, ray) * Projection(sphere, ray)
  {
    var centerLine := Sub(sphere.center, ray.origin);
    var len := Length(sqrt, centerLine);
    assert len * len == Dot(centerLine, centerLine);
  }

  /** With an exact square root the sphere test reports a hit exactly when the
      line meets the sphere and the far root is not behind the origin, and the
      distance it reports is always the near root: negative when the origin is
      inside the sphere. */
  lemma SphereHitRoots(sqrt: SquareRoot, sphere: Sphere, ray: Ray)
    requires IsSqrt(sqrt)
    ensures SphereHit(sqrt, sphere, ray).None? <==>
              sphere.radius * sphere.radius < Squared(sqrt, sphere, ray)
              || Projection(sphere, ray) + HalfChord(sqrt, sphere, ray) < 0.0
    ensures SphereHit(sqrt, sphere, ray).Some? ==>
              SphereHit(sqrt, sphere, ray).value == Projection(sphere, ray) - HalfChord(sqrt, sphere, ray)
              && 0.0 <= HalfChord(sqrt, sphere, ray)
  {
    if Squared(sqrt, sphere, ray) <= sphere.radius * sphere.radius {
      RootChoiceNear(Projection(sphere, ray), HalfChord(sqrt, sphere, ray));
    }
  }

  /** The squared distance from the center of the point at distance `t`,
      spelled out in components. */
  lemma OffsetComponents(ray: Ray, center: Coordinate, t: real)
    ensures Dot(Sub(PointAt(ray, t), center), Sub(PointAt(ray, t), center))
            == ((ray.origin.x + ray.direction.x * t) - center.x) * ((ray.origin.x + ray.direction.x * t) - center.x)
               + ((ray.origin.y + ray.direction.y * t) - center.y) * ((ray.origin.y + ray.direction.y * t) - center.y)
               + ((ray.origin.z + ray.direction.z * t) - center.z) * ((ray.origin.z + ray.direction.z * t) - center.z)
  {
  }

  /** The near root, written in terms of the projection and half-chord,
      lies on the sphere when the direction has unit length. */
  lemma NearRootOnSurface(ray: Ray, center: Coordinate, t: real, l: real, h: real, rr: real)
    requires Dot(ray.direction, ray.direction) == 1.0
    requires l == Dot(Sub(center, ray.origin), ray.direction)
    requires h * h == rr - (Dot(Sub(center, ray.origin), Sub(center, ray.origin)) - l * l)
    requires t == l - h
    ensures Dot(Sub(PointAt(ray, t), center), Sub(PointAt(ray, t), center)) == rr
  {
    var o, d, c := ray.origin, ray.direction, center;
    assert d.x * d.x + d.y * d.y + d.z * d.z == 1.0 by {
      DotComponents(d, d);
    }
    assert l == (c.x - o.x) * d.x + (c.y - o.y) * d.y + (c.z - o.z) * d.z by {
      DotComponents(Sub(c, o), d);
    }
    assert h * h == rr - (((c.x - o.x) * (c.x - o.x) + (c.y - o.y) * (c.y - o.y) + (c.z - o.z) * (c.z - o.z)) - l * l) by {
      DotComponents(Sub(c, o), Sub(c, o));
    }
    SphereAlgebra(o.x, o.y, o.z, d.x, d.y, d.z, c.x, c.y, c.z, t, l, h, rr);
    OffsetComponents(ray, center, t);
  }

  /** For a unit direction, a reported sphere hit lies on the sphere's surface. */
  lemma SphereHitOnSurface(sqrt: SquareRoot, sphere: Sphere, ray: Ray)
    requires IsSqrt(sqrt)
    requires Dot(ray.direction, ray.direction) == 1.0
    requires SphereHit(sqrt, sphere, ray).Some?
    ensures Dot(Sub(PointAt(ray, SphereHit(sqrt, sphere, ray).value), sphere.center),
                Sub(PointAt(ray, SphereHit(sqrt, sphere, ray).value), sphere.center))
            == sphere.radius * sphere.radius
  {
    SphereHitRoots(sqrt, sphere, ray);
    SquaredExact(sqrt, sphere, ray);
    var h := HalfChord(sqrt, sphere, ray);
    NearRootOnSurface(ray, sphere.center, SphereHit(sqrt, sphere, ray).value,
                      Projection(sphere, ray), h, sphere.radius * sphere.radius);
  }

  /** From inside the sphere the test always reports a hit, and it reports
      the root behind the origin: the distance is negative. */
  lemma SphereHitFromInside(sqrt: SquareRoot, sphere: Sphere, ray: Ray)
    requires IsSqrt(sqrt)
    requires Dot(Sub(sphere.center, ray.origin), Sub(sphere.center, ray.origin)) < sphere.radius * sphere.radius
    ensures SphereHit(sqrt, sphere, ray).Some?
    ensures SphereHit(sqrt, sphere, ray).value < 0.0
  {
    SquaredExact(sqrt, sphere, ray);
    var l := Projection(sphere, ray);
    var rr := sphere.radius * sphere.radius;
    var cl := Sub(sphere.center, ray.origin);
    DotSelfNonNegative(cl);
    assert Squared(sqrt, sphere, ray) < rr;
    var h := HalfChord(sqrt, sphere, ray);
    assert 0.0 <= h && h * h == rr - Squared(sqrt, sphere, ray);
    RootStraddles(l, h);
    SphereHitRoots(sqrt, sphere, ray);
  }

  /** A unit ray aimed through the center from at least a radius away hits
      the near side of the sphere, one radius before the center. */
  lemma SphereHitThroughCenter(sqrt: SquareRoot, sphere: Sphere, ray: Ray, s: real)
    requires IsSqrt(sqrt)
    requires Dot(ray.direction, ray.direction) == 1.0
    requires sphere.center == PointAt(ray, s)
    requires 0.0 <= sphere.radius <= s
    ensures SphereHit(sqrt, sphere, ray) == Some(s - sphere.radius)
  {
    var d := ray.direction;
    var cl := Sub(sphere.center, ray.origin);
    assert cl == Scale(d, s);
    DotComponents(d, d);
    AlongUnit(d.x, d.y, d.z, s);
    assert Projection(sphere, ray) == s;
    assert Dot(cl, cl) == s * s;
    SquaredExact(sqrt, sphere, ray);
    assert Squared(sqrt, sphere, ray) == 0.0;
    var h := HalfChord(sqrt, sphere, ray);
    assert 0.0 <= h && h * h == sphere.radius * sphere.radius;
    SquaresDetermine(h, sphere.radius);
    SphereHitRoots(sqrt, sphere, ray);
  }

  /** Dispatch of the intersection test on the kind of shape. */
  function ShapeHit(sqrt: SquareRoot, shape: Shape, ray: Ray): (r: Option<real>)
    ensures shape.PlaneShape? ==> r == PlaneHit(shape.plane, ray)
    ensures shape.SphereShape? ==> r == SphereHit(sqrt, shape.sphere, ray)
  {
    match shape
    case PlaneShape(plane) => PlaneHit(plane, ray)
    case SphereShape(sphere) => SphereHit(sqrt, sphere, ray)
  }

  // ----- surface normals -----

  /** The outward normal used for shading: a plane reports its stored normal
      reversed and normalized; a sphere the normalized offset of the point
      from its center. */
  function SurfaceNormal(sqrt: SquareRoot, shape: Shape, p: Coordinate): (n: Vec3)
    ensures shape.PlaneShape? ==> Negate(n) == Normalize(sqrt, shape.plane.normal)
    ensures shape.SphereShape? ==> n == Normalize(sqrt, Sub(p, shape.sphere.center))
  {
    match shape
    case PlaneShape(plane) => Negate(Normalize(sqrt, plane.normal))
    case SphereShape(sphere) => Normalize(sqrt, Sub(p, sphere.center))
  }

  /** A shape's normal is a unit vector; a plane's points against its stored
      normal, and a sphere's points away from the center through the point.
      Scaling a sphere's normal by the point's distance from the center gets
      back to the point. */
  lemma SurfaceNormalUnit(sqrt: SquareRoot, shape: Shape, p: Coordinate)
    requires IsSqrt(sqrt)
    requires shape.PlaneShape? ==> 0.0 < Dot(shape.plane.normal, shape.plane.normal)
    requires shape.SphereShape? ==> 0.0 < Dot(Sub(p, shape.sphere.center), Sub(p, shape.sphere.center))
    ensures Dot(SurfaceNormal(sqrt, shape, p), SurfaceNormal(sqrt, shape, p)) == 1.0
    ensures shape.PlaneShape? ==> Dot(SurfaceNormal(sqrt, shape, p), shape.plane.normal) < 0.0
    ensures shape.SphereShape? ==>
              0.0 < Dot(SurfaceNormal(sqrt, shape, p), Sub(p, shape.sphere.center))
              && AddVec(shape.sphere.center, Scale(SurfaceNormal(sqrt, shape, p), Length(sqrt, Sub(p, shape.sphere.center)))) == p
  {
    match shape
    case PlaneShape(plane) =>
      NormalizeUnit(sqrt, plane.normal);
      NegateDot(Normalize(sqrt, plane.normal), plane.normal);
      NegateDot(Normalize(sqrt, plane.normal), Normalize(sqrt, plane.normal));
    case SphereShape(sphere) =>
      NormalizeUnit(sqrt, Sub(p, sphere.center));
      SubThenAdd(p, sphere.center);
  }

  // ----- lights -----

  /** The colour stored in the light, whatever its kind. */
  function LightColor(light: Light): (c: Color)
    ensures c == light.color
  {
    match light
    case Directional(_, color, _) => color
    case Spherical(_, color, _) => color
  }

  /** The direction from a point toward the light: against a directional
      light's travel, or the normalized offset to a spherical light. */
  function DirectionFrom(sqrt: SquareRoot, light: Light, p: Coordinate): (dir: Vec3)
    ensures light.Directional? ==> Negate(dir) == light.direction
  {
    match light
    case Directional(direction, _, _) => Negate(direction)
    case Spherical(position, _, _) => Normalize(sqrt, Sub(position, p))
  }

  /** Toward a spherical light not at the point, the direction is a unit
      vector and travelling along it for the light's distance reaches the
      light. */
  lemma DirectionFromSpherical(sqrt: SquareRoot, light: Light, p: Coordinate)
    requires IsSqrt(sqrt)
    requires light.Spherical? && 0.0 < Dot(Sub(light.position, p), Sub(light.position, p))
    ensures Dot(DirectionFrom(sqrt, light, p), DirectionFrom(sqrt, light, p)) == 1.0
    ensures 0.0 < Dot(DirectionFrom(sqrt, light, p), Sub(light.position, p))
    ensures AddVec(p, Scale(DirectionFrom(sqrt, light, p), Length(sqrt, Sub(light.position, p)))) == light.position
  {
    NormalizeUnit(sqrt, Sub(light.position, p));
    SubThenAdd(light.position, p);
  }

  /** The falloff divides by the squared distance to a spherical light, so it
      is defined only when the light is not at the point. */
  predicate StrengthDefined(light: Light, p: Coordinate)
  {
    light.Spherical? ==> 0.0 < Dot(Sub(light.position, p), Sub(light.position, p))
  }

  /** The light's strength at the point: a directional light's own strength
      everywhere, a spherical light's spread over the sphere through the
      point. */
  function Strength(light: Light, p: Coordinate): (s: real)
    requires StrengthDefined(light, p)
    ensures light.Directional? ==> s == light.strength
  {
    match light
    case Directional(_, _, strength) => strength
    case Spherical(position, _, strength) =>
      var r2 := Dot(Sub(position, p), Sub(position, p));
      strength / (4.0 * PI * r2)
  }

  /** A spherical light's strength at the point times the area `4 PI r^2` of
      the sphere through the point is the light's own strength, so it keeps
      the light's sign. */
  lemma StrengthFalloff(light: Light, p: Coordinate)
    requires light.Spherical? && StrengthDefined(light, p)
    ensures Strength(light, p) * (4.0 * PI * Dot(Sub(light.position, p), Sub(light.position, p))) == light.strength
    ensures 0.0 < Strength(light, p) <==> 0.0 < light.strength
    ensures 0.0 <= Strength(light, p) <==> 0.0 <= light.strength
  {
    var r2 := Dot(Sub(light.position, p), Sub(light.position, p));
    DivideByPositive(light.strength, 4.0 * PI * r2);
  }

  /** The distance from a point to the light: infinite for a directional
      light, the length of the offset for a spherical one. */
  function Distance(sqrt: SquareRoot, light: Light, p: Coordinate): (e: Extended)
    ensures light.Directional? <==> e == PositiveInfinity
    ensures light.Spherical? <==> e.Finite?
  {
    match light
    case Directional(_, _, _) => PositiveInfinity
    case Spherical(position, _, _) => Finite(Length(sqrt, Sub(position, p)))
  }

  /** With an exact square root, a spherical light's distance is the
      non-negative number whose square is the squared offset, and no real
      distance exceeds a directional light's. */
  lemma DistanceMeasures(sqrt: SquareRoot, light: Light, p: Coordinate, d: real)
    requires IsSqrt(sqrt)
    ensures light.Spherical? ==>
              var e := Distance(sqrt, light, p).value;
              0.0 <= e && e * e == Dot(Sub(light.position, p), Sub(light.position, p))
    ensures light.Directional? ==> !Exceeds(d, Distance(sqrt, light, p))
  {
  }

  // ----- hits -----

  const NON_FINITE_HIT: string := "Intersection must have a finite distance."

  /** A hit record at the given distance; a non-finite distance is refused
      with a panic. */
  function HitNew(distance: Extended, index: nat): (h: Outcome<Hit>)
    ensures h.Ok? <==> distance.Finite?
    ensures h.Ok? ==> h.value.distance == distance.value && h.value.index == index
    ensures h.Panic? ==> h.message == NON_FINITE_HIT
  {
    if !distance.Finite? then Panic(NON_FINITE_HIT) else Ok(Hit(distance.value, index))
  }
}
