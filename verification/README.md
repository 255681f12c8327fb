# A Dafny model of a small recursive ray tracer

This project models the decision logic of `dtottie-hw4-raytracer`. That is
a Rust ray tracer that renders a fixed scene of two spheres and three
planes, lit by one spherical light, into a PPM image. The model covers:

- point and vector arithmetic (`src/coordinate.rs`);
- colours and clamping, plus the shape and light queries: the one-sided
  plane test, the sphere root choice, surface normals, light direction,
  falloff and distance, and `Hit::new` (`src/objects.rs`);
- the built-in scene and the nearest-hit search `trace` (`src/scene.rs`);
- one shading step of `calculate_pixels` (shadow test, diffuse sum, clamp,
  reflection ray, two-step blend), and `rgb` (`src/main.rs`).

Everything works over `real`. The vector library's square root is a
parameter `sqrt: SquareRoot`. Facts that depend on it assume `IsSqrt(sqrt)`,
an exact non-negative square root. The colour of the reflection ray's hit
comes from the recursive call in the source. Here it is a parameter,
`shade: (Ray, Hit) -> Color`. The primary ray's hit is shaded by `Shade`
itself (`PixelColor`); only the reflection ray's colour goes through
`shade`.

A hit refers to its shape by index into the scene's shape list; in the
source it borrows the shape.

Modules, in dependency order:

- `Wrappers`: `Option` and `Outcome`. `Panic` stands for a Rust `panic!`.
- `ExtendedReals`: finite values plus infinities and NaN, with the IEEE
  `>` comparison `Exceeds`.
- `RealArith`: small real-arithmetic facts behind the geometry.
- `Vector`: the vector type and dot product, plus length and normalize
  over the square-root parameter.
- `Coordinates`: `src/coordinate.rs`.
- `Colors`: the `Color` type and its operators, which live in
  `src/objects.rs`.
- `Objects`: the rest of `src/objects.rs`.
- `Scenes`: `src/scene.rs`.
- `Render`: `calculate_pixels` and `rgb` from `src/main.rs`.

Four behaviours of the code are easy to misread:

- **Sphere hit.** From an origin inside a sphere the code returns the near
  root `length - half_chord`, which is negative, not the exit point
  (`SphereHitRoots`, `SphereHitFromInside`).
- **Occluder beyond the light.** A shadow-ray hit farther away than a
  point light does not block it (`InLightNoOccluder`).
- **Zero reflectivity.** With `k = 0`, the blend turns any colour
  black; the `> 0` guard keeps the direct colour instead
  (`BlendNoReflectivity`, `Finish`).
- **Recursion depth.** The two blending steps are fixed, but each one
  recurses through `calculate_pixels` on the reflection ray's hit without
  any depth limit.

## Model

| member | source | states |
|---|---|---|
| Coordinates.Sub | src/coordinate.rs:11-17 | `p - q` is the displacement that carries `q` back to `p`, and it is zero exactly when the points coincide |
| Coordinates.AddVec | src/coordinate.rs:19-29 | point plus vector moves each coordinate by the matching component |
| Coordinates.VecAdd | src/coordinate.rs:30-36 | vector plus point moves each coordinate by the matching component |
| Coordinates.AddThenSub | src/coordinate.rs:14-28 | `(p + v) - p == v` |
| Coordinates.SubThenAdd | src/coordinate.rs:14-28 | `q + (p - q) == p` |
| Coordinates.SubSelf | src/coordinate.rs:14-16 | `p - p` is the zero vector |
| Coordinates.AddCommutes | src/coordinate.rs:33-35 | vector + point equals point + vector |
| Coordinates.AddVecPlus | src/coordinate.rs:22-28 | translating by `u` then `v` is translating by `u + v` |
| Colors.Add | src/objects.rs:281-290 | colour sum is channel-wise, with each channel added to itself despite the r, b, g field order |
| Colors.AddCommutes | src/objects.rs:283-289 | colour addition is commutative |
| Colors.AddBlack | src/objects.rs:283-289 | black is the identity of colour addition |
| Colors.AddAssociates | src/objects.rs:283-289 | colour addition is associative |
| Colors.Mul | src/objects.rs:250-259 | colour product is channel-wise |
| Colors.MulCommutes | src/objects.rs:250-259 | colour product is symmetric and black absorbs |
| Colors.MulScalar | src/objects.rs:262-271 | `colour * s` scales every channel by `s` |
| Colors.ScalarMul | src/objects.rs:273-279 | `s * colour` scales every channel by `s` |
| Colors.ScaleCommutes | src/objects.rs:264-278 | `s * c == c * s` |
| Colors.ClampChannel | src/objects.rs:231-237 | `min(1).max(0)` lands in [0, 1], is the identity there, and sends values below 0 to 0 and above 1 to 1 |
| Colors.Clamp | src/objects.rs:231-237 | the clamped colour is in [0, 1]; each channel already in [0, 1] keeps its value, even when another channel is out of range, and out-of-range channels go to the nearer bound |
| Colors.ClampIdempotent | src/objects.rs:231-237 | a colour in [0, 1] is its own clamp, and clamping twice equals clamping once |
| Vector.Length | src/objects.rs:176-178 | with an exact root, the length is the non-negative number whose square is `v . v` |
| Vector.Normalize | src/objects.rs:192-194 | a vector of positive length is its normalized form scaled back by that length; a zero-length vector comes back unchanged |
| Vector.NormalizeUnit | src/objects.rs:192-194 | a non-zero vector normalizes to a unit vector with positive dot product against it, and scaling back by its length recovers it |
| Vector.NegateDot | src/objects.rs:169-171 | negating one side of a dot product negates it; negating both sides keeps it |
| Objects.NewSphere | src/objects.rs:73-87 | a sphere shape whose accessors return exactly the colour, irradiance and reflectivity it was built with |
| Objects.NewPlane | src/objects.rs:88-102 | a plane shape whose accessors return exactly the material it was built with |
| Objects.ShapeColor | src/objects.rs:103-108 | a shape's colour is the colour stored in its sphere or plane record |
| Objects.Irradiance | src/objects.rs:109-114 | a shape's irradiance is the one stored in its sphere or plane record |
| Objects.Reflectivity | src/objects.rs:115-120 | a shape's reflectivity is the one stored in its sphere or plane record |
| Objects.PlaneHit | src/objects.rs:156-168 | no hit when `normal . dir <= 1e-6`; a hit exactly when the denominator exceeds 1e-6 and the numerator is non-negative; a hit is at `d >= 0` with `d * denom == (center - origin) . normal` |
| Objects.PlaneHitOnPlane | src/objects.rs:157-165 | the point at a reported plane distance lies on the plane |
| Objects.RootChoice | src/objects.rs:184-190 | no root exactly when both roots are negative; otherwise the smaller of the two roots, which is one of them |
| Objects.RootChoiceNear | src/objects.rs:184-190 | for a non-negative half chord, the root choice fails exactly when the far root is negative, and otherwise gives the near root |
| Objects.SphereHit | src/objects.rs:175-191 | a reported sphere distance never exceeds the projection of the center on the direction |
| Objects.SquaredExact | src/objects.rs:176-178 | with an exact root, `squared` is `|center - origin|^2 - length^2` |
| Objects.SphereHitRoots | src/objects.rs:175-191 | no hit exactly when `squared > r^2` or both roots are negative; otherwise always the near root `length - half_chord` |
| Objects.SphereHitOnSurface | src/objects.rs:175-191 | for a unit direction, a reported sphere hit lies on the sphere |
| Objects.SphereHitFromInside | src/objects.rs:180-190 | from an origin strictly inside the sphere there is always a hit, and it is at a negative distance |
| Objects.SphereHitThroughCenter | src/objects.rs:175-191 | a unit ray through the center from at least a radius away hits one radius before the center |
| Objects.ShapeHit | src/objects.rs:141-146 | the shape's hit test is the plane or sphere test of its kind |
| Objects.SurfaceNormal | src/objects.rs:147-152 | a plane's normal is its stored normal, normalized and negated; a sphere's is the normalized offset of the point from the center |
| Objects.SurfaceNormalUnit | src/objects.rs:147-194 | normals are unit vectors; a plane's points against its stored normal; a sphere's points away from the center and leads back to the point |
| Objects.LightColor | src/objects.rs:198-203 | the colour of either kind of light is the colour it was built with |
| Objects.DirectionFrom | src/objects.rs:205-210 | for a directional light the direction to the light is the negated stored direction |
| Objects.DirectionFromSpherical | src/objects.rs:205-210 | toward a spherical light the direction is a unit vector that reaches the light after its distance |
| Objects.Strength | src/objects.rs:212-220 | a directional light has its own strength at every point |
| Objects.StrengthFalloff | src/objects.rs:212-220 | a spherical light's strength times `4 PI r^2` is the light's strength, so it is positive exactly when the light's strength is |
| Objects.Distance | src/objects.rs:222-227 | a directional light is infinitely far; a spherical light is at a finite distance |
| Objects.DistanceMeasures | src/objects.rs:222-227 | the spherical distance squares to the squared offset, and no real distance exceeds a directional light's |
| Objects.HitNew | src/objects.rs:240-247 | a hit is built exactly for a finite distance and records that distance and shape; otherwise it panics with the source's message |
| Scenes.NewScene | src/scene.rs:16-139 | an 800 by 600 image, fov 90, shadow bias 0.1, one spherical light, and shapes in the order sphere, sphere, plane, plane, plane |
| Scenes.NewSceneWellFormed | src/scene.rs:33-123 | every built-in shape reflects a fraction in (0, 1) and has positive irradiance; the spheres have positive radius and do not contain the camera; the plane normals are unit vectors |
| Scenes.NearestAmong | src/scene.rs:142-147 | over the first `n` shapes: no hit exactly when every shape misses; otherwise that shape's own distance, no farther than any hit, and strictly nearer than every earlier shape's hit |
| Scenes.Trace | src/scene.rs:142-147 | no hit exactly when every shape misses; otherwise the first nearest hit over all shapes |
| Scenes.TraceIsFirstNearest | src/scene.rs:142-147 | the trace returns a hit if and only if it is the first nearest hit |
| Scenes.TraceIgnoresLights | src/scene.rs:142-147 | scenes with the same shapes trace every ray alike, whatever their lights |
| Render.ShadowRay | src/main.rs:68-73 | the shadow ray starts `shadow` along the normal from the point and heads toward the light |
| Render.InLight | src/main.rs:75-77 | a shadow ray that hits nothing leaves the light reaching the point; a directional light reaches it exactly when the shadow ray hits nothing |
| Render.InLightNoOccluder | src/main.rs:75-77 | a light reaches the point exactly when every shape the shadow ray hits is hit beyond the light's distance; for a directional light, exactly when the shadow ray hits nothing |
| Render.Intensity | src/main.rs:79-83 | a light that reaches the point has its strength there as intensity; a blocked light has zero |
| Render.Facing | src/main.rs:84-85 | the cosine term is `normal . L` when that is positive and zero otherwise |
| Render.Filtered | src/main.rs:86-89 | zero light power gives black |
| Render.FilteredChannels | src/main.rs:86-89 | each channel of the filtered colour is the shape's channel times the light's channel times the power times the reflected fraction |
| Render.LightContribution | src/main.rs:68-89 | a light adds black when it does not reach the point or when `normal . L <= 0`; its lit value is stated by `LitContribution` |
| Render.ContributionFiltered | src/main.rs:79-89 | a light's contribution is the filtered colour of the shape and the light at power `Facing * Intensity` and fraction `irradiance / PI` |
| Render.LitPower | src/main.rs:75-85 | for a light that reaches the point from in front, the cosine term is `normal . L` and the intensity is the light's strength at the point (`LitContribution` combines this with `ContributionFiltered` and `FilteredChannels`) |
| Render.LitContribution | src/main.rs:79-89 | a light that reaches the point from in front adds, in each channel, `shape * ((light * ((normal . L) * strength)) * (irradiance / PI))` |
| Render.LitAddsLight | src/main.rs:79-89 | a light of positive strength and colour that reaches the point from in front adds to every channel of a shape with positive colour and irradiance |
| Render.FilteredPositive | src/main.rs:86-89 | positive colours, power and fraction give a colour positive in every channel |
| Render.IntensityPositive | src/main.rs:79-83 | a light of positive strength that reaches the point has positive intensity |
| Render.LightSum | src/main.rs:62-90 | no lights sum to black, and a single light sums to its own contribution |
| Render.LightSumConcat | src/main.rs:67-90 | the sum over two light lists one after the other is the sum of their sums, so the direct colour is the sum of every light's contribution |
| Render.DarkAddsNothing | src/main.rs:79-89 | a blocked or back-facing light adds black |
| Render.AllDarkIsBlack | src/main.rs:67-90 | if no light reaches the point from in front, the summed direct colour is black |
| Render.IntensityNonNegative | src/main.rs:79-83 | a light of non-negative strength has non-negative intensity at every point it is away from |
| Render.FilteredNonNegative | src/main.rs:86-89 | non-negative colours, power and fraction give a non-negative colour |
| Render.ContributionNonNegative | src/main.rs:79-89 | non-negative colours, strengths and irradiance give a non-negative contribution |
| Render.LightSumNonNegative | src/main.rs:67-90 | under the same conditions the summed direct colour is non-negative |
| Render.LightSumPositive | src/main.rs:67-90 | one lit, front-facing light of positive strength and colour makes the sum positive in every channel when the shape's colour and irradiance are positive and no light has a negative colour or strength |
| Render.DirectColor | src/main.rs:91 | each channel of the direct colour is the light sum's channel when that lies in [0, 1], 0 below and 1 above, whatever the other channels do |
| Render.ReflectionRay | src/main.rs:94-97 | the reflection ray starts `shadow` along the normal from the point, and adding back `2 (d . N) N` to its direction recovers the incoming direction `d` |
| Render.ReflectionMirrors | src/main.rs:94-97 | about a unit normal the reflected direction has the opposite normal component and the same length, and it starts `shadow` off the surface |
| Render.BlendStep | src/main.rs:103-111 | one blend gives `c * k + k * R` in every channel (`StepChannel`) |
| Render.Blend | src/main.rs:101-112 | zero blending steps leave the colour unchanged |
| Render.ChannelClosedForm | src/main.rs:101-112 | after `n` steps a channel is `c k^n + R (k + ... + k^n)` |
| Render.BlendByChannel | src/main.rs:101-112 | blending works channel by channel |
| Render.BlendClosedForm | src/main.rs:101-112 | after `n` steps each channel is `c k^n + R (k + ... + k^n)` |
| Render.BlendTwice | src/main.rs:101-112 | the two fixed steps give `c k^2 + R (k^2 + k)`, with no re-clamping |
| Render.BlendNoReflectivity | src/main.rs:99-113 | with `k = 0` any positive number of steps gives black |
| Render.Reflected | src/main.rs:102-111 | a reflection ray that hits nothing brings back black; one that hits brings back the recursive colour at its nearest hit |
| Render.Finish | src/main.rs:99-115 | a non-positive reflectivity leaves the direct colour unchanged |
| Render.HitPoint | src/main.rs:59 | the hit point lies `distance` along the ray direction from the ray origin |
| Render.FinishClosedForm | src/main.rs:99-115 | a positive reflectivity gives the two-step closed form |
| Render.Shade | src/main.rs:58-116 | a shape that does not reflect gets a colour in [0, 1] |
| Render.ShadeClosedForm | src/main.rs:58-116 | a shaded colour is the clamped direct colour for `k <= 0`, and otherwise `direct k^2 + R (k^2 + k)` for the reflection ray's colour `R` (black if it escapes) |
| Render.Rgb | src/main.rs:51-56 | a colour in [0, 1] lands in [0, 255] |
| Render.RgbInverse | src/main.rs:51-56 | dividing `rgb`'s channels by 255 recovers the colour |
| Render.PixelColor | src/main.rs:41-43 | a primary ray that hits nothing is black; otherwise each channel divided by 255 is the shaded colour of its nearest hit, and a non-reflecting hit lies in [0, 255] |
| Render.PixelClosedForm | src/main.rs:41-43 | a hit pixel over 255 is the clamped direct colour for `k <= 0`, and otherwise `direct k^2 + R (k^2 + k)` with `R` the reflection ray's colour |

## Left out

- `pixelator` and `main`: file creation, the PPM header and the `as u8` casts are I/O and output formatting.
- `Ray::first`: camera-ray generation needs `tan`, `to_radians` and a floating-point normalize.
- IEEE rounding, the f32 and f64 widths and the casts between them are not modelled. Neither is the `partial_cmp(...).unwrap()` panic on NaN in `trace`. All arithmetic is exact over `real`.
- `Scenes.NearestAmong`: builds hit records directly instead of through `Hit::new`, because over the reals every reported distance is finite and `Hit::new` never panics. `Objects.HitNew` models the panic on its own.
- Vector length and normalize: these belong to the vector library, which is not part of this model. The square root is a parameter.
- `Vector.Normalize`: returns the zero vector unchanged where the library would give NaN components.
- `Objects.Strength`: requires that a spherical light is not at the point. The source divides by zero there and gets an infinite or NaN strength.
- `Render.PixelColor`: requires, like `Objects.Strength`, that no spherical light sits at the primary hit point.
- `Render.Intensity`, `Render.LightContribution`, `Render.LightSum`, `Render.DirectColor` and `Render.Shade`: require the same thing at the shaded point (`StrengthDefined`, `AllStrengthsDefined`, or for `Shade` the `Shadeable` predicate that includes it), for the same reason.
- `Objects.PI`: a 21-digit decimal approximation of π stands in for the f32 constant.
- `Render.Shade`: the recursive call on the reflection ray's hit is the parameter `shade`, because the source recursion has no depth bound and no termination measure.
- `Render.Shade`: each blending step looks up the reflection ray's colour again. The model computes it once, because the trace and the recursive call have no side effects and give the same result both times.
