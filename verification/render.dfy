/** Shading of one pixel (src/main.rs): direct light from every light that
    the shadow ray can reach, clamped, then two identical reflection blending
    steps; and the conversion of a colour to the 0..255 scale. */
module Render {
  import opened Wrappers
  import opened ExtendedReals
  import opened RealArith
  import opened Vector
  import opened Coordinates
  import opened Colors
  import opened Objects
  import opened Scenes

  /** The number of times the reflection blend is applied. */
  const REFLECTION_STEPS: nat := 2

  // ----- shadows -----

  /** The ray from the hit point, pushed off the surface by `shadow` along the
      normal, toward the light. */
  function ShadowRay(sqrt: SquareRoot, scene: Scene, light: Light, p: Coordinate, normal: Vec3): (r: Ray)
    ensures Sub(r.origin, p) == Scale(normal, scene.shadow)
    ensures r.direction == DirectionFrom(sqrt, light, p)
  {
    var origin := AddVec(p, Scale(normal, scene.shadow));
    AddThenSub(p, Scale(normal, scene.shadow));
    Ray(origin, DirectionFrom(sqrt, light, p))
  }

  /** A light reaches the point when the shadow ray hits nothing, or when its
      nearest hit lies beyond the light's distance from the point. */
  predicate InLight(sqrt: SquareRoot, scene: Scene, light: Light, p: Coordinate, normal: Vec3): (lit: bool)
    ensures Trace(sqrt, scene, ShadowRay(sqrt, scene, light, p, normal)).None? ==> lit
    ensures light.Directional? ==> (lit <==> Trace(sqrt, scene, ShadowRay(sqrt, scene, light, p, normal)).None?)
  {
    var shadow := Trace(sqrt, scene, ShadowRay(sqrt, scene, light, p, normal));
    shadow.None? || Exceeds(shadow.value.distance, Distance(sqrt, light, p))
  }

  /** Exceeding is preserved by moving to a larger distance. */
  lemma ExceedsMonotone(d: real, v: real, e: Extended)
    requires d <= v && Exceeds(d, e)
    ensures Exceeds(v, e)
  {
  }

  /** A light reaches the point exactly when every shape the shadow ray hits
      is hit beyond the light's distance.  In particular a directional light
      reaches it only if the shadow ray hits nothing at all. */
  lemma InLightNoOccluder(sqrt: SquareRoot, scene: Scene, light: Light, p: Coordinate, normal: Vec3)
    ensures InLight(sqrt, scene, light, p, normal) <==>
              forall i :: 0 <= i < |scene.shapes| && ShapeHit(sqrt, scene.shapes[i], ShadowRay(sqrt, scene, light, p, normal)).Some? ==>
                Exceeds(ShapeHit(sqrt, scene.shapes[i], ShadowRay(sqrt, scene, light, p, normal)).value, Distance(sqrt, light, p))
    ensures light.Directional? ==>
              (InLight(sqrt, scene, light, p, normal) <==> Trace(sqrt, scene, ShadowRay(sqrt, scene, light, p, normal)).None?)
  {
    var ray := ShadowRay(sqrt, scene, light, p, normal);
    var e := Distance(sqrt, light, p);
    var shadow := Trace(sqrt, scene, ray);
    if shadow.Some? && Exceeds(shadow.value.distance, e) {
      forall i | 0 <= i < |scene.shapes| && ShapeHit(sqrt, scene.shapes[i], ray).Some?
        ensures Exceeds(ShapeHit(sqrt, scene.shapes[i], ray).value, e)
      {
        ExceedsMonotone(shadow.value.distance, ShapeHit(sqrt, scene.shapes[i], ray).value, e);
      }
    }
  }

  // ----- direct light -----

  /** The strength of the light at the point if it reaches it, else zero. */
  function Intensity(sqrt: SquareRoot, scene: Scene, light: Light, p: Coordinate, normal: Vec3): (i: real)
    requires StrengthDefined(light, p)
    ensures InLight(sqrt, scene, light, p, normal) ==> i == Strength(light, p)
    ensures !InLight(sqrt, scene, light, p, normal) ==> i == 0.0
  {
    if InLight(sqrt, scene, light, p, normal) then Strength(light, p) else 0.0
  }

  /** The cosine term `normal . L`, cut off at zero. */
  function Facing(sqrt: SquareRoot, light: Light, p: Coordinate, normal: Vec3): (f: real)
    ensures 0.0 <= f
    ensures 0.0 < Dot(normal, DirectionFrom(sqrt, light, p)) ==> f == Dot(normal, DirectionFrom(sqrt, light, p))
    ensures Dot(normal, DirectionFrom(sqrt, light, p)) <= 0.0 ==> f == 0.0
  {
    var cosine := Dot(normal, DirectionFrom(sqrt, light, p));
    if cosine > 0.0 then cosine else 0.0
  }

  /** The power a light delivers to the point: the cosine term times the
      intensity. */
  function LightPower(sqrt: SquareRoot, scene: Scene, light: Light, p: Coordinate, normal: Vec3): real
    requires StrengthDefined(light, p)
  {
    Facing(sqrt, light, p, normal) * Intensity(sqrt, scene, light, p, normal)
  }

  /** The fraction of the incoming light the shape reflects: its irradiance
      over PI. */
  function ReflectedFraction(shape: Shape): real
  {
    Irradiance(shape) / PI
  }

  /** The shape's colour filtered by the light's colour scaled by `power`
      and by the reflected fraction. */
  function Filtered(surface: Color, light: Color, power: real, reflected: real): (c: Color)
    ensures power == 0.0 ==> c == Black
  {
    assert power == 0.0 ==> MulScalar(MulScalar(light, power), reflected) == Black;
    Mul(surface, MulScalar(MulScalar(light, power), reflected))
  }

  /** What one light adds to the colour of the point `p` of `shape`: the
      shape's colour filtered by the light's colour, scaled by the cosine
      `normal . L` (cut off at zero), the light's strength if it reaches the
      point (zero otherwise), and the shape's irradiance over PI. */
  function LightContribution(sqrt: SquareRoot, scene: Scene, shape: Shape, light: Light, p: Coordinate, normal: Vec3): (c: Color)
    requires StrengthDefined(light, p)
    ensures !InLight(sqrt, scene, light, p, normal) ==> c == Black
    ensures Dot(normal, DirectionFrom(sqrt, light, p)) <= 0.0 ==> c == Black
  {
    var power := LightPower(sqrt, scene, light, p, normal);
    assert Facing(sqrt, light, p, normal) == 0.0 || Intensity(sqrt, scene, light, p, normal) == 0.0 ==> power == 0.0;
    Filtered(ShapeColor(shape), LightColor(light), power, ReflectedFraction(shape))
  }

  /** The contribution is the filtered colour at the light's power and the
      shape's reflected fraction. */
  lemma ContributionFiltered(sqrt: SquareRoot, scene: Scene, shape: Shape, light: Light, p: Coordinate, normal: Vec3)
    requires StrengthDefined(light, p)
    ensures LightContribution(sqrt, scene, shape, light, p, normal)
            == Filtered(ShapeColor(shape), LightColor(light),
                        LightPower(sqrt, scene, light, p, normal), ReflectedFraction(shape))
  {
  }

  /** Every light in the list is away from the point. */
  predicate AllStrengthsDefined(lights: seq<Light>, p: Coordinate)
  {
    forall i :: 0 <= i < |lights| ==> StrengthDefined(lights[i], p)
  }

  /** The contributions of the lights, added in list order onto black. */
  function LightSum(sqrt: SquareRoot, scene: Scene, shape: Shape, lights: seq<Light>, p: Coordinate, normal: Vec3): (c: Color)
    requires AllStrengthsDefined(lights, p)
    ensures |lights| == 0 ==> c == Black
    ensures |lights| == 1 ==> c == LightContribution(sqrt, scene, shape, lights[0], p, normal)
    decreases |lights|
  {
    if |lights| == 0 then Black
    else
      var init := LightSum(sqrt, scene, shape, lights[..|lights| - 1], p, normal);
      var last := LightContribution(sqrt, scene, shape, lights[|lights| - 1], p, normal);
      assert |lights| == 1 ==> Add(init, last) == last by {
        if |lights| == 1 {
          assert |lights[..|lights| - 1]| == 0;
          AddBlack(last);
        }
      }
      Add(init, last)
  }

  /** Summing two light lists one after the other sums the concatenated
      list. */
  lemma {:induction false} LightSumConcat(sqrt: SquareRoot, scene: Scene, shape: Shape, a: seq<Light>, b: seq<Light>, p: Coordinate, normal: Vec3)
    requires AllStrengthsDefined(a, p) && AllStrengthsDefined(b, p)
    ensures AllStrengthsDefined(a + b, p)
    ensures LightSum(sqrt, scene, shape, a + b, p, normal)
            == Add(LightSum(sqrt, scene, shape, a, p, normal), LightSum(sqrt, scene, shape, b, p, normal))
    decreases |b|
  {
    if |b| == 0 {
      assert a + b == a;
      AddBlack(LightSum(sqrt, scene, shape, a, p, normal));
    } else {
      var init := b[..|b| - 1];
      var last := b[|b| - 1];
      assert forall i :: 0 <= i < |init| ==> init[i] == b[i];
      LightSumConcat(sqrt, scene, shape, a, init, p, normal);
      assert (a + b)[..|a + b| - 1] == a + init;
      assert (a + b)[|a + b| - 1] == last;
      AddAssociates(LightSum(sqrt, scene, shape, a, p, normal), LightSum(sqrt, scene, shape, init, p, normal),
                    LightContribution(sqrt, scene, shape, last, p, normal));
    }
  }

  /** A light adds nothing when it is blocked or lies behind the surface. */
  predicate Dark(sqrt: SquareRoot, scene: Scene, light: Light, p: Coordinate, normal: Vec3)
  {
    !InLight(sqrt, scene, light, p, normal) || Dot(normal, DirectionFrom(sqrt, light, p)) <= 0.0
  }

  /** A dark light contributes black. */
  lemma DarkAddsNothing(sqrt: SquareRoot, scene: Scene, shape: Shape, light: Light, p: Coordinate, normal: Vec3)
    requires StrengthDefined(light, p) && Dark(sqrt, scene, light, p, normal)
    ensures LightContribution(sqrt, scene, shape, light, p, normal) == Black
  {
  }

  /** If no light reaches the point from in front of the surface, the direct
      colour is black. */
  lemma {:induction false} AllDarkIsBlack(sqrt: SquareRoot, scene: Scene, shape: Shape, lights: seq<Light>, p: Coordinate, normal: Vec3)
    requires AllStrengthsDefined(lights, p)
    requires forall i :: 0 <= i < |lights| ==> Dark(sqrt, scene, lights[i], p, normal)
    ensures LightSum(sqrt, scene, shape, lights, p, normal) == Black
    decreases |lights|
  {
    if |lights| > 0 {
      var init := lights[..|lights| - 1];
      var last := lights[|lights| - 1];
      assert LightSum(sqrt, scene, shape, init, p, normal) == Black by {
        assert forall i :: 0 <= i < |init| ==> init[i] == lights[i];
        AllDarkIsBlack(sqrt, scene, shape, init, p, normal);
      }
      assert LightContribution(sqrt, scene, shape, last, p, normal) == Black by {
        DarkAddsNothing(sqrt, scene, shape, last, p, normal);
      }
    }
  }

  /** Non-negative colours, strengths and irradiance give a non-negative
      contribution from every light. */
  lemma {:induction false} LightSumNonNegative(sqrt: SquareRoot, scene: Scene, shape: Shape, lights: seq<Light>, p: Coordinate, normal: Vec3)
    requires AllStrengthsDefined(lights, p)
    requires NonNegative(ShapeColor(shape)) && 0.0 <= Irradiance(shape)
    requires forall i :: 0 <= i < |lights| ==> NonNegative(LightColor(lights[i])) && 0.0 <= lights[i].strength
    ensures NonNegative(LightSum(sqrt, scene, shape, lights, p, normal))
    decreases |lights|
  {
    if |lights| > 0 {
      var init := lights[..|lights| - 1];
      var last := lights[|lights| - 1];
      assert forall i :: 0 <= i < |init| ==> init[i] == lights[i];
      LightSumNonNegative(sqrt, scene, shape, init, p, normal);
      ContributionNonNegative(sqrt, scene, shape, last, p, normal);
    }
  }

  /** Filtering non-negative colours by a non-negative power and fraction
      gives a non-negative colour. */
  lemma FilteredNonNegative(surface: Color, light: Color, power: real, reflected: real)
    requires NonNegative(surface) && NonNegative(light) && 0.0 <= power && 0.0 <= reflected
    ensures NonNegative(Filtered(surface, light, power, reflected))
  {
    ProductNonNegative(light.r, power);
    ProductNonNegative(light.g, power);
    ProductNonNegative(light.b, power);
    ProductNonNegative(light.r * power, reflected);
    ProductNonNegative(light.g * power, reflected);
    ProductNonNegative(light.b * power, reflected);
    ProductNonNegative(surface.r, light.r * power * reflected);
    ProductNonNegative(surface.g, light.g * power * reflected);
    ProductNonNegative(surface.b, light.b * power * reflected);
  }

  /** Positive factors give a colour positive in every channel. */
  lemma FilteredPositive(surface: Color, light: Color, power: real, reflected: real)
    requires Positive(surface) && Positive(light) && 0.0 < power && 0.0 < reflected
    ensures Positive(Filtered(surface, light, power, reflected))
  {
    ProductPositive(light.r, power);
    ProductPositive(light.g, power);
    ProductPositive(light.b, power);
    ProductPositive(light.r * power, reflected);
    ProductPositive(light.g * power, reflected);
    ProductPositive(light.b * power, reflected);
    ProductPositive(surface.r, light.r * power * reflected);
    ProductPositive(surface.g, light.g * power * reflected);
    ProductPositive(surface.b, light.b * power * reflected);
  }

  /** A light of positive strength that reaches the point has positive
      intensity there. */
  lemma IntensityPositive(sqrt: SquareRoot, scene: Scene, light: Light, p: Coordinate, normal: Vec3)
    requires StrengthDefined(light, p) && 0.0 < light.strength
    requires InLight(sqrt, scene, light, p, normal)
    ensures 0.0 < Intensity(sqrt, scene, light, p, normal)
  {
    if light.Spherical? {
      StrengthFalloff(light, p);
    }
  }

  /** A lit, front-facing light of positive strength gives a positive power. */
  lemma PowerPositive(sqrt: SquareRoot, scene: Scene, light: Light, p: Coordinate, normal: Vec3)
    requires StrengthDefined(light, p) && !Dark(sqrt, scene, light, p, normal) && 0.0 < light.strength
    ensures 0.0 < LightPower(sqrt, scene, light, p, normal)
  {
    IntensityPositive(sqrt, scene, light, p, normal);
    ProductPositive(Facing(sqrt, light, p, normal), Intensity(sqrt, scene, light, p, normal));
  }

  /** The filtered colour of a lit, front-facing light is positive in every
      channel, for a shape of positive colour and irradiance. */
  lemma LitFiltered(sqrt: SquareRoot, scene: Scene, shape: Shape, light: Light, p: Coordinate, normal: Vec3)
    requires StrengthDefined(light, p) && !Dark(sqrt, scene, light, p, normal)
    requires Positive(ShapeColor(shape)) && 0.0 < Irradiance(shape)
    requires Positive(LightColor(light)) && 0.0 < light.strength
    ensures Positive(Filtered(ShapeColor(shape), LightColor(light),
                           LightPower(sqrt, scene, light, p, normal), ReflectedFraction(shape)))
  {
    PowerPositive(sqrt, scene, light, p, normal);
    DivideByPositive(Irradiance(shape), PI);
    FilteredPositive(ShapeColor(shape), LightColor(light),
                     LightPower(sqrt, scene, light, p, normal), ReflectedFraction(shape));
  }

  /** The converse of `DarkAddsNothing`: a light of positive strength and
      colour that reaches the point from in front of the surface adds to
      every channel of a shape with positive colour and irradiance. */
  lemma LitAddsLight(sqrt: SquareRoot, scene: Scene, shape: Shape, light: Light, p: Coordinate, normal: Vec3)
    requires StrengthDefined(light, p) && !Dark(sqrt, scene, light, p, normal)
    requires Positive(ShapeColor(shape)) && 0.0 < Irradiance(shape)
    requires Positive(LightColor(light)) && 0.0 < light.strength
    ensures Positive(LightContribution(sqrt, scene, shape, light, p, normal))
  {
    LitFiltered(sqrt, scene, shape, light, p, normal);
    ContributionFiltered(sqrt, scene, shape, light, p, normal);
  }

  /** Each channel of the filtered colour is the surface channel times the
      light channel scaled by `power` and by the reflected fraction. */
  lemma FilteredChannels(surface: Color, light: Color, power: real, reflected: real)
    ensures Filtered(surface, light, power, reflected)
            == Color(surface.r * ((light.r * power) * reflected),
                     surface.g * ((light.g * power) * reflected),
                     surface.b * ((light.b * power) * reflected))
  {
  }

  /** For a light that reaches the point from in front of the surface, the
      cosine term is `normal . L` and the intensity is the light's strength
      at the point. */
  lemma LitPower(sqrt: SquareRoot, scene: Scene, light: Light, p: Coordinate, normal: Vec3)
    requires StrengthDefined(light, p) && !Dark(sqrt, scene, light, p, normal)
    ensures Facing(sqrt, light, p, normal) == Dot(normal, DirectionFrom(sqrt, light, p))
    ensures Intensity(sqrt, scene, light, p, normal) == Strength(light, p)
  {
  }

  /** The value a light that reaches the point from in front of the surface
      adds: in each channel, the shape's channel times the light's channel
      times the power `(normal . L) * strength` times `irradiance / PI`. */
  lemma LitContribution(sqrt: SquareRoot, scene: Scene, shape: Shape, light: Light, p: Coordinate, normal: Vec3)
    requires StrengthDefined(light, p) && !Dark(sqrt, scene, light, p, normal)
    ensures var power := Dot(normal, DirectionFrom(sqrt, light, p)) * Strength(light, p);
            var c := LightContribution(sqrt, scene, shape, light, p, normal);
            && c.r == ShapeColor(shape).r * ((LightColor(light).r * power) * (Irradiance(shape) / PI))
            && c.g == ShapeColor(shape).g * ((LightColor(light).g * power) * (Irradiance(shape) / PI))
            && c.b == ShapeColor(shape).b * ((LightColor(light).b * power) * (Irradiance(shape) / PI))
  {
    LitPower(sqrt, scene, light, p, normal);
    ContributionFiltered(sqrt, scene, shape, light, p, normal);
    FilteredChannels(ShapeColor(shape), LightColor(light), LightPower(sqrt, scene, light, p, normal), ReflectedFraction(shape));
  }

  /** One lit, front-facing light of positive strength and colour makes the
      sum positive in every channel, when the shape's colour and irradiance
      are positive and no light has a negative colour or strength. */
  lemma {:induction false} LightSumPositive(sqrt: SquareRoot, scene: Scene, shape: Shape, lights: seq<Light>, p: Coordinate, normal: Vec3, j: nat)
    requires AllStrengthsDefined(lights, p)
    requires Positive(ShapeColor(shape)) && 0.0 < Irradiance(shape)
    requires forall i :: 0 <= i < |lights| ==> NonNegative(LightColor(lights[i])) && 0.0 <= lights[i].strength
    requires j < |lights| && !Dark(sqrt, scene, lights[j], p, normal)
    requires Positive(LightColor(lights[j])) && 0.0 < lights[j].strength
    ensures Positive(LightSum(sqrt, scene, shape, lights, p, normal))
    decreases |lights|
  {
    var init := lights[..|lights| - 1];
    var last := lights[|lights| - 1];
    assert forall i :: 0 <= i < |init| ==> init[i] == lights[i];
    if j == |lights| - 1 {
      LightSumNonNegative(sqrt, scene, shape, init, p, normal);
      LitAddsLight(sqrt, scene, shape, last, p, normal);
    } else {
      LightSumPositive(sqrt, scene, shape, init, p, normal, j);
      ContributionNonNegative(sqrt, scene, shape, last, p, normal);
    }
  }

  /** A light of non-negative strength has non-negative intensity. */
  lemma IntensityNonNegative(sqrt: SquareRoot, scene: Scene, light: Light, p: Coordinate, normal: Vec3)
    requires StrengthDefined(light, p) && 0.0 <= light.strength
    ensures 0.0 <= Intensity(sqrt, scene, light, p, normal)
  {
    if light.Spherical? {
      StrengthFalloff(light, p);
    }
  }

  /** A light of non-negative strength gives a non-negative power. */
  lemma PowerNonNegative(sqrt: SquareRoot, scene: Scene, light: Light, p: Coordinate, normal: Vec3)
    requires StrengthDefined(light, p) && 0.0 <= light.strength
    ensures 0.0 <= LightPower(sqrt, scene, light, p, normal)
  {
    IntensityNonNegative(sqrt, scene, light, p, normal);
    ProductNonNegative(Facing(sqrt, light, p, normal), Intensity(sqrt, scene, light, p, normal));
  }

  /** Non-negative factors give a non-negative filtered colour. */
  lemma FilteredNonNegativeAt(sqrt: SquareRoot, scene: Scene, shape: Shape, light: Light, p: Coordinate, normal: Vec3)
    requires StrengthDefined(light, p)
    requires NonNegative(ShapeColor(shape)) && 0.0 <= Irradiance(shape)
    requires NonNegative(LightColor(light)) && 0.0 <= light.strength
    ensures NonNegative(Filtered(ShapeColor(shape), LightColor(light),
                           LightPower(sqrt, scene, light, p, normal), ReflectedFraction(shape)))
  {
    PowerNonNegative(sqrt, scene, light, p, normal);
    DivideByPositive(Irradiance(shape), PI);
    FilteredNonNegative(ShapeColor(shape), LightColor(light),
                        LightPower(sqrt, scene, light, p, normal), ReflectedFraction(shape));
  }

  /** One light's contribution is non-negative under the same conditions. */
  lemma ContributionNonNegative(sqrt: SquareRoot, scene: Scene, shape: Shape, light: Light, p: Coordinate, normal: Vec3)
    requires StrengthDefined(light, p)
    requires NonNegative(ShapeColor(shape)) && 0.0 <= Irradiance(shape)
    requires NonNegative(LightColor(light)) && 0.0 <= light.strength
    ensures NonNegative(LightContribution(sqrt, scene, shape, light, p, normal))
  {
    FilteredNonNegativeAt(sqrt, scene, shape, light, p, normal);
    ContributionFiltered(sqrt, scene, shape, light, p, normal);
  }

  /** The direct colour: the light sum clamped into [0, 1], channel by
      channel. */
  function DirectColor(sqrt: SquareRoot, scene: Scene, shape: Shape, p: Coordinate, normal: Vec3): (c: Color)
    requires AllStrengthsDefined(scene.lights, p)
    ensures InUnitRange(c)
    ensures var sum := LightSum(sqrt, scene, shape, scene.lights, p, normal);
            && (0.0 <= sum.r <= 1.0 ==> c.r == sum.r)
            && (sum.r < 0.0 ==> c.r == 0.0)
            && (1.0 < sum.r ==> c.r == 1.0)
    ensures var sum := LightSum(sqrt, scene, shape, scene.lights, p, normal);
            && (0.0 <= sum.g <= 1.0 ==> c.g == sum.g)
            && (sum.g < 0.0 ==> c.g == 0.0)
            && (1.0 < sum.g ==> c.g == 1.0)
    ensures var sum := LightSum(sqrt, scene, shape, scene.lights, p, normal);
            && (0.0 <= sum.b <= 1.0 ==> c.b == sum.b)
            && (sum.b < 0.0 ==> c.b == 0.0)
            && (1.0 < sum.b ==> c.b == 1.0)
  {
    Clamp(LightSum(sqrt, scene, shape, scene.lights, p, normal))
  }

  // ----- reflection -----

  /** The mirror ray: from the hit point pushed off by `shadow` along the
      normal, in the incoming direction reflected about the normal. */
  function ReflectionRay(ray: Ray, p: Coordinate, normal: Vec3, shadow: real): (r: Ray)
    ensures Sub(r.origin, p) == Scale(normal, shadow)
    ensures Plus(r.direction, Scale(normal, 2.0 * Dot(ray.direction, normal))) == ray.direction
  {
    AddThenSub(p, Scale(normal, shadow));
    Ray(VecAdd(Scale(normal, shadow), p),
        Minus(ray.direction, Scale(normal, 2.0 * Dot(ray.direction, normal))))
  }

  /** About a unit normal, the reflected direction has the opposite component
      along the normal, the same length, and starts `shadow` off the surface. */
  lemma ReflectionMirrors(ray: Ray, p: Coordinate, normal: Vec3, shadow: real)
    requires Dot(normal, normal) == 1.0
    ensures Dot(ReflectionRay(ray, p, normal, shadow).direction, normal) == -Dot(ray.direction, normal)
    ensures Dot(ReflectionRay(ray, p, normal, shadow).direction, ReflectionRay(ray, p, normal, shadow).direction)
            == Dot(ray.direction, ray.direction)
    ensures Sub(ReflectionRay(ray, p, normal, shadow).origin, p) == Scale(normal, shadow)
  {
    var d, n := ray.direction, normal;
    DotComponents(n, n);
    ReflectAlgebra(d.x, d.y, d.z, n.x, n.y, n.z);
    AddThenSub(p, Scale(normal, shadow));
  }

  /** One blending step on one channel: `x * k + k * y`. */
  function StepChannel(x: real, k: real, y: real): real
  {
    x * k + k * y
  }

  /** One blending step: `colour * k + k * reflected`. */
  function BlendStep(c: Color, k: real, reflected: Color): (b: Color)
    ensures b.r == StepChannel(c.r, k, reflected.r)
    ensures b.g == StepChannel(c.g, k, reflected.g)
    ensures b.b == StepChannel(c.b, k, reflected.b)
  {
    Add(MulScalar(c, k), ScalarMul(k, reflected))
  }

  /** `n` blending steps, each with the same reflected colour. */
  function Blend(c: Color, k: real, reflected: Color, n: nat): (b: Color)
    ensures n == 0 ==> b == c
  {
    if n == 0 then c else BlendStep(Blend(c, k, reflected, n - 1), k, reflected)
  }

  /** `k` to the power `n`. */
  function Power(k: real, n: nat): real
  {
    if n == 0 then 1.0 else Power(k, n - 1) * k
  }

  /** `k + k^2 + ... + k^n`. */
  function GeometricSum(k: real, n: nat): real
  {
    if n == 0 then 0.0 else GeometricSum(k, n - 1) * k + k
  }

  /** One channel after `n` blending steps. */
  function BlendChannel(x: real, k: real, y: real, n: nat): real
  {
    if n == 0 then x else StepChannel(BlendChannel(x, k, y, n - 1), k, y)
  }

  /** A blending step takes the channels after `n - 1` steps to the
      channels after `n`. */
  lemma StepByChannel(before: Color, after: Color, c: Color, k: real, reflected: Color, n: nat)
    requires 0 < n && after == BlendStep(before, k, reflected)
    requires before.r == BlendChannel(c.r, k, reflected.r, n - 1)
    requires before.g == BlendChannel(c.g, k, reflected.g, n - 1)
    requires before.b == BlendChannel(c.b, k, reflected.b, n - 1)
    ensures after.r == BlendChannel(c.r, k, reflected.r, n)
    ensures after.g == BlendChannel(c.g, k, reflected.g, n)
    ensures after.b == BlendChannel(c.b, k, reflected.b, n)
  {
  }

  /** Blending acts on each channel separately. */
  lemma {:induction false} BlendByChannel(c: Color, k: real, reflected: Color, n: nat)
    ensures Blend(c, k, reflected, n).r == BlendChannel(c.r, k, reflected.r, n)
    ensures Blend(c, k, reflected, n).g == BlendChannel(c.g, k, reflected.g, n)
    ensures Blend(c, k, reflected, n).b == BlendChannel(c.b, k, reflected.b, n)
  {
    if n > 0 {
      BlendByChannel(c, k, reflected, n - 1);
      assert Blend(c, k, reflected, n) == BlendStep(Blend(c, k, reflected, n - 1), k, reflected);
      StepByChannel(Blend(c, k, reflected, n - 1), Blend(c, k, reflected, n), c, k, reflected, n);
    }
  }

  /** After `n` steps a channel is the colour's weighted by `k^n` plus the
      reflected colour's weighted by `k + k^2 + ... + k^n`. */
  lemma {:induction false} ChannelClosedForm(x: real, k: real, y: real, n: nat)
    ensures BlendChannel(x, k, y, n) == x * Power(k, n) + y * GeometricSum(k, n)
  {
    if n > 0 {
      ChannelClosedForm(x, k, y, n - 1);
      BlendStepAlgebra(BlendChannel(x, k, y, n - 1), x, Power(k, n - 1), y, GeometricSum(k, n - 1), k);
    }
  }

  /** After `n` steps each channel is the colour weighted by `k^n` plus the
      reflected colour weighted by `k + k^2 + ... + k^n`. */
  lemma BlendClosedForm(c: Color, k: real, reflected: Color, n: nat)
    ensures Blend(c, k, reflected, n) ==
              Color(c.r * Power(k, n) + reflected.r * GeometricSum(k, n),
                    c.g * Power(k, n) + reflected.g * GeometricSum(k, n),
                    c.b * Power(k, n) + reflected.b * GeometricSum(k, n))
  {
    BlendByChannel(c, k, reflected, n);
    ChannelClosedForm(c.r, k, reflected.r, n);
    ChannelClosedForm(c.g, k, reflected.g, n);
    ChannelClosedForm(c.b, k, reflected.b, n);
  }

  /** The source's two steps: `c k^2 + (k^2 + k) R` in each channel. */
  lemma BlendTwice(c: Color, k: real, reflected: Color)
    ensures Blend(c, k, reflected, REFLECTION_STEPS) ==
              Color(c.r * (k * k) + reflected.r * (k * k + k),
                    c.g * (k * k) + reflected.g * (k * k + k),
                    c.b * (k * k) + reflected.b * (k * k + k))
  {
    BlendClosedForm(c, k, reflected, 2);
    assert Power(k, 1) == k;
    assert Power(k, 2) == k * k;
    assert GeometricSum(k, 1) == k;
    assert GeometricSum(k, 2) == k * k + k;
  }

  /** Blending with zero reflectivity yields black after any positive number
      of steps, whatever the colour: the `k > 0` guard is what keeps a
      non-reflective surface's own colour. */
  lemma {:induction false} BlendNoReflectivity(c: Color, reflected: Color, n: nat)
    requires 0 < n
    ensures Blend(c, 0.0, reflected, n) == Black
  {
    if n > 1 {
      BlendNoReflectivity(c, reflected, n - 1);
    }
  }

  // ----- one pixel -----

  /** The point of the ray at the hit's distance. */
  function HitPoint(ray: Ray, hit: Hit): (q: Coordinate)
    ensures Sub(q, ray.origin) == Scale(ray.direction, hit.distance)
  {
    AddThenSub(ray.origin, Scale(ray.direction, hit.distance));
    PointAt(ray, hit.distance)
  }

  /** The hit is on a shape of the scene and no light sits at the hit point. */
  predicate Shadeable(scene: Scene, ray: Ray, hit: Hit)
  {
    hit.index < |scene.shapes| && AllStrengthsDefined(scene.lights, HitPoint(ray, hit))
  }

  /** The colour the reflection ray brings back: black if it hits nothing,
      otherwise whatever `shade` gives for its hit. */
  function Reflected(sqrt: SquareRoot, scene: Scene, reflection: Ray, shade: (Ray, Hit) -> Color): (c: Color)
    ensures Trace(sqrt, scene, reflection).None? ==> c == Black
    ensures Trace(sqrt, scene, reflection).Some? ==> c == shade(reflection, Trace(sqrt, scene, reflection).value)
  {
    match Trace(sqrt, scene, reflection)
    case None => Black
    case Some(h) => shade(reflection, h)
  }

  /** `c` is `direct k^2 + back (k^2 + k)` in each channel. */
  predicate BlendedTwice(c: Color, direct: Color, k: real, back: Color)
  {
    c == Color(direct.r * (k * k) + back.r * (k * k + k),
               direct.g * (k * k) + back.g * (k * k + k),
               direct.b * (k * k) + back.b * (k * k + k))
  }

  /** The reflection step: with a positive reflectivity `k`, blend the
      direct colour with the reflected one twice; otherwise keep it. */
  function Finish(direct: Color, k: real, back: Color): (c: Color)
    ensures k <= 0.0 ==> c == direct
  {
    if k > 0.0 then Blend(direct, k, back, REFLECTION_STEPS) else direct
  }

  /** The reflection step in closed form. */
  lemma FinishClosedForm(direct: Color, k: real, back: Color)
    ensures 0.0 < k ==> BlendedTwice(Finish(direct, k, back), direct, k, back)
  {
    BlendTwice(direct, k, back);
  }

  /** The colour of a hit: the clamped direct colour, blended twice with the
      reflected colour when the shape is reflective.  `shade` stands for the
      recursive call on the reflection ray's hit.  A non-reflective shape
      keeps a colour in [0, 1]. */
  function Shade(sqrt: SquareRoot, scene: Scene, ray: Ray, hit: Hit, shade: (Ray, Hit) -> Color): (c: Color)
    requires Shadeable(scene, ray, hit)
    ensures Reflectivity(scene.shapes[hit.index]) <= 0.0 ==> InUnitRange(c)
  {
    var shape := scene.shapes[hit.index];
    var p := HitPoint(ray, hit);
    var normal := SurfaceNormal(sqrt, shape, p);
    var color := DirectColor(sqrt, scene, shape, p, normal);
    Finish(color, Reflectivity(shape), Reflected(sqrt, scene, ReflectionRay(ray, p, normal, scene.shadow), shade))
  }

  /** A hit's colour is its direct colour when the shape is not reflective,
      and otherwise `direct k^2 + back (k^2 + k)` in each channel, where
      `back` is the colour the reflection ray brings back (black when it
      escapes the scene). */
  lemma ShadeClosedForm(sqrt: SquareRoot, scene: Scene, ray: Ray, hit: Hit, shade: (Ray, Hit) -> Color)
    requires Shadeable(scene, ray, hit)
    ensures var shape := scene.shapes[hit.index];
            var p := HitPoint(ray, hit);
            var normal := SurfaceNormal(sqrt, shape, p);
            var direct := DirectColor(sqrt, scene, shape, p, normal);
            var k := Reflectivity(shape);
            var back := Reflected(sqrt, scene, ReflectionRay(ray, p, normal, scene.shadow), shade);
            && (k <= 0.0 ==> Shade(sqrt, scene, ray, hit, shade) == direct)
            && (0.0 < k ==> BlendedTwice(Shade(sqrt, scene, ray, hit, shade), direct, k, back))
  {
    var shape := scene.shapes[hit.index];
    var p := HitPoint(ray, hit);
    var normal := SurfaceNormal(sqrt, shape, p);
    var direct := DirectColor(sqrt, scene, shape, p, normal);
    var back := Reflected(sqrt, scene, ReflectionRay(ray, p, normal, scene.shadow), shade);
    assert Shade(sqrt, scene, ray, hit, shade) == Finish(direct, Reflectivity(shape), back);
    FinishClosedForm(direct, Reflectivity(shape), back);
  }

  /** A colour in [0, 1] scaled to the 0..255 range of the image format. */
  function Rgb(c: Color): (d: Color)
    ensures InUnitRange(c) ==> 0.0 <= d.r <= 255.0 && 0.0 <= d.g <= 255.0 && 0.0 <= d.b <= 255.0
  {
    Color(c.r * 255.0, c.g * 255.0, c.b * 255.0)
  }

  /** Dividing by 255 undoes the scaling. */
  lemma RgbInverse(c: Color)
    ensures Rgb(c).r / 255.0 == c.r && Rgb(c).g / 255.0 == c.g && Rgb(c).b / 255.0 == c.b
  {
  }

  /** The colour written for a primary ray: black when it hits nothing,
      otherwise the shaded colour of its nearest hit on the 0..255 scale.
      A nearest hit on a non-reflective shape gives channels in 0..255. */
  function PixelColor(sqrt: SquareRoot, scene: Scene, ray: Ray, shade: (Ray, Hit) -> Color): (c: Color)
    requires Trace(sqrt, scene, ray).Some? ==>
               AllStrengthsDefined(scene.lights, HitPoint(ray, Trace(sqrt, scene, ray).value))
    ensures Trace(sqrt, scene, ray).None? ==> c == Black
    ensures Trace(sqrt, scene, ray).Some? ==>
              var shaded := Shade(sqrt, scene, ray, Trace(sqrt, scene, ray).value, shade);
              c.r / 255.0 == shaded.r && c.g / 255.0 == shaded.g && c.b / 255.0 == shaded.b
    ensures Trace(sqrt, scene, ray).Some? && Reflectivity(scene.shapes[Trace(sqrt, scene, ray).value.index]) <= 0.0 ==>
              0.0 <= c.r <= 255.0 && 0.0 <= c.g <= 255.0 && 0.0 <= c.b <= 255.0
  {
    match Trace(sqrt, scene, ray)
    case None => Black
    case Some(h) =>
      RgbInverse(Shade(sqrt, scene, ray, h, shade));
      Rgb(Shade(sqrt, scene, ray, h, shade))
  }

  /** A primary ray's pixel, divided by 255, is its nearest hit's direct
      colour when the shape is not reflective, and otherwise
      `direct k^2 + back (k^2 + k)` in each channel, where `back` is the
      colour the reflection ray brings back. */
  lemma PixelClosedForm(sqrt: SquareRoot, scene: Scene, ray: Ray, shade: (Ray, Hit) -> Color)
    requires Trace(sqrt, scene, ray).Some? ==>
               AllStrengthsDefined(scene.lights, HitPoint(ray, Trace(sqrt, scene, ray).value))
    ensures Trace(sqrt, scene, ray).Some? ==>
              var hit := Trace(sqrt, scene, ray).value;
              var shape := scene.shapes[hit.index];
              var p := HitPoint(ray, hit);
              var normal := SurfaceNormal(sqrt, shape, p);
              var direct := DirectColor(sqrt, scene, shape, p, normal);
              var k := Reflectivity(shape);
              var back := Reflected(sqrt, scene, ReflectionRay(ray, p, normal, scene.shadow), shade);
              var c := PixelColor(sqrt, scene, ray, shade);
              && (k <= 0.0 ==> c.r / 255.0 == direct.r && c.g / 255.0 == direct.g && c.b / 255.0 == direct.b)
              && (0.0 < k ==>
                    && c.r / 255.0 == direct.r * (k * k) + back.r * (k * k + k)
                    && c.g / 255.0 == direct.g * (k * k) + back.g * (k * k + k)
                    && c.b / 255.0 == direct.b * (k * k) + back.b * (k * k + k))
  {
    if Trace(sqrt, scene, ray).Some? {
      var hit := Trace(sqrt, scene, ray).value;
      ShadeClosedForm(sqrt, scene, ray, hit, shade);
    }
  }
}
