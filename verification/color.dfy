/** RGB colours (src/objects.rs): unbounded channels while light is being
    accumulated, clamped to [0, 1] before the reflection step. */
module Colors {

  datatype Color = Color(r: real, g: real, b: real)

  const Black: Color := Color(0.0, 0.0, 0.0)

  /** Every channel lies in [0, 1]. */
  predicate InUnitRange(c: Color)
  {
    0.0 <= c.r <= 1.0 && 0.0 <= c.g <= 1.0 && 0.0 <= c.b <= 1.0
  }

  /** Every channel is above zero. */
  predicate Positive(c: Color)
  {
    0.0 < c.r && 0.0 < c.g && 0.0 < c.b
  }

  /** No channel is negative. */
  predicate NonNegative(c: Color)
  {
    0.0 <= c.r && 0.0 <= c.g && 0.0 <= c.b
  }

  /** `a + c`.  The source lists the fields as r, b, g; each channel still
      sums with itself. */
  function Add(a: Color, c: Color): (s: Color)
    ensures s.r == a.r + c.r && s.g == a.g + c.g && s.b == a.b + c.b
  {
    Color(r := a.r + c.r, b := a.b + c.b, g := a.g + c.g)
  }

  /** `a * c`: channel-wise product, as in filtering light by a surface colour. */
  function Mul(a: Color, c: Color): (m: Color)
    ensures m.r == a.r * c.r && m.g == a.g * c.g && m.b == a.b * c.b
  {
    Color(a.r * c.r, a.g * c.g, a.b * c.b)
  }

  /** `c * s` for a scalar `s`. */
  function MulScalar(c: Color, s: real): (m: Color)
    ensures m.r == c.r * s && m.g == c.g * s && m.b == c.b * s
  {
    Color(c.r * s, c.g * s, c.b * s)
  }

  /** `s * c`, which the source defines by delegating to `c * s`. */
  function ScalarMul(s: real, c: Color): (m: Color)
    ensures m.r == s * c.r && m.g == s * c.g && m.b == s * c.b
  {
    MulScalar(c, s)
  }

  /** `x.min(1.0).max(0.0)`. */
  function ClampChannel(x: real): (y: real)
    ensures 0.0 <= y <= 1.0
    ensures 0.0 <= x <= 1.0 ==> y == x
    ensures x < 0.0 ==> y == 0.0
    ensures 1.0 < x ==> y == 1.0
  {
    var m := if x < 1.0 then x else 1.0;
    if m > 0.0 then m else 0.0
  }

  /** Clamps every channel into [0, 1] on its own: a channel already in
      range is unchanged whatever the other channels hold. */
  function Clamp(c: Color): (d: Color)
    ensures InUnitRange(d)
    ensures 0.0 <= c.r <= 1.0 ==> d.r == c.r
    ensures 0.0 <= c.g <= 1.0 ==> d.g == c.g
    ensures 0.0 <= c.b <= 1.0 ==> d.b == c.b
    ensures c.r < 0.0 ==> d.r == 0.0
    ensures 1.0 < c.r ==> d.r == 1.0
    ensures c.g < 0.0 ==> d.g == 0.0
    ensures 1.0 < c.g ==> d.g == 1.0
    ensures c.b < 0.0 ==> d.b == 0.0
    ensures 1.0 < c.b ==> d.b == 1.0
  {
    Color(ClampChannel(c.r), ClampChannel(c.g), ClampChannel(c.b))
  }

  /** A colour already in range is unchanged, and clamping twice is
      clamping once. */
  lemma ClampIdempotent(c: Color)
    ensures InUnitRange(c) ==> Clamp(c) == c
    ensures Clamp(Clamp(c)) == Clamp(c)
  {
  }

  /** Scalar multiplication gives the same colour from either side. */
  lemma ScaleCommutes(s: real, c: Color)
    ensures ScalarMul(s, c) == MulScalar(c, s)
  {
  }

  /** Filtering is symmetric, and filtering by black gives black. */
  lemma MulCommutes(a: Color, c: Color)
    ensures Mul(a, c) == Mul(c, a)
    ensures Mul(a, Black) == Black
  {
  }

  lemma AddCommutes(a: Color, c: Color)
    ensures Add(a, c) == Add(c, a)
  {
  }

  lemma AddBlack(c: Color)
    ensures Add(Black, c) == c && Add(c, Black) == c
  {
  }

  /** Colour addition is associative. */
  lemma AddAssociates(a: Color, b: Color, c: Color)
    ensures Add(Add(a, b), c) == Add(a, Add(b, c))
  {
  }
}
