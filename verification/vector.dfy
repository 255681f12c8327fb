/** Three-component vectors (directions and displacements) with the few
    operations of the vector library the renderer relies on.  The library's
    square root is not modelled: every operation that needs one takes it as a
    `SquareRoot` parameter, and the properties that depend on it assume
    `IsSqrt`, an exact square root. */
module Vector {
  import opened RealArith

  datatype Vec3 = Vec3(x: real, y: real, z: real)

  const Zero: Vec3 := Vec3(0.0, 0.0, 0.0)

  function Plus(a: Vec3, b: Vec3): Vec3
  {
    Vec3(a.x + b.x, a.y + b.y, a.z + b.z)
  }

  function Minus(a: Vec3, b: Vec3): Vec3
  {
    Vec3(a.x - b.x, a.y - b.y, a.z - b.z)
  }

  function Negate(a: Vec3): Vec3
  {
    Vec3(-a.x, -a.y, -a.z)
  }

  /** `v * s` (and `s * v`) for a scalar `s`. */
  function Scale(v: Vec3, s: real): Vec3
  {
    Vec3(v.x * s, v.y * s, v.z * s)
  }

  function Dot(a: Vec3, b: Vec3): real
  {
    a.x * b.x + a.y * b.y + a.z * b.z
  }

  /** A square-root function supplied by the caller. */
  type SquareRoot = real -> real

  /** A dot product spelled out in components. */
  lemma DotComponents(u: Vec3, v: Vec3)
    ensures Dot(u, v) == u.x * v.x + u.y * v.y + u.z * v.z
  {
  }

  /** `sqrt` returns the exact non-negative square root of every non-negative real. */
  ghost predicate IsSqrt(sqrt: SquareRoot)
  {
    forall x :: 0.0 <= x ==> 0.0 <= sqrt(x) && sqrt(x) * sqrt(x) == x
  }

  lemma DotSelfNonNegative(v: Vec3)
    ensures 0.0 <= Dot(v, v)
  {
  }

  /** The Euclidean length of `v`: the non-negative number whose square is `v . v`. */
  function Length(sqrt: SquareRoot, v: Vec3): (l: real)
    ensures IsSqrt(sqrt) ==> 0.0 <= l && l * l == Dot(v, v)
  {
    DotSelfNonNegative(v);
    sqrt(Dot(v, v))
  }

  /** `v` divided by its length.  The library divides unconditionally, which
      yields NaN components for the zero vector; this model returns the zero
      vector unchanged instead. */
  function Normalize(sqrt: SquareRoot, v: Vec3): (n: Vec3)
    ensures Length(sqrt, v) <= 0.0 ==> n == v
    ensures 0.0 < Length(sqrt, v) ==> Scale(n, Length(sqrt, v)) == v
  {
    var len := Length(sqrt, v);
    if len <= 0.0 then v
    else
      Rescale(v.x, len);
      Rescale(v.y, len);
      Rescale(v.z, len);
      Scale(v, 1.0 / len)
  }

  /** A non-degenerate vector normalizes to a unit vector pointing the same
      way: scaling it back by the length recovers `v`. */
  lemma NormalizeUnit(sqrt: SquareRoot, v: Vec3)
    requires IsSqrt(sqrt) && 0.0 < Dot(v, v)
    ensures Dot(Normalize(sqrt, v), Normalize(sqrt, v)) == 1.0
    ensures 0.0 < Length(sqrt, v) == Dot(Normalize(sqrt, v), v)
    ensures Scale(Normalize(sqrt, v), Length(sqrt, v)) == v
  {
    var len := Length(sqrt, v);
    PositiveRoot(len, Dot(v, v));
    Rescale(v.x, len);
    Rescale(v.y, len);
    Rescale(v.z, len);
    UnitScale(v.x, v.y, v.z, len);
  }

  /** Negating one side of a dot product negates the product; negating both
      leaves it unchanged. */
  lemma NegateDot(u: Vec3, v: Vec3)
    ensures Dot(Negate(u), v) == -Dot(u, v)
    ensures Dot(Negate(u), Negate(v)) == Dot(u, v)
  {
  }
}
