/** Small facts of real arithmetic, each proved on plain real parameters so
    that the solver sees only the terms it needs. */
module RealArith {

  /** A non-negative number whose square is positive is itself positive. */
  lemma PositiveRoot(l: real, d: real)
    requires 0.0 <= l && l * l == d && 0.0 < d
    ensures 0.0 < l
  {
    assert l == 0.0 ==> l * l == 0.0;
  }

  /** Scaling a vector of squared length `l * l` by `1 / l` gives unit squared
      length, and the scaled vector's dot product with the original is `l`. */
  lemma UnitScale(x: real, y: real, z: real, l: real)
    requires 0.0 < l && l * l == x * x + y * y + z * z
    ensures (x * (1.0 / l)) * (x * (1.0 / l)) + (y * (1.0 / l)) * (y * (1.0 / l)) + (z * (1.0 / l)) * (z * (1.0 / l)) == 1.0
    ensures (x * (1.0 / l)) * x + (y * (1.0 / l)) * y + (z * (1.0 / l)) * z == l
  {
    var k := 1.0 / l;
    assert k * l == 1.0;
    assert (x * k) * (x * k) + (y * k) * (y * k) + (z * k) * (z * k) == (x * x + y * y + z * z) * (k * k);
    assert (l * l) * (k * k) == (l * k) * (l * k);
    assert (x * k) * x + (y * k) * y + (z * k) * z == (l * l) * k;
  }

  lemma Rescale(x: real, l: real)
    requires 0.0 < l
    ensures (x * (1.0 / l)) * l == x
  {
  }

  /** Squaring is strictly increasing on the non-negative reals. */
  lemma SquareIncreasing(a: real, b: real)
    requires 0.0 <= a < b
    ensures a * a < b * b
  {
    var d := b - a;
    assert b * b == a * a + 2.0 * a * d + d * d;
    assert 0.0 < d * d;
    assert 0.0 <= a * d;
  }

  /** Non-negative reals with equal squares are equal. */
  lemma SquaresDetermine(a: real, b: real)
    requires 0.0 <= a && 0.0 <= b && a * a == b * b
    ensures a == b
  {
    if a < b {
      SquareIncreasing(a, b);
    } else if b < a {
      SquareIncreasing(b, a);
    }
  }

  /** Dividing by a positive number keeps the sign and can be undone. */
  lemma DivideByPositive(num: real, denom: real)
    requires 0.0 < denom
    ensures (num / denom) * denom == num
    ensures 0.0 <= num / denom <==> 0.0 <= num
    ensures 0.0 < num / denom <==> 0.0 < num
  {
  }

  /** If `t * (n . d) == (c - o) . n` then `o + t d - c` is orthogonal to `n`. */
  lemma PlaneAlgebra(ox: real, oy: real, oz: real, dx: real, dy: real, dz: real,
                     cx: real, cy: real, cz: real, nx: real, ny: real, nz: real, t: real)
    requires t * (nx * dx + ny * dy + nz * dz) == (cx - ox) * nx + (cy - oy) * ny + (cz - oz) * nz
    ensures ((ox + dx * t) - cx) * nx + ((oy + dy * t) - cy) * ny + ((oz + dz * t) - cz) * nz == 0.0
  {
    assert ((ox + dx * t) - cx) * nx + ((oy + dy * t) - cy) * ny + ((oz + dz * t) - cz) * nz
        == t * (nx * dx + ny * dy + nz * dz) - ((cx - ox) * nx + (cy - oy) * ny + (cz - oz) * nz);
  }

  /** The point `o + t d` of a line with unit direction `d` lies at squared
      distance `rr` from `c` when `t` is the near root `l - h` of the
      line-sphere equation, `l` being the projection of `c - o` on `d` and
      `h * h == rr - (|c - o|^2 - l * l)`. */
  lemma SphereAlgebra(ox: real, oy: real, oz: real, dx: real, dy: real, dz: real,
                      cx: real, cy: real, cz: real, t: real, l: real, h: real, rr: real)
    requires dx * dx + dy * dy + dz * dz == 1.0
    requires l == (cx - ox) * dx + (cy - oy) * dy + (cz - oz) * dz
    requires h * h == rr - (((cx - ox) * (cx - ox) + (cy - oy) * (cy - oy) + (cz - oz) * (cz - oz)) - l * l)
    requires t == l - h
    ensures ((ox + dx * t) - cx) * ((ox + dx * t) - cx) + ((oy + dy * t) - cy) * ((oy + dy * t) - cy)
            + ((oz + dz * t) - cz) * ((oz + dz * t) - cz) == rr
  {
    var cc := (cx - ox) * (cx - ox) + (cy - oy) * (cy - oy) + (cz - oz) * (cz - oz);
    var dd := dx * dx + dy * dy + dz * dz;
    assert ((ox + dx * t) - cx) * ((ox + dx * t) - cx) + ((oy + dy * t) - cy) * ((oy + dy * t) - cy)
           + ((oz + dz * t) - cz) * ((oz + dz * t) - cz)
        == t * t * dd - 2.0 * t * l + cc;
    assert t * t * dd == t * t;
    assert t * t - 2.0 * t * l == h * h - l * l;
  }

  /** A non-negative `h` whose square exceeds `l * l` lies strictly between
      `-h` and `h` away from `l`: `l - h` is negative and `l + h` positive. */
  lemma RootStraddles(l: real, h: real)
    requires 0.0 <= h && l * l < h * h
    ensures l - h < 0.0 < l + h
  {
    if h <= l {
      assert h == l ==> h * h == l * l;
      if h < l {
        SquareIncreasing(h, l);
      }
    } else if h <= -l {
      assert h == -l ==> h * h == (-l) * (-l);
      if h < -l {
        SquareIncreasing(h, -l);
      }
    }
  }

  /** The point `o + s d` for a unit `d`, seen from `o`: its projection on `d`
      is `s` and its squared distance is `s * s`. */
  lemma AlongUnit(dx: real, dy: real, dz: real, s: real)
    requires dx * dx + dy * dy + dz * dz == 1.0
    ensures (dx * s) * dx + (dy * s) * dy + (dz * s) * dz == s
    ensures (dx * s) * (dx * s) + (dy * s) * (dy * s) + (dz * s) * (dz * s) == s * s
  {
    assert (dx * s) * dx + (dy * s) * dy + (dz * s) * dz == s * (dx * dx + dy * dy + dz * dz);
    assert (dx * s) * (dx * s) + (dy * s) * (dy * s) + (dz * s) * (dz * s) == (s * s) * (dx * dx + dy * dy + dz * dz);
  }

  /** Mirroring `d` in the plane orthogonal to a unit `n` flips the component
      along `n` and keeps the squared length. */
  lemma ReflectAlgebra(dx: real, dy: real, dz: real, nx: real, ny: real, nz: real)
    requires nx * nx + ny * ny + nz * nz == 1.0
    ensures var k := 2.0 * (dx * nx + dy * ny + dz * nz);
            (dx - nx * k) * nx + (dy - ny * k) * ny + (dz - nz * k) * nz == -(dx * nx + dy * ny + dz * nz)
    ensures var k := 2.0 * (dx * nx + dy * ny + dz * nz);
            (dx - nx * k) * (dx - nx * k) + (dy - ny * k) * (dy - ny * k) + (dz - nz * k) * (dz - nz * k)
            == dx * dx + dy * dy + dz * dz
  {
    var e := dx * nx + dy * ny + dz * nz;
    var k := 2.0 * e;
    var nn := nx * nx + ny * ny + nz * nz;
    assert (dx - nx * k) * nx + (dy - ny * k) * ny + (dz - nz * k) * nz == e - k * nn;
    assert (dx - nx * k) * (dx - nx * k) + (dy - ny * k) * (dy - ny * k) + (dz - nz * k) * (dz - nz * k)
        == (dx * dx + dy * dy + dz * dz) - 2.0 * k * e + k * k * nn;
    assert k * k * nn == k * k;
    assert k * k == 2.0 * k * e;
  }

  /** One blending step `x * k + k * y` applied to `x = c * p + y * g`. */
  lemma BlendStepAlgebra(x: real, c: real, p: real, y: real, g: real, k: real)
    requires x == c * p + y * g
    ensures x * k + k * y == c * (p * k) + y * (g * k + k)
  {
    assert (c * p + y * g) * k == c * (p * k) + y * (g * k);
  }

  lemma ProductNonNegative(a: real, b: real)
    requires 0.0 <= a && 0.0 <= b
    ensures 0.0 <= a * b
  {
  }

  lemma ProductPositive(a: real, b: real)
    requires 0.0 < a && 0.0 < b
    ensures 0.0 < a * b
  {
  }
}
