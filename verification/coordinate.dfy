/** Points in world space and their arithmetic with vectors
    (src/coordinate.rs).  A point minus a point is a vector; a point plus a
    vector, in either order, is a point. */
module Coordinates {
  import opened Vector

  datatype Coordinate = Coordinate(x: real, y: real, z: real)

  /** `p - q`: the displacement that carries `q` to `p`. */
  function Sub(p: Coordinate, q: Coordinate): (v: Vec3)
    ensures AddVec(q, v) == p
    ensures v == Zero <==> p == q
  {
    Vec3(p.x - q.x, p.y - q.y, p.z - q.z)
  }

  /** `p + v`: the point `p` translated by `v`, coordinate by coordinate. */
  function AddVec(p: Coordinate, v: Vec3): (q: Coordinate)
    ensures q.x - p.x == v.x && q.y - p.y == v.y && q.z - p.z == v.z
  {
    Coordinate(p.x + v.x, p.y + v.y, p.z + v.z)
  }

  /** `v + p`, which the source defines by delegating to `p + v`. */
  function VecAdd(v: Vec3, p: Coordinate): (q: Coordinate)
    ensures q.x == p.x + v.x && q.y == p.y + v.y && q.z == p.z + v.z
  {
    AddVec(p, v)
  }

  /** Translating and then taking the difference recovers the vector. */
  lemma AddThenSub(p: Coordinate, v: Vec3)
    ensures Sub(AddVec(p, v), p) == v
  {
  }

  /** Taking the difference and then translating recovers the point. */
  lemma SubThenAdd(p: Coordinate, q: Coordinate)
    ensures AddVec(q, Sub(p, q)) == p
  {
  }

  lemma SubSelf(p: Coordinate)
    ensures Sub(p, p) == Zero
  {
  }

  /** Vector-plus-point and point-plus-vector are the same translation. */
  lemma AddCommutes(p: Coordinate, v: Vec3)
    ensures VecAdd(v, p) == AddVec(p, v)
  {
  }

  /** Translating by a sum of vectors is translating by each in turn. */
  lemma AddVecPlus(p: Coordinate, u: Vec3, v: Vec3)
    ensures AddVec(AddVec(p, u), v) == AddVec(p, Plus(u, v))
  {
  }
}
