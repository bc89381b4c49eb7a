/**
 * The three-component vector and the vertex record the rasterizer works on. Their
 * definitions live outside the modelled files; only what the core uses is kept:
 * componentwise subtraction and the z-component of the cross product.
 */
module Vectors {

  datatype Vec3 = Vec3(x: real, y: real, z: real)

  /** A mesh vertex: its position. */
  datatype Vertex = Vertex(p: Vec3)

  function Minus(u: Vec3, v: Vec3): Vec3 {
    Vec3(u.x - v.x, u.y - v.y, u.z - v.z)
  }

  /** The z-component of the cross product `u x v`. */
  function CrossZ(u: Vec3, v: Vec3): real {
    u.x * v.y - u.y * v.x
  }

  /** The signed doubled area of triangle a, b, c in the xy-plane, as `draw_tri` computes it. */
  function Winding(a: Vec3, b: Vec3, c: Vec3): (w: real)
    ensures w == (b.x - a.x) * (c.y - a.y) - (b.y - a.y) * (c.x - a.x)
    ensures a == b || b == c || c == a ==> w == 0.0
  {
    CrossZ(Minus(b, a), Minus(c, a))
  }

  /** Swapping two vertices reverses the sign of the winding, and so does swapping the cross product's factors. */
  lemma WindingReverses(a: Vec3, b: Vec3, c: Vec3)
    ensures CrossZ(Minus(c, a), Minus(b, a)) == -Winding(a, b, c)
    ensures Winding(a, c, b) == -Winding(a, b, c)
  {
  }

  /** Rotating the vertices does not change the winding. */
  lemma WindingRotates(a: Vec3, b: Vec3, c: Vec3)
    ensures Winding(b, c, a) == Winding(a, b, c)
  {
  }
}
