/** Three-component vectors (glm::vec3), with the float components idealised as reals. */
module Vectors {
  datatype Vec3 = Vec3(x: real, y: real, z: real) {
    /** Component-wise sum, `a + b`. */
    function Plus(o: Vec3): Vec3 {
      Vec3(x + o.x, y + o.y, z + o.z)
    }

    /** Multiplication by a scalar, `v * k`. */
    function Scale(k: real): Vec3 {
      Vec3(x * k, y * k, z * k)
    }

    /** Division by a non-zero scalar, `v / k`. */
    function Div(k: real): Vec3
      requires k != 0.0
    {
      Vec3(x / k, y / k, z / k)
    }

    /** Unary minus, `-v`. */
    function Neg(): Vec3 {
      Vec3(-x, -y, -z)
    }
  }

  /** The vector with all three components equal to `s`, `glm::vec3(s)`. */
  function Splat(s: real): Vec3 {
    Vec3(s, s, s)
  }

  const Zero: Vec3 := Splat(0.0)
}
