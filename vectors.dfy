/** The two-component vector of the linear-algebra kernel, restricted to what
    the tracker uses: the zero vector, addition and scaling. Components are
    real numbers; floating-point rounding is not modelled. */
module Vectors {

  datatype Vec2 = Vec2(x: real, y: real)

  /** `Vec2()`: both components start at zero. */
  function Zero(): Vec2
  {
    Vec2(0.0, 0.0)
  }

  function Add(a: Vec2, b: Vec2): Vec2
  {
    Vec2(a.x + b.x, a.y + b.y)
  }

  function Scale(alpha: real, v: Vec2): Vec2
  {
    Vec2(alpha * v.x, alpha * v.y)
  }

  /** Squared Euclidean length; `norm(v) > t` is `SquaredNorm(v) > t * t` for t >= 0. */
  function SquaredNorm(v: Vec2): real
  {
    v.x * v.x + v.y * v.y
  }
}
