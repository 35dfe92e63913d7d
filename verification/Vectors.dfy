/** Points of the plane and linear interpolation. `f32` is modelled by `real`. */
module Vectors {

  datatype Vec2 = Vec2(x: real, y: real)

  function Abs(r: real): real {
    if r < 0.0 then -r else r
  }

  function LerpAxis(a: real, b: real, t: real): real {
    a + (b - a) * t
  }

  function Lerp(a: Vec2, b: Vec2, t: real): Vec2 {
    Vec2(LerpAxis(a.x, b.x, t), LerpAxis(a.y, b.y, t))
  }

  lemma ProductNonNegative(a: real, b: real)
    requires a >= 0.0 && b >= 0.0
    ensures a * b >= 0.0
  {
  }
}
