/**
 * Plain values shared by the trail and column models: a point in space and
 * an RGB colour, with the linear colour interpolation the renderer's colour
 * type provides (`lerp`: each channel moves the fraction `t` of the way from
 * this colour to the other).
 */
module Geometry {

  datatype Vec3 = Vec3(x: real, y: real, z: real)

  datatype Color = Color(r: real, g: real, b: real)

  /** `v` lies on the closed segment between `a` and `b`, in either order. */
  predicate Between(v: real, a: real, b: real)
  {
    (a <= v <= b) || (b <= v <= a)
  }

  /** Every channel of `c` lies between the matching channels of `a` and `b`. */
  predicate ChannelsBetween(c: Color, a: Color, b: Color)
  {
    Between(c.r, a.r, b.r) && Between(c.g, a.g, b.g) && Between(c.b, a.b, b.b)
  }

  /** One channel of `lerp`: `a + (b - a) * t`. */
  function LerpChannel(a: real, b: real, t: real): (v: real)
    ensures t == 0.0 ==> v == a
    ensures t == 1.0 ==> v == b
    ensures 0.0 <= t <= 1.0 ==> Between(v, a, b)
  {
    var v := a + (b - a) * t;
    if 0.0 <= t <= 1.0 then ShiftBetween(a, b, t); v else v
  }

  /** Moving a fraction in [0, 1] of the way from `a` to `b` stays between them. */
  lemma ShiftBetween(a: real, b: real, t: real)
    requires 0.0 <= t <= 1.0
    ensures Between(a + (b - a) * t, a, b)
  {
    var d := b - a;
    assert d * (1.0 - t) == d - d * t;
    if d >= 0.0 {
      assert d * t >= 0.0 && d * (1.0 - t) >= 0.0;
    } else {
      assert d * t <= 0.0 && d * (1.0 - t) <= 0.0;
    }
  }

  /**
   * The colour `t` of the way from `from` to `to`: exactly `from` at 0,
   * exactly `to` at 1, and channel-wise between the two in between.
   */
  function Lerp(from: Color, to: Color, t: real): (c: Color)
    ensures t == 0.0 ==> c == from
    ensures t == 1.0 ==> c == to
    ensures 0.0 <= t <= 1.0 ==> ChannelsBetween(c, from, to)
  {
    Color(LerpChannel(from.r, to.r, t), LerpChannel(from.g, to.g, t), LerpChannel(from.b, to.b, t))
  }
}
