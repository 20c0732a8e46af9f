/** Value types of the simulator: `Vec2`, `Circle`, and the affine `map_to_range`. */
module Geometry {
  import opened RealOps

  /** A 2D vector or point (`Vec2`). */
  datatype Vec2 = Vec2(x: real, y: real)

  /** `Vec2::dot_product`. */
  function Dot(u: Vec2, v: Vec2): real
  {
    u.x * v.x + u.y * v.y
  }

  lemma DotSymmetric(u: Vec2, v: Vec2)
    ensures Dot(u, v) == Dot(v, u)
  {
  }

  /** Scaling one argument of the dot product scales the product. */
  lemma DotScaled(v: Vec2, n: Vec2, k: real)
    ensures Dot(v, Vec2(k * n.x, k * n.y)) == k * Dot(v, n)
  {
  }

  /** `Vec2::reflect`: specular reflection of `v` about the line with normal `normal`.
      For a unit normal, the reflection keeps the length of `v` and flips its normal component. */
  function Reflect(v: Vec2, normal: Vec2): (r: Vec2)
    ensures Dot(normal, normal) == 1.0 ==> Dot(r, normal) == -Dot(v, normal)
    ensures Dot(normal, normal) == 1.0 ==> Dot(r, r) == Dot(v, v)
  {
    var d := Dot(v, normal);
    Vec2(v.x - 2.0 * d * normal.x, v.y - 2.0 * d * normal.y)
  }

  /** Reflection leaves every component along the mirror line unchanged. */
  lemma ReflectKeepsTangent(v: Vec2, normal: Vec2, tangent: Vec2)
    requires Dot(tangent, normal) == 0.0
    ensures Dot(Reflect(v, normal), tangent) == Dot(v, tangent)
  {
  }

  /** Reflecting twice about the same unit normal gives back the original vector. */
  lemma ReflectInvolution(v: Vec2, normal: Vec2)
    requires Dot(normal, normal) == 1.0
    ensures Reflect(Reflect(v, normal), normal) == v
  {
    var r := Reflect(v, normal);
    assert Dot(r, normal) == -Dot(v, normal);
  }

  /** `Circle`: a centre, a radius and the cached square of the radius used for hit tests. */
  datatype Circle = Circle(center: Vec2, radius: real, radiusSquared: real)

  /** The hit test shared by `draw_circle` and the ball-per-pixel setup:
      the point `(x, y)` lies strictly inside the circle. */
  predicate CoversPoint(c: Circle, x: real, y: real)
  {
    Square(x - c.center.x) + Square(y - c.center.y) < c.radiusSquared
  }

  /** `Circle::new`: the hit test of the new circle compares against the square of its radius. */
  function NewCircle(center: Vec2, radius: real): (c: Circle)
    ensures c.center == center && c.radius == radius
    ensures c.radiusSquared == Square(radius)
    ensures forall x: real, y: real :: CoversPoint(c, x, y) <==>
      Square(x - center.x) + Square(y - center.y) < Square(radius)
  {
    Circle(center, radius, Square(radius))
  }

  /** `std::ops::Range<f64>`: a start and an end (the end need not be larger). */
  datatype Range = Range(start: real, end: real)

  /** `map_to_range`: the affine map that sends `from` onto `to`. */
  function MapToRange(num: real, from: Range, to: Range): (r: real)
    requires from.end != from.start
    ensures num == from.start ==> r == to.start
    ensures num == from.end ==> r == to.end
    ensures (r - to.start) * (from.end - from.start) == (num - from.start) * (to.end - to.start)
  {
    QuotientScaled(num - from.start, from.end - from.start, to.end - to.start);
    (num - from.start) / (from.end - from.start) * (to.end - to.start) + to.start
  }

  /** Mapping `from -> to` and then `to -> from` returns the original value. */
  lemma MapToRangeRoundTrip(num: real, from: Range, to: Range)
    requires from.end != from.start && to.end != to.start
    ensures MapToRange(MapToRange(num, from, to), to, from) == num
  {
    var m := MapToRange(num, from, to);
    var back := MapToRange(m, to, from);
    CancelFactor(back - from.start, num - from.start, to.end - to.start);
  }

  /** For ranges in the same direction (both increasing or both decreasing), `map_to_range`
      preserves order. */
  lemma MapToRangeMonotonic(a: real, b: real, from: Range, to: Range)
    requires (from.start < from.end && to.start <= to.end) || (from.end < from.start && to.end <= to.start)
    requires a <= b
    ensures MapToRange(a, from, to) <= MapToRange(b, from, to)
  {
    var k := (to.end - to.start) / (from.end - from.start);
    assert k >= 0.0;
    assert MapToRange(b, from, to) - MapToRange(a, from, to) == (b - a) * k;
  }

  /** Values inside `from` land inside `to` when both ranges go upwards. */
  lemma MapToRangeWithin(num: real, from: Range, to: Range)
    requires from.start < from.end && to.start <= to.end
    requires from.start <= num <= from.end
    ensures to.start <= MapToRange(num, from, to) <= to.end
  {
    MapToRangeMonotonic(from.start, num, from, to);
    MapToRangeMonotonic(num, from.end, from, to);
  }
}
