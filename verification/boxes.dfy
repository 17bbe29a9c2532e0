/** The 2D bounding box of web/BoundingBox2D.js (duplicated in outline.py):
    a running component-wise minimum and maximum. */
module BoundingBoxes {
  import opened Vectors

  datatype Box2 = Box2(min: Vec2, max: Vec2)

  /** `Number.MAX_VALUE` (and `sys.float_info.max`), the sentinel a fresh box
      starts from. */
  const MaxValue: real := 179769313486231570814527423731704356798070567525844996598917476803157260780028538760589558632766878171540458953514382464234321326889464182768467546703537516986049910576551282076245490090389328944075868508455133942304583236903222948165808559332123348274797826204144723168738177180919299881250404026184124858368.0

  /** A fresh box: min at +MAX, max at -MAX, so that it is empty. */
  function Fresh(): (b: Box2)
    ensures b.min.x > b.max.x && b.min.y > b.max.y
  {
    Box2(Vec2(MaxValue, MaxValue), Vec2(-MaxValue, -MaxValue))
  }

  predicate Contains(b: Box2, v: Vec2) {
    b.min.x <= v.x <= b.max.x && b.min.y <= v.y <= b.max.y
  }

  /** `outer` spans at least the corners of `inner`. */
  predicate Encloses(outer: Box2, inner: Box2) {
    outer.min.x <= inner.min.x && outer.min.y <= inner.min.y &&
    inner.max.x <= outer.max.x && inner.max.y <= outer.max.y
  }

  /** Adding a point: the result contains it, only grows, and is the least
      box doing both. */
  function AddPoint(b: Box2, v: Vec2): (r: Box2)
    ensures Contains(r, v)
    ensures Encloses(r, b)
    ensures forall c: Box2 :: Encloses(c, b) && Contains(c, v) ==> Encloses(c, r)
  {
    Box2(Min(b.min, v), Max(b.max, v))
  }

  function Size(b: Box2): (s: Vec2)
    ensures Plus(b.min, s) == b.max
  {
    Minus(b.max, b.min)
  }

  /** The center is the midpoint of the two corners. */
  function Center(b: Box2): (c: Vec2)
    ensures c == Times(Plus(b.min, b.max), 0.5)
  {
    Plus(b.min, DividedBy(Size(b), 2.0))
  }

  /** Growing by `margin` on every side widens each axis by twice the margin
      and keeps the center in place. */
  function AddMargin(b: Box2, margin: real): (r: Box2)
    ensures Size(r) == Plus(Size(b), Vec2(2.0 * margin, 2.0 * margin))
    ensures Center(r) == Center(b)
  {
    Box2(Vec2(b.min.x - margin, b.min.y - margin), Vec2(b.max.x + margin, b.max.y + margin))
  }

  /** The first point added to a fresh box becomes both corners (for any
      point a float can represent). */
  lemma FreshThenAddPoint(v: Vec2)
    requires -MaxValue <= v.x <= MaxValue && -MaxValue <= v.y <= MaxValue
    ensures AddPoint(Fresh(), v) == Box2(v, v)
  {
  }
}
