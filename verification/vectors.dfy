/** 2D and 3D vectors with exact real components.
    The same `Vector2` class appears in vector.py, in outline.py and in
    web/Vector2.js; `Vector3` is from vector.py. Floating point is replaced
    by exact `real` arithmetic, so every algebraic identity below holds
    exactly rather than up to rounding. */
module Vectors {

  datatype Vec2 = Vec2(x: real, y: real)

  datatype Vec3 = Vec3(x: real, y: real, z: real)

  // ---------------------------------------------------------------- Vector2

  function Negated(v: Vec2): (r: Vec2)
    ensures Plus(v, r) == Vec2(0.0, 0.0)
  {
    Vec2(-v.x, -v.y)
  }

  function Plus(a: Vec2, b: Vec2): Vec2 {
    Vec2(a.x + b.x, a.y + b.y)
  }

  function Minus(a: Vec2, b: Vec2): (r: Vec2)
    ensures Plus(r, b) == a
  {
    Vec2(a.x - b.x, a.y - b.y)
  }

  function Times(v: Vec2, k: real): Vec2 {
    Vec2(v.x * k, v.y * k)
  }

  /** Division by zero raises in Python and yields infinities in JavaScript;
      neither is a real number, so the divisor must be non-zero. */
  function DividedBy(v: Vec2, k: real): (r: Vec2)
    requires k != 0.0
    ensures Times(r, k) == v
  {
    Vec2(v.x / k, v.y / k)
  }

  function Dot(a: Vec2, b: Vec2): real {
    a.x * b.x + a.y * b.y
  }

  /** Rotated 90 degrees counter-clockwise: perpendicular to `v`, of the
      same length, and turned to the left of `v` (the cross product of `v`
      and `r` is positive unless `v` is zero). Together these fix `r`. */
  function Reciprocal(v: Vec2): (r: Vec2)
    ensures Dot(r, v) == 0.0
    ensures Dot(r, r) == Dot(v, v)
    ensures v.x * r.y - v.y * r.x == Dot(v, v)
  {
    Vec2(-v.y, v.x)
  }

  function FlipX(v: Vec2): (r: Vec2)
    ensures r.y == v.y && r.x + v.x == 0.0
  {
    Vec2(-v.x, v.y)
  }

  function FlipY(v: Vec2): (r: Vec2)
    ensures r.x == v.x && r.y + v.y == 0.0
  {
    Vec2(v.x, -v.y)
  }

  function MinReal(a: real, b: real): real {
    if a <= b then a else b
  }

  function MaxReal(a: real, b: real): real {
    if a >= b then a else b
  }

  /** Component-wise minimum: a lower bound of both inputs whose every
      component is taken from one of them. */
  function Min(a: Vec2, b: Vec2): (r: Vec2)
    ensures r.x <= a.x && r.x <= b.x && (r.x == a.x || r.x == b.x)
    ensures r.y <= a.y && r.y <= b.y && (r.y == a.y || r.y == b.y)
  {
    Vec2(MinReal(a.x, b.x), MinReal(a.y, b.y))
  }

  /** Component-wise maximum: an upper bound of both inputs whose every
      component is taken from one of them. */
  function Max(a: Vec2, b: Vec2): (r: Vec2)
    ensures r.x >= a.x && r.x >= b.x && (r.x == a.x || r.x == b.x)
    ensures r.y >= a.y && r.y >= b.y && (r.y == a.y || r.y == b.y)
  {
    Vec2(MaxReal(a.x, b.x), MaxReal(a.y, b.y))
  }

  /** `equals` compares the two coordinates; this coincides with value
      identity of the datatype. */
  function Equals(a: Vec2, b: Vec2): (r: bool)
    ensures r <==> a == b
  {
    a.x == b.x && a.y == b.y
  }

  /** `hashCode` of web/Vector2.js: the Effective Java recipe on the floors of
      the coordinates. */
  function HashCode(v: Vec2): int {
    37 * (37 * 17 + v.x.Floor) + v.y.Floor
  }

  /** Equal vectors hash equally (the contract a hash table relies on). */
  lemma EqualsImpliesEqualHash(a: Vec2, b: Vec2)
    requires Equals(a, b)
    ensures HashCode(a) == HashCode(b)
  {
  }

  lemma PlusMinusCancel(v: Vec2, w: Vec2)
    ensures Minus(Plus(v, w), w) == v
  {
  }

  lemma TimesDividedByCancel(v: Vec2, k: real)
    requires k != 0.0
    ensures DividedBy(Times(v, k), k) == v
  {
  }

  /** Rotating twice by 90 degrees is the half turn. */
  lemma ReciprocalTwiceIsNegated(v: Vec2)
    ensures Reciprocal(Reciprocal(v)) == Negated(v)
  {
  }

  lemma FlipsAreInvolutions(v: Vec2)
    ensures FlipX(FlipX(v)) == v
    ensures FlipY(FlipY(v)) == v
  {
  }

  // ---------------------------------------------------------------- Vector3

  function Negated3(v: Vec3): (r: Vec3)
    ensures Plus3(v, r) == Vec3(0.0, 0.0, 0.0)
  {
    Vec3(-v.x, -v.y, -v.z)
  }

  function Plus3(a: Vec3, b: Vec3): Vec3 {
    Vec3(a.x + b.x, a.y + b.y, a.z + b.z)
  }

  function Minus3(a: Vec3, b: Vec3): (r: Vec3)
    ensures Plus3(r, b) == a
  {
    Vec3(a.x - b.x, a.y - b.y, a.z - b.z)
  }

  function Times3(v: Vec3, k: real): Vec3 {
    Vec3(v.x * k, v.y * k, v.z * k)
  }

  function DividedBy3(v: Vec3, k: real): (r: Vec3)
    requires k != 0.0
    ensures Times3(r, k) == v
  {
    Vec3(v.x / k, v.y / k, v.z / k)
  }

  function Dot3(a: Vec3, b: Vec3): real {
    a.x * b.x + a.y * b.y + a.z * b.z
  }

  /** Right-handed cross product: perpendicular to both factors. */
  function Cross(a: Vec3, b: Vec3): (r: Vec3)
    ensures Dot3(a, r) == 0.0
    ensures Dot3(b, r) == 0.0
  {
    Vec3(a.y * b.z - a.z * b.y, a.z * b.x - a.x * b.z, a.x * b.y - a.y * b.x)
  }

  function Min3(a: Vec3, b: Vec3): (r: Vec3)
    ensures r.x <= a.x && r.x <= b.x && (r.x == a.x || r.x == b.x)
    ensures r.y <= a.y && r.y <= b.y && (r.y == a.y || r.y == b.y)
    ensures r.z <= a.z && r.z <= b.z && (r.z == a.z || r.z == b.z)
  {
    Vec3(MinReal(a.x, b.x), MinReal(a.y, b.y), MinReal(a.z, b.z))
  }

  function Max3(a: Vec3, b: Vec3): (r: Vec3)
    ensures r.x >= a.x && r.x >= b.x && (r.x == a.x || r.x == b.x)
    ensures r.y >= a.y && r.y >= b.y && (r.y == a.y || r.y == b.y)
    ensures r.z >= a.z && r.z >= b.z && (r.z == a.z || r.z == b.z)
  {
    Vec3(MaxReal(a.x, b.x), MaxReal(a.y, b.y), MaxReal(a.z, b.z))
  }

  /** The cross product is anti-commutative. */
  lemma CrossAntiCommutative(a: Vec3, b: Vec3)
    ensures Cross(a, b) == Negated3(Cross(b, a))
  {
  }

  lemma Plus3Minus3Cancel(v: Vec3, w: Vec3)
    ensures Minus3(Plus3(v, w), w) == v
  {
  }
}
