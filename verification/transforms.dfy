/** The uniform scale-and-translate map of web/Transform.js (and the
    `Transform` class of outline.py): (x, y) maps to
    (x*scale + offx, y*scale + offy). */
module Transforms {
  import opened Vectors
  import opened BoundingBoxes

  datatype Transform = Transform(scale: real, offx: real, offy: real)

  /** `transform` (JavaScript) and `transformVertex2D` (Python). */
  function Apply(t: Transform, v: Vec2): Vec2 {
    Vec2(v.x * t.scale + t.offx, v.y * t.scale + t.offy)
  }

  /** `invert`; a zero scale divides by zero in the source. */
  function Invert(t: Transform): (r: Transform)
    requires t.scale != 0.0
    ensures r.scale != 0.0
    ensures forall v :: Apply(r, Apply(t, v)) == v
    ensures forall v :: Apply(t, Apply(r, v)) == v
  {
    var r := Transform(1.0 / t.scale, -t.offx / t.scale, -t.offy / t.scale);
    forall v
      ensures Apply(r, Apply(t, v)) == v && Apply(t, Apply(r, v)) == v
    {
      InvertVec(t, v);
    }
    r
  }

  /** The inverse map undoes t at v, and t undoes it. */
  lemma InvertVec(t: Transform, v: Vec2)
    requires t.scale != 0.0
    ensures var r := Transform(1.0 / t.scale, -t.offx / t.scale, -t.offy / t.scale);
      Apply(r, Apply(t, v)) == v && Apply(t, Apply(r, v)) == v
  {
    InvertPoint(t.scale, t.offx, v.x);
    InvertPoint(t.scale, t.offy, v.y);
    InvertPointBack(t.scale, t.offx, v.x);
    InvertPointBack(t.scale, t.offy, v.y);
  }

  lemma InvertPoint(s: real, o: real, x: real)
    requires s != 0.0
    ensures (x * s + o) * (1.0 / s) + (-o / s) == x
  {
    calc {
      (x * s + o) * (1.0 / s) + (-o / s);
      x * s * (1.0 / s) + o / s - o / s;
      x;
    }
  }

  lemma InvertPointBack(s: real, o: real, x: real)
    requires s != 0.0
    ensures (x * (1.0 / s) + (-o / s)) * s + o == x
  {
    calc {
      (x * (1.0 / s) + (-o / s)) * s + o;
      x * (1.0 / s) * s - (o / s) * s + o;
      x;
    }
  }

  /** Inverting twice gives back the original transform. */
  lemma InvertInvolution(t: Transform)
    requires t.scale != 0.0
    ensures Invert(Invert(t)) == t
  {
    var s := t.scale;
    assert 1.0 / (1.0 / s) == s;
    assert -(-t.offx / s) / (1.0 / s) == t.offx;
    assert -(-t.offy / s) / (1.0 / s) == t.offy;
  }

  /** `scaled(k)`: the image of every point is scaled by `k`. */
  function Scaled(t: Transform, k: real): (r: Transform)
    ensures forall v :: Apply(r, v) == Times(Apply(t, v), k)
  {
    var r := Transform(t.scale * k, t.offx * k, t.offy * k);
    forall v
      ensures Apply(r, v) == Times(Apply(t, v), k)
    {
      ScaledVec(t, k, v);
    }
    r
  }

  lemma ScaledVec(t: Transform, k: real, v: Vec2)
    ensures Apply(Transform(t.scale * k, t.offx * k, t.offy * k), v) == Times(Apply(t, v), k)
  {
    assert v.x * (t.scale * k) + t.offx * k == (v.x * t.scale + t.offx) * k;
    assert v.y * (t.scale * k) + t.offy * k == (v.y * t.scale + t.offy) * k;
  }

  /** `translated(dx, dy)`: the image of every point moves by (dx, dy). */
  function Translated(t: Transform, dx: real, dy: real): (r: Transform)
    ensures forall v :: Apply(r, v) == Plus(Apply(t, v), Vec2(dx, dy))
  {
    var r := Transform(t.scale, t.offx + dx, t.offy + dy);
    forall v
      ensures Apply(r, v) == Plus(Apply(t, v), Vec2(dx, dy))
    {
      TranslatedVec(t, dx, dy, v);
    }
    r
  }

  lemma TranslatedVec(t: Transform, dx: real, dy: real, v: Vec2)
    ensures Apply(Transform(t.scale, t.offx + dx, t.offy + dy), v) == Plus(Apply(t, v), Vec2(dx, dy))
  {
    var moved := Transform(t.scale, t.offx + dx, t.offy + dy);
    var a, u := Apply(moved, v), Apply(t, v);
    var p, q := v.x * t.scale, v.y * t.scale;
    assert a.x == p + (t.offx + dx) && a.y == q + (t.offy + dy);
    assert u.x == p + t.offx && u.y == q + t.offy;
    ShiftSum(p, t.offx, dx);
    ShiftSum(q, t.offy, dy);
    assert a.x == u.x + dx && a.y == u.y + dy;
  }

  lemma ShiftSum(p: real, o: real, d: real)
    ensures p + (o + d) == (p + o) + d
  {
  }

  /** `makeIdentity` maps every point to itself. */
  function MakeIdentity(): (r: Transform)
    ensures forall v :: Apply(r, v) == v
  {
    Transform(1.0, 0.0, 0.0)
  }

  /** The scale `makeMap` picks: fit the height when the box's aspect ratio
      (width over height) is below the frame's, otherwise fit the width. */
  function FitScale(sx: real, sy: real, width: real, height: real): real
    requires sy != 0.0 && height != 0.0
    requires sx / sy >= width / height ==> sx != 0.0
  {
    if sx / sy < width / height then height / sy else width / sx
  }

  /** `makeMap`: the requires are exactly the divisions by zero the Python
      version raises on (`size.x/size.y`, `width/height`, and `width/size.x`
      in the fit-width branch). */
  function MakeMap(bbox: Box2, width: real, height: real): (r: Transform)
    requires Size(bbox).y != 0.0 && height != 0.0
    requires Size(bbox).x / Size(bbox).y >= width / height ==> Size(bbox).x != 0.0
  {
    var size := Size(bbox);
    var scale := FitScale(size.x, size.y, width, height);
    var offset := Minus(DividedBy(Vec2(width, height), 2.0), Times(Center(bbox), scale));
    Transform(scale, offset.x, offset.y)
  }

  /** For a box of positive size and a frame of positive size, the chosen
      scale fits the box inside the frame on both axes and fills it exactly
      on the limiting axis. */
  lemma MakeMapFits(bbox: Box2, width: real, height: real)
    requires Size(bbox).x > 0.0 && Size(bbox).y > 0.0 && width > 0.0 && height > 0.0
    ensures var s := MakeMap(bbox, width, height).scale;
      Size(bbox).x * s <= width && Size(bbox).y * s <= height &&
      (Size(bbox).x * s == width || Size(bbox).y * s == height)
  {
    FitScaleFits(Size(bbox).x, Size(bbox).y, width, height);
  }

  lemma FitScaleFits(sx: real, sy: real, width: real, height: real)
    requires sx > 0.0 && sy > 0.0 && width > 0.0 && height > 0.0
    ensures var s := FitScale(sx, sy, width, height);
      sx * s <= width && sy * s <= height && (sx * s == width || sy * s == height)
  {
    if sx / sy < width / height {
      FitHeightFits(sx, sy, width, height);
    } else {
      FitWidthFits(sx, sy, width, height);
    }
  }

  /** Fitting the height fills it and keeps the width inside the frame. */
  lemma FitHeightFits(sx: real, sy: real, width: real, height: real)
    requires sx > 0.0 && sy > 0.0 && width > 0.0 && height > 0.0 && sx / sy < width / height
    ensures sy * (height / sy) == height && sx * (height / sy) <= width
  {
    RatioLess(sx, sy, width, height);
    assert sx * (height / sy) == sx * height / sy;
    DivLess(sx * height, width, sy);
  }

  /** Fitting the width fills it and keeps the height inside the frame. */
  lemma FitWidthFits(sx: real, sy: real, width: real, height: real)
    requires sx > 0.0 && sy > 0.0 && width > 0.0 && height > 0.0 && !(sx / sy < width / height)
    ensures sx * (width / sx) == width && sy * (width / sx) <= height
  {
    RatioAtLeast(sx, sy, width, height);
    assert sy * (width / sx) == sy * width / sx;
    DivAtMost(sy * width, height, sx);
  }

  lemma RatioLess(a: real, b: real, c: real, d: real)
    requires b > 0.0 && d > 0.0 && a / b < c / d
    ensures a * d < c * b
  {
    assert a / b * (b * d) < c / d * (b * d);
  }

  lemma RatioAtLeast(a: real, b: real, c: real, d: real)
    requires a > 0.0 && b > 0.0 && d > 0.0 && !(a / b < c / d)
    ensures b * c <= d * a
  {
    assert c / d * (b * d) <= a / b * (b * d);
  }

  lemma DivLess(p: real, q: real, k: real)
    requires k > 0.0 && p < q * k
    ensures p / k < q
  {
  }

  lemma DivAtMost(p: real, q: real, k: real)
    requires k > 0.0 && p <= q * k
    ensures p / k <= q
  {
  }

  /** The map sends the center of the box to the center of the frame. */
  lemma MakeMapCentersBox(bbox: Box2, width: real, height: real)
    requires Size(bbox).y != 0.0 && height != 0.0
    requires Size(bbox).x / Size(bbox).y >= width / height ==> Size(bbox).x != 0.0
    ensures Apply(MakeMap(bbox, width, height), Center(bbox)) == Vec2(width / 2.0, height / 2.0)
  {
  }
}
