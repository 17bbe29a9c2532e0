/** The measure `simplify_vertices` of outline.py applies to each interior
    vertex: its distance from the shared end when the two ends of the list
    coincide (`(v - first).length()`), and otherwise its distance from the
    line through the two ends (`distance_to_line`). Both distances take a
    square root and normalise a vector, so they enter the model as two
    parameters; only the choice between them is modelled, which is what
    keeps `distance_to_line` away from the zero-length chord. */
module Distances {
  import opened Vectors
  import opened Simplification

  /** The deviation of v from the chord first..last, built from a vector
      length and a point-to-line distance. */
  function SourceDeviation(length: Vec2 -> real, toLine: (Vec2, Vec2, Vec2) -> real,
                           v: Vec2, first: Vec2, last: Vec2): real
  {
    if first == last then length(Minus(v, first)) else toLine(v, first, last)
  }

  /** The measure as the parameter `Simplify` takes. */
  function SourceMeasure(length: Vec2 -> real, toLine: (Vec2, Vec2, Vec2) -> real): (dev: (Vec2, Vec2, Vec2) -> real)
  {
    (v, first, last) => SourceDeviation(length, toLine, v, first, last)
  }

  /** The line distance is consulted only for a chord of non-zero length:
      whatever it answers for a degenerate chord, the measure is the same. */
  lemma LineDistanceOnlyOffDegenerate(length: Vec2 -> real, toLine: (Vec2, Vec2, Vec2) -> real,
                                      other: (Vec2, Vec2, Vec2) -> real, v: Vec2, first: Vec2, last: Vec2)
    requires forall a, b, c :: a != b ==> other(c, a, b) == toLine(c, a, b)
    ensures SourceDeviation(length, toLine, v, first, last) == SourceDeviation(length, other, v, first, last)
  {
  }

  /** Two non-negative distances give a non-negative measure. */
  lemma MeasureNonNegative(length: Vec2 -> real, toLine: (Vec2, Vec2, Vec2) -> real, vs: seq<Vec2>)
    requires forall d :: length(d) >= 0.0
    requires forall a, b, c :: toLine(a, b, c) >= 0.0
    ensures forall i :: 0 <= i < |vs| ==> Deviation(vs, i, SourceMeasure(length, toLine)) >= 0.0
  {
    forall i | 0 <= i < |vs|
      ensures Deviation(vs, i, SourceMeasure(length, toLine)) >= 0.0
    {
      assert Deviation(vs, i, SourceMeasure(length, toLine)) == SourceDeviation(length, toLine, vs[i], vs[0], vs[|vs| - 1]);
    }
  }

  /** A closed list (first vertex equal to the last) whose vertices all lie
      within eps of its start is simplified to the two ends alone, whatever
      the line distance says. */
  lemma ClosedWithinCollapses(length: Vec2 -> real, toLine: (Vec2, Vec2, Vec2) -> real, vs: seq<Vec2>, eps: real)
    requires eps >= 0.0 && |vs| >= 2 && vs[0] == vs[|vs| - 1]
    requires forall i :: 0 < i < |vs| - 1 ==> length(Minus(vs[i], vs[0])) <= eps
    ensures Simplify(vs, eps, SourceMeasure(length, toLine)) == [vs[0], vs[0]]
  {
    var dev := SourceMeasure(length, toLine);
    forall i | 0 < i < |vs| - 1
      ensures Deviation(vs, i, dev) <= eps
    {
      assert Deviation(vs, i, dev) == length(Minus(vs[i], vs[0]));
    }
    OnlyEndsIff(vs, eps, dev);
    var r := Simplify(vs, eps, dev);
    assert |r| == 2 && r[0] == vs[0] && r[1] == vs[|vs| - 1];
  }
}
