/** One continuous cut (`Cut` of cut.py and web/Cut.js) and the chunking of
    its points into spans of at most `maxPoints` points for the printer
    (`getSpans`): consecutive spans overlap by one point, so that the
    polyline drawn span after span is the whole cut. */
module Spans {

  /** Laser settings and the polyline of one cut. */
  datatype Cut<P> = Cut(speed: int, power: int, frequency: int, points: seq<P>)

  function Min(a: int, b: int): int {
    if a <= b then a else b
  }

  /** The polyline the spans draw: the first span, then each further span
      without its first point, which repeats the previous span's last. */
  function Stitch<P>(spans: seq<seq<P>>): seq<P>
    requires forall k :: 0 <= k < |spans| ==> |spans[k]| >= 1
  {
    if |spans| == 0 then []
    else if |spans| == 1 then spans[0]
    else spans[0][..|spans[0]| - 1] + Stitch(spans[1..])
  }

  /** `getSpans`: repeatedly take the first maxPoints points and continue
      from the last point taken. The source loops forever when maxPoints is
      below 2 and there is at least one point, so that is excluded. */
  function GetSpans<P>(points: seq<P>, maxPoints: int): (spans: seq<seq<P>>)
    requires points == [] || maxPoints >= 2
    ensures points == [] <==> spans == []
    ensures forall k :: 0 <= k < |spans| ==> 1 <= |spans[k]| <= maxPoints
    ensures points != [] ==> spans[0] == points[..Min(maxPoints, |points|)]
    ensures forall k :: 0 <= k < |spans| - 1 ==> spans[k][|spans[k]| - 1] == spans[k + 1][0]
    ensures forall k :: 0 <= k < |spans| - 1 ==> |spans[k]| == maxPoints
    decreases |points|
  {
    if points == [] then []
    else
      var n := |points|;
      var rest := GetSpans(points[Min(maxPoints - 1, n)..], maxPoints);
      assert rest != [] ==> rest[0][0] == points[maxPoints - 1];
      [points[..Min(maxPoints, n)]] + rest
  }

  /** As many spans as ceil(n / (maxPoints - 1)): the smallest count c
      with n <= c * (maxPoints - 1). */
  lemma {:induction false} SpanCount<P>(points: seq<P>, maxPoints: int)
    requires maxPoints >= 2 && points != []
    ensures var c := |GetSpans(points, maxPoints)|;
      (c - 1) * (maxPoints - 1) < |points| <= c * (maxPoints - 1)
    decreases |points|
  {
    var n, d := |points|, maxPoints - 1;
    if n > d {
      var tail := points[d..];
      SpanCount(tail, maxPoints);
      SpansCons(points, maxPoints);
      ShiftBounds(|GetSpans(tail, maxPoints)|, d, n);
    } else {
      SingleSpan(points, maxPoints);
    }
  }

  /** With maxPoints or more points, one span is taken and the rest starts at
      its last point. */
  lemma SpansCons<P>(points: seq<P>, maxPoints: int)
    requires maxPoints >= 2 && |points| >= maxPoints
    ensures GetSpans(points, maxPoints) == [points[..maxPoints]] + GetSpans(points[maxPoints - 1..], maxPoints)
    ensures GetSpans(points[maxPoints - 1..], maxPoints) != []
  {
  }

  /** One more span covers d more points. */
  lemma ShiftBounds(c: int, d: int, n: int)
    requires (c - 1) * d < n - d <= c * d
    ensures c * d < n <= (c + 1) * d
  {
    assert (c + 1) * d == c * d + d;
    assert (c - 1) * d == c * d - d;
  }

  /** Drawing the spans one after the other draws exactly the cut's points. */
  lemma {:induction false} StitchSpans<P>(points: seq<P>, maxPoints: int)
    requires points == [] || maxPoints >= 2
    ensures Stitch(GetSpans(points, maxPoints)) == points
    decreases |points|
  {
    if points != [] {
      if |points| < maxPoints {
        SingleSpan(points, maxPoints);
      } else {
        var tail := points[maxPoints - 1..];
        StitchSpans(tail, maxPoints);
        SpansCons(points, maxPoints);
        StitchStep(points, maxPoints, GetSpans(tail, maxPoints));
      }
    }
  }

  /** A first span of m points in front of spans that stitch to the points
      from its last one on stitches to all the points. */
  lemma StitchStep<P>(points: seq<P>, m: int, rest: seq<seq<P>>)
    requires 2 <= m <= |points| && rest != [] && forall k :: 0 <= k < |rest| ==> |rest[k]| >= 1
    requires Stitch(rest) == points[m - 1..]
    ensures Stitch([points[..m]] + rest) == points
  {
    StitchCons(points[..m], rest);
    assert points[..m][..m - 1] == points[..m - 1];
    assert points[..m - 1] + points[m - 1..] == points;
  }

  /** Stitching a first span in front of further spans drops its last
      point. */
  lemma StitchCons<P>(first: seq<P>, rest: seq<seq<P>>)
    requires |first| >= 1 && rest != [] && forall k :: 0 <= k < |rest| ==> |rest[k]| >= 1
    ensures Stitch([first] + rest) == first[..|first| - 1] + Stitch(rest)
  {
    assert ([first] + rest)[1..] == rest;
  }

  /** Fewer points than a span holds make one span. */
  lemma SingleSpan<P>(points: seq<P>, maxPoints: int)
    requires 1 <= |points| < maxPoints
    ensures GetSpans(points, maxPoints) == [points]
  {
    var n := |points|;
    assert points[Min(maxPoints - 1, n)..] == [];
    assert points[..Min(maxPoints, n)] == points;
  }

  /** 250 points at 100 per span: spans of 100, 100 and 52 points. */
  lemma TwoHundredFifty<P>(points: seq<P>)
    requires |points| == 250
    ensures var spans := GetSpans(points, 100);
      |spans| == 3 && |spans[0]| == 100 && |spans[1]| == 100 && |spans[2]| == 52
  {
    var s1 := points[99..];
    var s2 := s1[99..];
    assert s2[Min(99, |s2|)..] == [] && s2[..Min(100, |s2|)] == s2;
    assert GetSpans(s2, 100) == [s2];
    assert GetSpans(s1, 100) == [s1[..100]] + [s2];
  }

  /** 100 points at 100 per span: a full span, then the shared last point
      alone. */
  lemma ExactlyOneSpanFull<P>(points: seq<P>)
    requires |points| == 100
    ensures GetSpans(points, 100) == [points, [points[99]]]
  {
    var s1 := points[99..];
    assert s1[Min(99, |s1|)..] == [] && s1[..Min(100, |s1|)] == s1;
    assert GetSpans(s1, 100) == [s1];
    assert s1 == [points[99]];
    assert points[..Min(100, |points|)] == points;
    assert GetSpans(points, 100) == [points] + GetSpans(s1, 100);
  }
}
