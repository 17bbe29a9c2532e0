/** The HPGL part of a PRN stream, shared by both encoders: it is opened by
    `ESC%1B` and closed by `ESC%0B`, and between them holds `;`-separated
    instructions such as `YP100` (power), `ZS004` (speed), `XR0050`
    (frequency), `PU1200,1300` (move with the pen up) and `PD1400,1500,...`
    (draw). Coordinates are printer dots written with `%d`. Readers for the
    instructions are the partners of the writers. */
module Hpgl {
  import opened Results
  import opened Decimal
  import opened Text
  import Pcl

  const Sep: char := ';'

  /** `HPGL_START`, which the source comments call the PCL section end. */
  const Start: string := [Pcl.Esc] + "%1B"

  /** `HPGL_END`. */
  const End: string := [Pcl.Esc] + "%0B"

  /** A position in printer dots, as `%d` leaves it. */
  datatype Point = Point(x: int, y: int)

  /** `"%d,%d" % (p.x, p.y)`. */
  function PointText(p: Point): string {
    FormatInt(p.x) + "," + FormatInt(p.y)
  }

  /** `",".join("%d,%d" % (p.x, p.y) for p in ps)`. */
  function PointsText(ps: seq<Point>): string {
    Join(seq(|ps|, i requires 0 <= i < |ps| => PointText(ps[i])), ',')
  }

  /** The coordinates of ps, x then y for each point, as text. */
  function Coords(ps: seq<Point>): (r: seq<string>)
    ensures |r| == 2 * |ps|
  {
    if ps == [] then [] else [FormatInt(ps[0].x), FormatInt(ps[0].y)] + Coords(ps[1..])
  }

  /** Text made of digits, minus signs and commas only. */
  predicate Numeric(s: string) {
    forall k :: 0 <= k < |s| ==> IsDigit(s[k]) || s[k] == '-' || s[k] == ','
  }

  /** Text made of digits and minus signs only. */
  predicate Signed(s: string) {
    forall k :: 0 <= k < |s| ==> IsDigit(s[k]) || s[k] == '-'
  }

  lemma FormatIntSigned(i: int)
    ensures |FormatInt(i)| >= 1 && Signed(FormatInt(i))
  {
    var digits := NatToString(if i < 0 then -i else i);
    assert forall k :: 0 <= k < |digits| ==> IsDigit(digits[k]);
  }

  lemma FormatPaddedSigned(i: int, width: nat)
    ensures Signed(FormatPadded(i, width))
  {
    var sign := if i < 0 then "-" else "";
    var digits := NatToString(if i < 0 then -i else i);
    var len := |sign| + |digits|;
    var zeros := Zeros(if len < width then width - len else 0);
    assert FormatPadded(i, width) == sign + zeros + digits;
    assert forall k :: 0 <= k < |digits| ==> IsDigit(digits[k]);
    assert forall k :: 0 <= k < |zeros| ==> IsDigit(zeros[k]);
  }

  /** The point list is the coordinates separated by commas. */
  lemma {:induction false} PointsTextIsCoords(ps: seq<Point>)
    ensures PointsText(ps) == Join(Coords(ps), ',')
  {
    var groups := seq(|ps|, i requires 0 <= i < |ps| => [FormatInt(ps[i].x), FormatInt(ps[i].y)]);
    CoordsConcat(ps);
    assert JoinEach(groups, ',') == seq(|ps|, i requires 0 <= i < |ps| => PointText(ps[i])) by {
      forall i | 0 <= i < |ps|
        ensures Join(groups[i], ',') == PointText(ps[i])
      {
        assert groups[i][1..] == [FormatInt(ps[i].y)];
      }
    }
    JoinConcat(groups, ',');
  }

  lemma {:induction false} CoordsConcat(ps: seq<Point>)
    ensures Coords(ps) == Concat(seq(|ps|, i requires 0 <= i < |ps| => [FormatInt(ps[i].x), FormatInt(ps[i].y)]))
    decreases |ps|
  {
    var groups := seq(|ps|, i requires 0 <= i < |ps| => [FormatInt(ps[i].x), FormatInt(ps[i].y)]);
    if ps != [] {
      CoordsConcat(ps[1..]);
      assert groups[1..] == seq(|ps| - 1, i requires 0 <= i < |ps| - 1 => [FormatInt(ps[1..][i].x), FormatInt(ps[1..][i].y)]);
    }
  }

  /** Every coordinate is signed-number text. */
  lemma {:induction false} CoordsSigned(ps: seq<Point>)
    ensures forall k :: 0 <= k < |Coords(ps)| ==> |Coords(ps)[k]| >= 1 && Signed(Coords(ps)[k])
    decreases |ps|
  {
    if ps != [] {
      FormatIntSigned(ps[0].x);
      FormatIntSigned(ps[0].y);
      CoordsSigned(ps[1..]);
    }
  }

  /** Reads numbers pairwise into points; an odd count or a piece that is
      not a numeral is rejected. */
  function ReadCoords(parts: seq<string>): (r: Option<seq<Point>>)
    ensures r.Some? ==> 2 * |r.value| == |parts|
  {
    if |parts| == 0 then Some([])
    else if |parts| == 1 then None
    else
      var x, y := ParseInt(parts[0]), ParseInt(parts[1]);
      var rest := ReadCoords(parts[2..]);
      if x.None? || y.None? || rest.None? then None
      else Some([Point(x.value, y.value)] + rest.value)
  }

  /** Reads a comma-separated point list; the empty text is no points. */
  function ReadPoints(t: string): Option<seq<Point>> {
    if t == [] then Some([]) else ReadCoords(Split(t, ','))
  }

  lemma {:induction false} ReadCoordsBack(ps: seq<Point>)
    ensures ReadCoords(Coords(ps)) == Some(ps)
    decreases |ps|
  {
    if ps != [] {
      var p := ps[0];
      ReadCoordsBack(ps[1..]);
      ParseFormatInt(p.x);
      ParseFormatInt(p.y);
      ReadCoordsStep(FormatInt(p.x), FormatInt(p.y), Coords(ps[1..]), p, ps[1..]);
      assert [p] + ps[1..] == ps;
    }
  }

  /** Reading two numerals and then the rest. */
  lemma ReadCoordsStep(a: string, b: string, rest: seq<string>, p: Point, tail: seq<Point>)
    requires ParseInt(a) == Some(p.x) && ParseInt(b) == Some(p.y)
    requires ReadCoords(rest) == Some(tail)
    ensures ReadCoords([a, b] + rest) == Some([p] + tail)
  {
    var c := [a, b] + rest;
    assert c[0] == a && c[1] == b && c[2..] == rest;
  }

  /** A written point list reads back as the points it was written from. */
  lemma ReadPointsBack(ps: seq<Point>)
    ensures ReadPoints(PointsText(ps)) == Some(ps)
  {
    PointsTextIsCoords(ps);
    ReadCoordsBack(ps);
    if ps != [] {
      var cs := Coords(ps);
      CoordsSigned(ps);
      assert Free(cs, ',') by {
        forall k | 0 <= k < |cs|
          ensures ',' !in cs[k]
        {
          assert Signed(cs[k]);
        }
      }
      assert |cs| >= 2;
      assert Join(cs, ',') != [] by {
        assert Join(cs, ',') == cs[0] + [','] + Join(cs[1..], ',');
      }
      SplitJoin(cs, ',');
    }
  }

  /** The number after a two-letter (or longer) instruction name, e.g. 100
      from `YP100`. */
  function ReadTagged(field: string, tag: string): (r: Option<int>)
    ensures r.Some? ==> |field| > |tag| && field[..|tag|] == tag
  {
    if |field| >= |tag| && field[..|tag|] == tag then ParseInt(field[|tag|..]) else None
  }

  lemma ReadTaggedPadded(tag: string, i: int, width: nat)
    ensures ReadTagged(tag + FormatPadded(i, width), tag) == Some(i)
  {
    var f := tag + FormatPadded(i, width);
    assert f[..|tag|] == tag && f[|tag|..] == FormatPadded(i, width);
    ParseFormatPadded(i, width);
  }

  /** The points of an instruction that starts with tag. */
  function ReadTaggedPoints(field: string, tag: string): Option<seq<Point>> {
    if |field| >= |tag| && field[..|tag|] == tag then ReadPoints(field[|tag|..]) else None
  }

  lemma ReadTaggedPointsBack(tag: string, ps: seq<Point>)
    ensures ReadTaggedPoints(tag + PointsText(ps), tag) == Some(ps)
  {
    var f := tag + PointsText(ps);
    assert f[..|tag|] == tag && f[|tag|..] == PointsText(ps);
    ReadPointsBack(ps);
  }

  /** One pen-up move and the pen-down line after it, with the laser
      settings in force: what one span of a cut tells the printer. */
  datatype Stroke = Stroke(power: int, speed: int, frequency: int, points: seq<Point>)

  /** Reads the settings and the moves of one span from its instructions:
      power, speed and frequency, a pen-up move to exactly one point, and
      a pen-down line through the rest. */
  function ReadStroke(power: string, speed: string, frequency: string, penUp: string, penUpTag: string,
                      penDown: string): (r: Option<Stroke>)
    ensures r.Some? ==> |r.value.points| >= 1
  {
    var p, s, f := ReadTagged(power, "YP"), ReadTagged(speed, "ZS"), ReadTagged(frequency, "XR");
    var first, rest := ReadTaggedPoints(penUp, penUpTag), ReadTaggedPoints(penDown, "PD");
    if p.None? || s.None? || f.None? || first.None? || rest.None? || |first.value| != 1 then None
    else Some(Stroke(p.value, s.value, f.value, first.value + rest.value))
  }

  /** The instructions of one span, as both encoders write them, read back
      as the span's settings and points. */
  lemma ReadStrokeBack(power: int, speed: int, frequency: int, width: nat, penUpTag: string, ps: seq<Point>)
    requires |ps| >= 1
    ensures ReadStroke("YP" + FormatPadded(power, 3), "ZS" + FormatPadded(speed, 3),
                       "XR" + FormatPadded(frequency, width), penUpTag + PointText(ps[0]), penUpTag,
                       "PD" + PointsText(ps[1..])) == Some(Stroke(power, speed, frequency, ps))
  {
    ReadTaggedPadded("YP", power, 3);
    ReadTaggedPadded("ZS", speed, 3);
    ReadTaggedPadded("XR", frequency, width);
    ReadFirstPoint(penUpTag, ps[0]);
    ReadTaggedPointsBack("PD", ps[1..]);
    ReadStrokeOf("YP" + FormatPadded(power, 3), "ZS" + FormatPadded(speed, 3),
                 "XR" + FormatPadded(frequency, width), penUpTag + PointText(ps[0]), penUpTag,
                 "PD" + PointsText(ps[1..]), Stroke(power, speed, frequency, [ps[0]] + ps[1..]));
    assert [ps[0]] + ps[1..] == ps;
  }

  /** A stroke whose every instruction reads back. */
  lemma ReadStrokeOf(power: string, speed: string, frequency: string, penUp: string, penUpTag: string,
                     penDown: string, st: Stroke)
    requires ReadTagged(power, "YP") == Some(st.power)
    requires ReadTagged(speed, "ZS") == Some(st.speed)
    requires ReadTagged(frequency, "XR") == Some(st.frequency)
    requires |st.points| >= 1
    requires ReadTaggedPoints(penUp, penUpTag) == Some([st.points[0]])
    requires ReadTaggedPoints(penDown, "PD") == Some(st.points[1..])
    ensures ReadStroke(power, speed, frequency, penUp, penUpTag, penDown) == Some(st)
  {
    assert [st.points[0]] + st.points[1..] == st.points;
  }

  /** The pen-up instruction reads back as its one point. */
  lemma ReadFirstPoint(tag: string, p: Point)
    ensures ReadTaggedPoints(tag + PointText(p), tag) == Some([p])
  {
    assert PointsText([p]) == PointText(p);
    ReadTaggedPointsBack(tag, [p]);
  }

  /** Neither the numbers nor the point lists hold the instruction
      separator. */
  lemma PointsTextNumeric(ps: seq<Point>)
    ensures Numeric(PointsText(ps))
  {
    PointsTextIsCoords(ps);
    CoordsSigned(ps);
    JoinNumeric(Coords(ps));
  }

  lemma {:induction false} JoinNumeric(parts: seq<string>)
    requires forall k :: 0 <= k < |parts| ==> Signed(parts[k])
    ensures Numeric(Join(parts, ','))
    decreases |parts|
  {
    if |parts| >= 2 {
      JoinNumeric(parts[1..]);
      var rest := Join(parts[1..], ',');
      var j := parts[0] + [','] + rest;
      forall k | 0 <= k < |j|
        ensures IsDigit(j[k]) || j[k] == '-' || j[k] == ','
      {
        if k < |parts[0]| {
          assert j[k] == parts[0][k];
        } else if k > |parts[0]| {
          assert j[k] == rest[k - |parts[0]| - 1];
        }
      }
    } else if |parts| == 1 {
      assert Join(parts, ',') == parts[0];
    }
  }
}
