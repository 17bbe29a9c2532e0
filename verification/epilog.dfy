/** The PRN stream epilog.py writes for a document: a PJL job header, the
    PCL page set-up, one HPGL section per span of every cut, and the job
    footer padded with spaces. Rasters are accepted but not engraved. The
    output file is a string here. */
module Epilog {
  import opened Results
  import opened Decimal
  import opened Text
  import opened Pcl
  import opened Hpgl
  import opened Spans
  import opened Vectors
  import opened Documents

  /** `PJL_HEADER % title`: start a job and switch the printer to PCL. The
      `%%` of the template is a single `%` in the output. */
  function PjlHeader(title: string): string {
    [Esc] + "%-12345X@PJL JOB NAME=" + title + "\r\n" + [Esc] + "E@PJL ENTER LANGUAGE=PCL \r\n"
  }

  /** `PJL_FOOTER`: end the job. */
  const PjlFooter: string := [Esc] + "%-12345X@PJL EOJ \r\n"

  /** `PCL_RESET`. */
  const PclReset: string := [Esc] + "E"

  /** Raster power and speed: fixed for the whole job. */
  const RasterPower: int := 1
  const RasterSpeed: int := 100

  /** Spans hold at most this many points. */
  const SpanPoints: int := 100

  /** `%d` of a Python boolean. */
  function Flag(b: bool): (n: int)
    ensures 0 <= n <= 1 && (n == 1 <==> b)
  {
    if b then 1 else 0
  }

  /** The document settings the page set-up is written from. */
  datatype Settings = Settings(autoFocus: bool, airAssist: bool, centerEngrave: bool,
                               resolution: int, width: int, height: int)

  /** What `generate_prn` asks a document for: the constants of document.py. */
  const DocumentSettings: Settings := Settings(AutoFocus, AirAssist, CenterEngrave, Resolution, Width, Height)

  /** The PCL settings `generate_prn` writes after the header, in order:
      autofocus, global air assist, centre engraving, the two offset
      registrations, print resolution, cursor position, PCL resolution,
      raster orientation, raster power and speed, raster air assist, bed
      height and width, and raster compression. */
  function PageSetup(s: Settings): (cs: seq<Command>)
    ensures |cs| == 16 && forall k :: 0 <= k < |cs| ==> WellFormed(cs[k])
  {
    [ Command("&y", Flag(s.autoFocus), 'A'),
      Command("&y", Flag(s.airAssist), 'C'),
      Command("&y", Flag(s.centerEngrave), 'Z'),
      Command("&l", 0, 'U'),
      Command("&l", 0, 'Z'),
      Command("&u", s.resolution, 'D'),
      Command("*p", 0, 'X'),
      Command("*p", 0, 'Y'),
      Command("*t", s.resolution, 'R'),
      Command("*r", 0, 'F'),
      Command("&y", RasterPower, 'P'),
      Command("&z", RasterSpeed, 'S'),
      Command("&z", if s.airAssist then 2 else 0, 'A'),
      Command("*r", s.height, 'T'),
      Command("*r", s.width, 'S'),
      Command("*b", 2, 'M') ]
  }

  /** The settings a page set-up carries, if the commands are one. */
  function ReadSettings(cs: seq<Command>): (r: Option<Settings>)
    ensures r.Some? ==> PageSetup(r.value) == cs
  {
    if |cs| != 16 then None
    else
      var s := Settings(cs[0].value == 1, cs[1].value == 1, cs[2].value == 1, cs[5].value, cs[14].value, cs[13].value);
      if PageSetup(s) == cs then Some(s) else None
  }

  /** The set-up text is a PCL command stream that reads back as the
      commands, and they as the settings they were written from. */
  lemma PageSetupReadsBack(s: Settings)
    ensures ParseAll(RenderAll(PageSetup(s))) == Some(PageSetup(s))
    ensures ReadSettings(PageSetup(s)) == Some(s)
  {
    ParseRenderAll(PageSetup(s));
    SettingsReadBack(s);
  }

  /** The settings are recovered from the commands they were written as. */
  lemma SettingsReadBack(s: Settings)
    ensures ReadSettings(PageSetup(s)) == Some(s)
  {
    var cs := PageSetup(s);
    assert cs[0].value == Flag(s.autoFocus) && cs[1].value == Flag(s.airAssist);
    assert cs[2].value == Flag(s.centerEngrave) && cs[5].value == s.resolution;
    assert cs[13].value == s.height && cs[14].value == s.width;
  }

  /** For document.py's settings: autofocus and centre engraving off, air
      assist on, 600 dots per inch, and a bed of 14400 by 10800 dots. */
  lemma DocumentPageSetup()
    ensures var cs := PageSetup(DocumentSettings);
      && cs[0].value == 0 && cs[1].value == 1 && cs[2].value == 0
      && cs[5].value == 600 && cs[8].value == 600 && cs[12].value == 2
      && cs[13].value == 10800 && cs[14].value == 14400
  {
  }

  /** A cut point in printer dots: `%d` truncates each coordinate. */
  function Dots(v: Vec2): (p: Point)
    ensures v.x >= 0.0 ==> 0 <= p.x && p.x as real <= v.x < p.x as real + 1.0
    ensures v.y >= 0.0 ==> 0 <= p.y && p.y as real <= v.y < p.y as real + 1.0
  {
    Point(Trunc(v.x), Trunc(v.y))
  }

  function DotsOf(vs: seq<Vec2>): (ps: seq<Point>)
    ensures |ps| == |vs| && forall i :: 0 <= i < |vs| ==> ps[i] == Dots(vs[i])
  {
    seq(|vs|, i requires 0 <= i < |vs| => Dots(vs[i]))
  }

  /** The instructions `generate_cut` writes for one span: HPGL start and
      vector mode, the cut's power, speed and frequency, a pen-up move to the
      first point, a pen-down line through the others, and HPGL end. */
  function SpanFields(c: Cut<Vec2>, span: seq<Vec2>): (f: seq<string>)
    requires |span| >= 1
    ensures |f| == 7
  {
    [ Start + "IN",
      "YP" + FormatPadded(c.power, 3),
      "ZS" + FormatPadded(c.speed, 3),
      "XR" + FormatPadded(c.frequency, 4),
      "PU" + PointText(Dots(span[0])),
      "PD" + PointsText(DotsOf(span[1..])),
      End ]
  }

  /** The text of one span: its instructions with `;` between them. */
  function SpanText(c: Cut<Vec2>, span: seq<Vec2>): string
    requires |span| >= 1
  {
    Join(SpanFields(c, span), Sep)
  }

  /** The texts of the spans, in order. */
  function SpanTexts(c: Cut<Vec2>, spans: seq<seq<Vec2>>): (r: seq<string>)
    requires forall k :: 0 <= k < |spans| ==> |spans[k]| >= 1
    ensures |r| == |spans|
  {
    if spans == [] then [] else [SpanText(c, spans[0])] + SpanTexts(c, spans[1..])
  }

  /** `generate_cut`: the cut's points in spans of at most 100, each span's
      text after a `;` unless it is the first. A cut without points writes
      nothing. */
  function GenerateCut(c: Cut<Vec2>): string {
    Join(SpanTexts(c, GetSpans(c.points, SpanPoints)), Sep)
  }

  /** The instructions of the spans, one span after another. */
  function FieldsOf(c: Cut<Vec2>, spans: seq<seq<Vec2>>): (r: seq<string>)
    requires forall k :: 0 <= k < |spans| ==> |spans[k]| >= 1
    ensures |r| == 7 * |spans|
  {
    if spans == [] then [] else SpanFields(c, spans[0]) + FieldsOf(c, spans[1..])
  }

  /** The spans' texts joined are their instructions joined. */
  lemma {:induction false} SpanTextsJoin(c: Cut<Vec2>, spans: seq<seq<Vec2>>)
    requires forall k :: 0 <= k < |spans| ==> |spans[k]| >= 1
    ensures Join(SpanTexts(c, spans), Sep) == Join(FieldsOf(c, spans), Sep)
    decreases |spans|
  {
    if |spans| >= 2 {
      var tail := spans[1..];
      SpanTextsJoin(c, tail);
      JoinCons(SpanText(c, spans[0]), SpanTexts(c, tail), Sep);
      JoinAppend(SpanFields(c, spans[0]), FieldsOf(c, tail), Sep);
    } else if |spans| == 1 {
      assert spans[1..] == [];
      assert SpanTexts(c, spans) == [SpanText(c, spans[0])];
      assert FieldsOf(c, spans) == SpanFields(c, spans[0]) + FieldsOf(c, []);
      assert FieldsOf(c, spans) == SpanFields(c, spans[0]);
    }
  }

  /** A cut's text is the instructions of all its spans separated by `;`,
      and is empty exactly when the cut has no points. */
  lemma GenerateCutFields(c: Cut<Vec2>)
    ensures GenerateCut(c) == Join(FieldsOf(c, GetSpans(c.points, SpanPoints)), Sep)
    ensures c.points == [] <==> GenerateCut(c) == []
  {
    var spans := GetSpans(c.points, SpanPoints);
    SpanTextsJoin(c, spans);
    if c.points != [] {
      JoinLength(SpanFields(c, spans[0]), Sep);
      JoinLength(SpanTexts(c, spans), Sep);
    }
  }

  /** Reads the spans of a cut back from its instructions, seven at a time. */
  function ReadSpans(fields: seq<string>): Option<seq<Stroke>>
    decreases |fields|
  {
    if |fields| == 0 then Some([])
    else if |fields| < 7 || fields[0] != Start + "IN" || fields[6] != End then None
    else
      var stroke := ReadStroke(fields[1], fields[2], fields[3], fields[4], "PU", fields[5]);
      var rest := ReadSpans(fields[7..]);
      if stroke.None? || rest.None? then None else Some([stroke.value] + rest.value)
  }

  /** Reads a cut's text back as the spans it draws. */
  function ReadCut(t: string): Option<seq<Stroke>> {
    if t == [] then Some([]) else ReadSpans(Split(t, Sep))
  }

  /** What each span tells the printer: the cut's settings and the span's
      points in dots. */
  function StrokesOf(c: Cut<Vec2>, spans: seq<seq<Vec2>>): (r: seq<Stroke>)
    ensures |r| == |spans|
    ensures forall k :: 0 <= k < |spans| ==> r[k] == Stroke(c.power, c.speed, c.frequency, DotsOf(spans[k]))
  {
    if spans == [] then [] else [Stroke(c.power, c.speed, c.frequency, DotsOf(spans[0]))] + StrokesOf(c, spans[1..])
  }

  lemma DotsOfTail(vs: seq<Vec2>)
    requires |vs| >= 1
    ensures DotsOf(vs)[1..] == DotsOf(vs[1..])
  {
  }

  /** One span's instructions read back as its stroke, whatever follows. */
  lemma ReadSpanFields(c: Cut<Vec2>, span: seq<Vec2>, rest: seq<string>)
    requires |span| >= 1
    ensures ReadSpans(SpanFields(c, span) + rest) ==
            if ReadSpans(rest).None? then None
            else Some([Stroke(c.power, c.speed, c.frequency, DotsOf(span))] + ReadSpans(rest).value)
  {
    var f := SpanFields(c, span);
    ReadSpansHead(f, rest);
    var ps := DotsOf(span);
    DotsOfTail(span);
    assert ps[0] == Dots(span[0]);
    ReadStrokeBack(c.power, c.speed, c.frequency, 4, "PU", ps);
  }

  /** ReadSpans takes seven instructions that open and close HPGL, then
      goes on with the rest. */
  lemma ReadSpansHead(f: seq<string>, rest: seq<string>)
    requires |f| == 7 && f[0] == Start + "IN" && f[6] == End
    ensures var stroke := ReadStroke(f[1], f[2], f[3], f[4], "PU", f[5]);
      ReadSpans(f + rest) ==
        if stroke.None? || ReadSpans(rest).None? then None else Some([stroke.value] + ReadSpans(rest).value)
  {
    var fields := f + rest;
    assert fields[7..] == rest;
    assert fields[0] == f[0] && fields[6] == f[6];
    assert fields[1] == f[1] && fields[2] == f[2] && fields[3] == f[3] && fields[4] == f[4] && fields[5] == f[5];
  }

  lemma {:induction false} ReadSpansBack(c: Cut<Vec2>, spans: seq<seq<Vec2>>)
    requires forall k :: 0 <= k < |spans| ==> |spans[k]| >= 1
    ensures ReadSpans(FieldsOf(c, spans)) == Some(StrokesOf(c, spans))
    decreases |spans|
  {
    if spans != [] {
      ReadSpansBack(c, spans[1..]);
      ReadSpanFields(c, spans[0], FieldsOf(c, spans[1..]));
    }
  }

  /** No instruction holds `;`, given that the instruction name does not and
      the rest is numbers. */
  lemma TaggedFree(tag: string, body: string)
    requires Sep !in tag && Numeric(body)
    ensures Sep !in tag + body
  {
  }

  lemma NumericSigned(s: string)
    requires Signed(s)
    ensures Numeric(s)
  {
  }

  /** No instruction of a span holds the separator. */
  lemma SpanFieldsFree(c: Cut<Vec2>, span: seq<Vec2>)
    requires |span| >= 1
    ensures Free(SpanFields(c, span), Sep)
  {
    var f := SpanFields(c, span);
    PaddedFree("YP", c.power, 3);
    PaddedFree("ZS", c.speed, 3);
    PaddedFree("XR", c.frequency, 4);
    PointFree("PU", Dots(span[0]));
    PointsFree("PD", DotsOf(span[1..]));
    assert Sep !in f[0] && Sep !in f[6];
    SevenFree(f);
  }

  /** Seven instructions, none holding `;`. */
  lemma SevenFree(f: seq<string>)
    requires |f| == 7
    requires Sep !in f[0] && Sep !in f[1] && Sep !in f[2] && Sep !in f[3]
    requires Sep !in f[4] && Sep !in f[5] && Sep !in f[6]
    ensures Free(f, Sep)
  {
  }

  /** An instruction of one point holds no `;`. */
  lemma PointFree(tag: string, p: Point)
    requires Sep !in tag
    ensures Sep !in tag + PointText(p)
  {
    assert PointsText([p]) == PointText(p);
    PointsFree(tag, [p]);
  }

  lemma PaddedFree(tag: string, i: int, width: nat)
    requires Sep !in tag
    ensures Sep !in tag + FormatPadded(i, width)
  {
    FormatPaddedSigned(i, width);
    NumericSigned(FormatPadded(i, width));
    TaggedFree(tag, FormatPadded(i, width));
  }

  lemma PointsFree(tag: string, ps: seq<Point>)
    requires Sep !in tag
    ensures Sep !in tag + PointsText(ps)
  {
    PointsTextNumeric(ps);
    TaggedFree(tag, PointsText(ps));
  }

  lemma {:induction false} FieldsOfFree(c: Cut<Vec2>, spans: seq<seq<Vec2>>)
    requires forall k :: 0 <= k < |spans| ==> |spans[k]| >= 1
    ensures Free(FieldsOf(c, spans), Sep)
    decreases |spans|
  {
    if spans != [] {
      FieldsOfFree(c, spans[1..]);
      SpanFieldsFree(c, spans[0]);
      var f, rest := SpanFields(c, spans[0]), FieldsOf(c, spans[1..]);
      forall k | 0 <= k < |f + rest|
        ensures Sep !in (f + rest)[k]
      {
        if k >= |f| {
          assert (f + rest)[k] == rest[k - |f|];
        }
      }
    }
  }

  /** What each span of the cut tells the printer. */
  function Strokes(c: Cut<Vec2>): (r: seq<Stroke>)
    ensures |r| == |GetSpans(c.points, SpanPoints)|
  {
    StrokesOf(c, GetSpans(c.points, SpanPoints))
  }

  /** The text of a cut reads back as its spans: each with the cut's power,
      speed and frequency, and the span's points truncated to dots. */
  lemma ReadGeneratedCut(c: Cut<Vec2>)
    ensures ReadCut(GenerateCut(c)) == Some(Strokes(c))
  {
    var spans := GetSpans(c.points, SpanPoints);
    GenerateCutFields(c);
    if c.points != [] {
      FieldsOfFree(c, spans);
      SplitJoin(FieldsOf(c, spans), Sep);
      ReadSpansBack(c, spans);
    }
  }

  /** The points of each stroke. */
  function PointsOf(strokes: seq<Stroke>): (r: seq<seq<Point>>)
    ensures |r| == |strokes|
    ensures forall k :: 0 <= k < |strokes| ==> r[k] == strokes[k].points
  {
    if strokes == [] then [] else [strokes[0].points] + PointsOf(strokes[1..])
  }

  lemma DotsOfAppend(a: seq<Vec2>, b: seq<Vec2>)
    ensures DotsOf(a + b) == DotsOf(a) + DotsOf(b)
  {
  }

  lemma DotsOfPrefix(a: seq<Vec2>, n: nat)
    requires n <= |a|
    ensures DotsOf(a)[..n] == DotsOf(a[..n])
  {
  }

  lemma {:induction false} StitchStrokes(c: Cut<Vec2>, spans: seq<seq<Vec2>>)
    requires forall k :: 0 <= k < |spans| ==> |spans[k]| >= 1
    ensures Stitch(PointsOf(StrokesOf(c, spans))) == DotsOf(Stitch(spans))
    decreases |spans|
  {
    var ps := PointsOf(StrokesOf(c, spans));
    if |spans| >= 2 {
      var tail := spans[1..];
      StitchStrokes(c, tail);
      assert StrokesOf(c, spans)[1..] == StrokesOf(c, tail);
      assert ps[1..] == PointsOf(StrokesOf(c, tail));
      var n := |spans[0]| - 1;
      DotsOfPrefix(spans[0], n);
      DotsOfAppend(spans[0][..n], Stitch(tail));
    } else if |spans| == 1 {
      assert ps == [DotsOf(spans[0])];
    }
  }

  /** What the printer is told for a cut: the spans read back from its text
      carry the cut's settings, hold at most 100 points each, and drawn one
      after the other pass through exactly the cut's points in dots. */
  lemma CutDrawsItsPoints(c: Cut<Vec2>)
    ensures var strokes := ReadCut(GenerateCut(c));
      && strokes.Some?
      && (forall k :: 0 <= k < |strokes.value| ==>
            && strokes.value[k].power == c.power && strokes.value[k].speed == c.speed
            && strokes.value[k].frequency == c.frequency
            && 1 <= |strokes.value[k].points| <= SpanPoints)
      && Stitch(PointsOf(strokes.value)) == DotsOf(c.points)
  {
    var spans := GetSpans(c.points, SpanPoints);
    ReadGeneratedCut(c);
    StitchStrokes(c, spans);
    StitchSpans(c.points, SpanPoints);
  }

  /** The cuts one after another, with nothing between them. */
  function CutsText(cuts: seq<Cut<Vec2>>): string {
    Emit(cuts, GenerateCut)
  }

  /** The header and the page set-up. */
  function Prologue(title: string): string {
    PjlHeader(title) + RenderAll(PageSetup(DocumentSettings))
  }

  /** HPGL start, pen up, PCL reset, the job footer, then 4092 spaces of
      padding and `Mini]` with a newline. */
  const Trailer: string := Start + "PU" + PclReset + PjlFooter + Spaces(4092) + "Mini]\n"

  /** `generate_prn`. Engraving is not implemented: the rasters are
      ignored. */
  function GeneratePrn<R>(d: Document<Cut<Vec2>, R>): string {
    Prologue(d.title) + Body(d) + Trailer
  }

  /** The cuts, when there are any. */
  function Body<R>(d: Document<Cut<Vec2>, R>): string {
    if EnableCut(d) then CutsText(d.cuts) else ""
  }

  /** The stream opens with the job header naming the document and closes
      with the trailer. */
  lemma Framing<R>(d: Document<Cut<Vec2>, R>)
    ensures PjlHeader(d.title) <= GeneratePrn(d)
    ensures |GeneratePrn(d)| >= |Trailer| && GeneratePrn(d)[|GeneratePrn(d)| - |Trailer|..] == Trailer
  {
    PrnParts(d);
    Framed(PjlHeader(d.title), RenderAll(PageSetup(DocumentSettings)) + Body(d), Trailer);
  }

  /** The stream in three parts: header, everything between, trailer. */
  lemma PrnParts<R>(d: Document<Cut<Vec2>, R>)
    ensures GeneratePrn(d) == PjlHeader(d.title) + (RenderAll(PageSetup(DocumentSettings)) + Body(d)) + Trailer
  {
    Assoc(PjlHeader(d.title), RenderAll(PageSetup(DocumentSettings)), Body(d));
  }

  /** Adding a cut to a document adds its text after the other cuts' and
      before the trailer; the rest of the stream is unchanged. */
  lemma AddCutAppendsText<R>(d: Document<Cut<Vec2>, R>, c: Cut<Vec2>)
    ensures GeneratePrn(AddCut(d, c)) == Prologue(d.title) + CutsText(d.cuts) + GenerateCut(c) + Trailer
  {
    EmitAppend(d.cuts, c, GenerateCut);
    Assoc(Prologue(d.title), CutsText(d.cuts), GenerateCut(c));
  }

  /** Rasters do not change the stream. */
  lemma RastersIgnored<R>(d: Document<Cut<Vec2>, R>, raster: R)
    ensures GeneratePrn(AddRaster(d, raster)) == GeneratePrn(d)
  {
  }

  /** The first cut of the vector example: speed 4, power 100, frequency 50,
      from (1200, 1300) to (1400, 1500). */
  lemma VectorExample()
    ensures GenerateCut(Cut(4, 100, 50, [Vec2(1200.0, 1300.0), Vec2(1400.0, 1500.0)])) ==
            Join([Start + "IN", "YP100", "ZS004", "XR0050", "PU1200,1300", "PD1400,1500", End], Sep)
  {
    var c := Cut(4, 100, 50, [Vec2(1200.0, 1300.0), Vec2(1400.0, 1500.0)]);
    SingleSpan(c.points, SpanPoints);
    ExampleFields(c);
    assert SpanTexts(c, [c.points]) == [SpanText(c, c.points)];
  }

  lemma ExampleFields(c: Cut<Vec2>)
    requires c == Cut(4, 100, 50, [Vec2(1200.0, 1300.0), Vec2(1400.0, 1500.0)])
    ensures SpanFields(c, c.points) == [Start + "IN", "YP100", "ZS004", "XR0050", "PU1200,1300", "PD1400,1500", End]
  {
    ExampleSettings();
    ExampleFirstPoint();
    ExampleSecondPoint();
    ExampleDots(c.points);
    assert PointsText([Point(1400, 1500)]) == PointText(Point(1400, 1500));
    var f := SpanFields(c, c.points);
    assert f[1] == "YP100" && f[2] == "ZS004" && f[3] == "XR0050";
    assert f[4] == "PU1200,1300" && f[5] == "PD1400,1500";
  }

  lemma ExampleDots(vs: seq<Vec2>)
    requires vs == [Vec2(1200.0, 1300.0), Vec2(1400.0, 1500.0)]
    ensures Dots(vs[0]) == Point(1200, 1300) && DotsOf(vs[1..]) == [Point(1400, 1500)]
  {
    TruncOfInt(1200);
    TruncOfInt(1300);
    TruncOfInt(1400);
    TruncOfInt(1500);
  }

  lemma ExampleSettings()
    ensures FormatPadded(100, 3) == "100" && FormatPadded(4, 3) == "004" && FormatPadded(50, 4) == "0050"
  {
    assert NatToString(10) == "10";
    assert NatToString(100) == "100";
    assert NatToString(50) == "50";
  }

  lemma ExampleFirstPoint()
    ensures PointText(Point(1200, 1300)) == "1200,1300"
  {
    assert NatToString(12) == "12" && NatToString(120) == "120" && NatToString(1200) == "1200";
    assert NatToString(13) == "13" && NatToString(130) == "130" && NatToString(1300) == "1300";
  }

  lemma ExampleSecondPoint()
    ensures PointText(Point(1400, 1500)) == "1400,1500"
  {
    assert NatToString(14) == "14" && NatToString(140) == "140" && NatToString(1400) == "1400";
    assert NatToString(15) == "15" && NatToString(150) == "150" && NatToString(1500) == "1500";
  }
}
