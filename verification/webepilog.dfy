/** The PRN stream web/epilog.js writes for a document: a PJL job header,
    the PCL set-up for the printer (the Epilog Fusion, or the Helix when
    `FUSION` is false), the rasters, one HPGL section holding every span of
    every cut, and a trailer padded with spaces. The printer is a parameter
    here, where the source fixes it with a constant; so is the horizontal
    position of raster rows (`WebRaster.Placement`), whose `AsWritten`
    value is what the source sends. Readers for the set-up
    and the cut section are the partners of the writers; the rasters read
    back through WebRaster. */
module WebEpilog {
  import opened Results
  import opened Decimal
  import opened Text
  import opened Pcl
  import opened Hpgl
  import opened Spans
  import opened Vectors
  import opened Paths
  import opened Documents
  import opened WebRaster
  import Epilog

  /** The printer the stream is written for. */
  datatype Variant = Fusion | Helix

  /** `Cut` of web/Cut.js: a path in inches and the laser settings. */
  datatype WebCut = WebCut(path: Path<Vec2>, speed: int, power: int, frequency: int)

  /** What `generatePrn` asks the document for, besides its title, cuts and
      rasters: air assist, centre engraving, and the bed size in dots. */
  datatype WebSettings = WebSettings(airAssist: bool, centerEngrave: bool, width: int, height: int)

  /** web/Document.js: air assist on, no centre engraving, a bed of 32 by
      20 inches at 600 dots per inch. */
  const DocumentSettings: WebSettings :=
    WebSettings(AirAssist, CenterEngrave, WebWidthInches * Dpi, WebHeightInches * Dpi)

  /** Raster power and speed, fixed for the whole job. */
  const RasterPower: int := 50
  const RasterSpeed: int := 50

  /** The autofocus value written to switch autofocus off. */
  const AutofocusOff: int := -1

  /** What the stream opens with after the header. The Fusion gets colour
      component one (1536), two undocumented settings, a fixed date stamp
      and five zeroed settings; the Helix gets autofocus off, global air
      assist and centre engraving. */
  function Preamble(v: Variant, s: WebSettings): (cs: seq<Command>)
    ensures |cs| == if v == Fusion then 8 else 3
  {
    match v
    case Fusion =>
      [ Command("*v", 1536, 'A'),
        Command("&y", 130001300003220, 'S'),
        Command("&y", 20150311204531, 'D'),
        Command("&y", 0, 'V'), Command("&y", 0, 'L'), Command("&y", 0, 'T'),
        Command("&y", 0, 'C'), Command("&y", 0, 'Z') ]
    case Helix =>
      [ Command("&y", AutofocusOff, 'A'),
        Command("&y", Epilog.Flag(s.airAssist), 'C'),
        Command("&y", Epilog.Flag(s.centerEngrave), 'Z') ]
  }

  /** Every command has a group, no digit in it, and a letter to end it. */
  predicate AllWellFormed(cs: seq<Command>) {
    forall k :: 0 <= k < |cs| ==> WellFormed(cs[k])
  }

  lemma WellFormedConcat(a: seq<Command>, b: seq<Command>)
    requires AllWellFormed(a) && AllWellFormed(b)
    ensures AllWellFormed(a + b)
  {
    forall k | 0 <= k < |a + b|
      ensures WellFormed((a + b)[k])
    {
      if k < |a| {
        assert (a + b)[k] == a[k];
      } else {
        assert (a + b)[k] == b[k - |a|];
      }
    }
  }

  /** The offset registrations, print resolution, cursor at the origin,
      PCL resolution and raster orientation. */
  const Registration: seq<Command> :=
    [ Command("&l", 0, 'U'), Command("&l", 0, 'Z'), Command("&u", Dpi, 'D'),
      Command("*p", 0, 'X'), Command("*p", 0, 'Y'), Command("*t", Dpi, 'R'),
      Command("*r", 0, 'F') ]

  /** Raster power and speed, with the Fusion's undocumented settings
      around them. */
  function RasterSettings(v: Variant): (cs: seq<Command>)
    ensures |cs| == if v == Fusion then 5 else 2
  {
    match v
    case Fusion =>
      [ Command("&z", 0, 'C'), Command("&y", RasterPower, 'P'), Command("&z", RasterSpeed, 'S'),
        Command("&y", 50, 'R'), Command("&y", AutofocusOff, 'A') ]
    case Helix =>
      [ Command("&y", RasterPower, 'P'), Command("&z", RasterSpeed, 'S') ]
  }

  /** Raster air assist, bed height and width, raster compression. */
  function Bed(s: WebSettings): (cs: seq<Command>)
    ensures |cs| == 4
  {
    [ Command("&z", if s.airAssist then 2 else 0, 'A'),
      Command("*r", s.height, 'T'),
      Command("*r", s.width, 'S'),
      Command("*b", 2, 'M') ]
  }

  /** The PCL set-up `generatePrn` writes after the header, in order: the
      preamble, the offset registrations, print resolution, cursor at the
      origin, PCL resolution, raster orientation, (Fusion: an undocumented
      zero), raster power and speed, (Fusion: an undocumented 50 and
      autofocus off), raster air assist, bed height and width, and raster
      compression. */
  function Setup(v: Variant, s: WebSettings): (cs: seq<Command>)
    ensures |cs| == if v == Fusion then 24 else 16
  {
    Preamble(v, s) + Registration + RasterSettings(v) + Bed(s)
  }

  /** Every set-up command has a group, no digit in it, and a letter to
      end it. */
  lemma SetupWellFormed(v: Variant, s: WebSettings)
    ensures AllWellFormed(Setup(v, s))
  {
    var p, g, r, b := Preamble(v, s), Registration, RasterSettings(v), Bed(s);
    assert AllWellFormed(p) by {
      forall k | 0 <= k < |p| ensures WellFormed(p[k]) {
        assert |p[k].group| == 2;
      }
    }
    assert AllWellFormed(g) by {
      forall k | 0 <= k < |g| ensures WellFormed(g[k]) {
        assert |g[k].group| == 2;
      }
    }
    assert AllWellFormed(r) by {
      forall k | 0 <= k < |r| ensures WellFormed(r[k]) {
        assert |r[k].group| == 2;
      }
    }
    assert AllWellFormed(b) by {
      forall k | 0 <= k < |b| ensures WellFormed(b[k]) {
        assert |b[k].group| == 2;
      }
    }
    WellFormedConcat(p, g);
    WellFormedConcat(p + g, r);
    WellFormedConcat(p + g + r, b);
  }

  /** The printer and settings a set-up was written for, if the commands
      are one. The Fusion's set-up does not mention centre engraving, so it
      reads back as off. */
  function ReadSetup(cs: seq<Command>): (r: Option<(Variant, WebSettings)>)
    ensures r.Some? ==> Setup(r.value.0, r.value.1) == cs
  {
    if |cs| == 24 then
      var s := WebSettings(cs[20].value == 2, false, cs[22].value, cs[21].value);
      if Setup(Fusion, s) == cs then Some((Fusion, s)) else None
    else if |cs| == 16 then
      var s := WebSettings(cs[1].value == 1, cs[2].value == 1, cs[14].value, cs[13].value);
      if Setup(Helix, s) == cs then Some((Helix, s)) else None
    else None
  }

  /** The set-up text reads back as its commands. */
  lemma SetupParses(v: Variant, s: WebSettings)
    ensures ParseAll(RenderAll(Setup(v, s))) == Some(Setup(v, s))
  {
    SetupWellFormed(v, s);
    ParseRenderAll(Setup(v, s));
  }

  /** The set-up commands read back as the printer and the settings,
      whenever the settings are ones the printer's set-up mentions. */
  lemma SetupReadsBack(v: Variant, s: WebSettings)
    requires v == Helix || !s.centerEngrave
    ensures ReadSetup(Setup(v, s)) == Some((v, s))
  {
    var cs := Setup(v, s);
    var n := |cs|;
    assert cs[n - 4] == Bed(s)[0] && cs[n - 3] == Bed(s)[1] && cs[n - 2] == Bed(s)[2];
    if v == Helix {
      assert cs[1] == Preamble(v, s)[1] && cs[2] == Preamble(v, s)[2];
    }
  }

  /** The Fusion's set-up is the same whether centre engraving is asked for
      or not. */
  lemma FusionIgnoresCentre(s: WebSettings)
    ensures Setup(Fusion, s) == Setup(Fusion, s.(centerEngrave := !s.centerEngrave))
  {
  }

  /** For web/Document.js's settings both printers are told 600 dots per
      inch, raster air assist on, and a bed of 12000 by 19200 dots; only the
      Helix is told about global air assist and centre engraving. */
  lemma DocumentSetup(v: Variant)
    ensures var cs := Setup(v, DocumentSettings);
      var n := |cs|;
      && cs[n - 4] == Command("&z", 2, 'A')
      && cs[n - 3] == Command("*r", 12000, 'T')
      && cs[n - 2] == Command("*r", 19200, 'S')
      && (v == Helix ==> cs[1] == Command("&y", 1, 'C') && cs[2] == Command("&y", 0, 'Z'))
  {
  }

  /** Spans hold at most this many vertices (`breakIntoSections(100)`). */
  const SectionPoints: int := 100

  /** The cut's path in spans of at most 100 vertices, consecutive spans
      sharing an end vertex. */
  function Sections(c: WebCut): (spans: seq<seq<Vec2>>)
    ensures forall k :: 0 <= k < |spans| ==> 1 <= |spans[k]| <= SectionPoints
  {
    GetSpans(c.path.vertices, SectionPoints)
  }

  /** Digits of the frequency: `XR%02d` on the Fusion, `XR%04d` on the
      Helix. */
  function FrequencyWidth(v: Variant): nat {
    match v
    case Fusion => 2
    case Helix => 4
  }

  /** The vertices in dots: each coordinate in inches times 600. */
  function Scaled(vs: seq<Vec2>): (ws: seq<Vec2>)
    ensures |ws| == |vs| && forall i :: 0 <= i < |vs| ==> ws[i] == Times(vs[i], Dpi as real)
  {
    seq(|vs|, i requires 0 <= i < |vs| => Times(vs[i], Dpi as real))
  }

  /** `sprintf("%d,%d", v.x*DPI, v.y*DPI)` of each vertex: scaled to dots,
      then truncated. */
  function InDots(vs: seq<Vec2>): (ps: seq<Point>)
    ensures |ps| == |vs| && forall i :: 0 <= i < |vs| ==> ps[i] == Epilog.Dots(Times(vs[i], Dpi as real))
  {
    Epilog.DotsOf(Scaled(vs))
  }

  /** The instructions `generateCut` writes for one span: power, speed,
      frequency, two undocumented settings, line type with a pen-up move to
      the first vertex, and a pen-down line through the others. */
  function SpanFields(v: Variant, c: WebCut, span: seq<Vec2>): (f: seq<string>)
    requires |span| >= 1
    ensures |f| == 7
  {
    var ps := InDots(span);
    [ "YP" + FormatPadded(c.power, 3),
      "ZS" + FormatPadded(c.speed, 3),
      "XR" + FormatPadded(c.frequency, FrequencyWidth(v)),
      "XS0",
      "XP1",
      "LTPU" + PointText(ps[0]),
      "PD" + PointsText(ps[1..]) ]
  }

  /** The instructions of the spans, one span after another. */
  function SpansFields(v: Variant, c: WebCut, spans: seq<seq<Vec2>>): (f: seq<string>)
    requires forall k :: 0 <= k < |spans| ==> |spans[k]| >= 1
    ensures |f| == 7 * |spans|
  {
    if spans == [] then [] else SpanFields(v, c, spans[0]) + SpansFields(v, c, spans[1..])
  }

  /** The instructions of a cut. */
  function CutFields(v: Variant, c: WebCut): seq<string> {
    SpansFields(v, c, Sections(c))
  }

  /** An instruction and the `;` after it. */
  function Terminate(field: string): string {
    field + [Sep]
  }

  /** Instructions each followed by `;`. */
  function Terminated(fields: seq<string>): string {
    Emit(fields, Terminate)
  }

  /** `generateCut`: every instruction of every span, each followed by
      `;`. A cut without vertices writes nothing. */
  function GenerateCut(v: Variant, c: WebCut): string {
    Terminated(CutFields(v, c))
  }

  /** `generateCut` for the printer. */
  function CutWriter(v: Variant): WebCut -> string {
    c => GenerateCut(v, c)
  }

  /** The cuts one after another. */
  function CutsText(v: Variant, cuts: seq<WebCut>): string {
    Emit(cuts, CutWriter(v))
  }

  /** HPGL start, vector initialisation and `;`. */
  const SectionHead: string := Start + "IN" + [Sep]

  /** The vector pass: one HPGL section around all the cuts. */
  function CutSection(v: Variant, cuts: seq<WebCut>): string {
    SectionHead + CutsText(v, cuts) + End
  }

  /** HPGL start, pen up, PCL reset and the job footer. */
  const TrailerHead: string := Start + "PU" + Epilog.PclReset + Epilog.PjlFooter

  /** The padding at the end of the file: 4090 spaces and `FusionKYMC` on
      the Fusion, 4092 spaces and `Mini]` with a newline on the Helix. */
  function Padding(v: Variant): string {
    match v
    case Fusion => Spaces(4090) + "FusionKYMC"
    case Helix => Spaces(4092) + "Mini]\n"
  }

  function Trailer(v: Variant): string {
    TrailerHead + Padding(v)
  }

  /** Rasters the encoder can write. */
  predicate AllPrintable(rasters: seq<Raster>) {
    forall k :: 0 <= k < |rasters| ==> Printable(rasters[k])
  }

  /** The raster passes, when there are rasters. */
  function Engraving(p: Placement, d: Document<WebCut, Raster>): string
    requires AllPrintable(d.rasters)
  {
    if EnableEngraving(d) then RastersText(p, d.rasters) else ""
  }

  /** The vector pass, when there are cuts. */
  function Cutting(v: Variant, d: Document<WebCut, Raster>): string {
    if EnableCut(d) then CutSection(v, d.cuts) else ""
  }

  /** `generatePrn`: header, set-up, rasters, cuts, trailer. With
      `AsWritten` this is the stream web/epilog.js writes; with `LeftEdge`
      the rasters are sent to their left edge instead. */
  function GeneratePrn(v: Variant, p: Placement, d: Document<WebCut, Raster>): string
    requires AllPrintable(d.rasters)
  {
    Epilog.PjlHeader(d.title) + RenderAll(Setup(v, DocumentSettings)) + Engraving(p, d) + Cutting(v, d) + Trailer(v)
  }

  /** The stream in three parts: header, everything between, trailer. */
  lemma PrnParts(v: Variant, p: Placement, d: Document<WebCut, Raster>)
    requires AllPrintable(d.rasters)
    ensures GeneratePrn(v, p, d) ==
      Epilog.PjlHeader(d.title) + (RenderAll(Setup(v, DocumentSettings)) + Engraving(p, d) + Cutting(v, d)) + Trailer(v)
  {
    var h, s, e, c := Epilog.PjlHeader(d.title), RenderAll(Setup(v, DocumentSettings)), Engraving(p, d), Cutting(v, d);
    Assoc(h, s, e);
    Assoc(h, s + e, c);
  }

  /** The stream opens with the job header naming the document and closes
      with the printer's trailer. */
  lemma Framing(v: Variant, p: Placement, d: Document<WebCut, Raster>)
    requires AllPrintable(d.rasters)
    ensures Epilog.PjlHeader(d.title) <= GeneratePrn(v, p, d)
    ensures |GeneratePrn(v, p, d)| >= |Trailer(v)|
    ensures GeneratePrn(v, p, d)[|GeneratePrn(v, p, d)| - |Trailer(v)|..] == Trailer(v)
  {
    PrnParts(v, p, d);
    Framed(Epilog.PjlHeader(d.title), RenderAll(Setup(v, DocumentSettings)) + Engraving(p, d) + Cutting(v, d), Trailer(v));
  }

  /** The trailers differ, and the Helix's is the one epilog.py writes. */
  lemma Trailers()
    ensures Trailer(Helix) == Epilog.Trailer
    ensures Trailer(Fusion) != Trailer(Helix)
  {
    var f, h := Padding(Fusion), Padding(Helix);
    assert f[4090] == 'F' && h[4090] == ' ';
    AppendSlices(TrailerHead, f);
    AppendSlices(TrailerHead, h);
    Assoc(TrailerHead, Spaces(4092), "Mini]\n");
  }

  /** Adding a cut puts its text after the other cuts' and inside the same
      HPGL section; the rest of the stream is unchanged. */
  lemma AddCutAppendsText(v: Variant, p: Placement, d: Document<WebCut, Raster>, c: WebCut)
    requires AllPrintable(d.rasters)
    ensures GeneratePrn(v, p, AddCut(d, c)) ==
      Epilog.PjlHeader(d.title) + RenderAll(Setup(v, DocumentSettings)) + Engraving(p, d)
      + (SectionHead + CutsText(v, d.cuts) + GenerateCut(v, c) + End) + Trailer(v)
  {
    CutsTextAppend(v, d.cuts, c);
    assert Cutting(v, AddCut(d, c)) == SectionHead + (CutsText(v, d.cuts) + GenerateCut(v, c)) + End;
    Assoc(SectionHead, CutsText(v, d.cuts), GenerateCut(v, c));
  }

  lemma CutsTextAppend(v: Variant, cuts: seq<WebCut>, c: WebCut)
    ensures CutsText(v, cuts + [c]) == CutsText(v, cuts) + GenerateCut(v, c)
  {
    EmitAppend(cuts, c, CutWriter(v));
  }

  /** A raster's speed and power are not written. */
  lemma RasterSettingsIgnored(p: Placement, r: Raster, speed: int, power: int)
    requires Printable(r)
    ensures GenerateRaster(p, r.(speed := speed, power := power)) == GenerateRaster(p, r)
  {
    var r' := r.(speed := speed, power := power);
    forall k | 0 <= k < r.image.height
      ensures RowUnits(p, r', k) == RowUnits(p, r, k)
    {
      RowIgnoresSettings(p, r, speed, power, k);
    }
    assert RowGroups(p, r') == RowGroups(p, r);
  }

  lemma RowIgnoresSettings(p: Placement, r: Raster, speed: int, power: int, k: nat)
    requires Printable(r) && k < r.image.height
    ensures RowUnits(p, r.(speed := speed, power := power), k) == RowUnits(p, r, k)
  {
    var r' := r.(speed := speed, power := power);
    assert r'.image == r.image && r'.x == r.x && r'.y == r.y;
    assert RowPayloadOf(r', k) == RowPayloadOf(r, k);
  }

  /** The raster passes read back as what each raster's rows tell the
      printer. */
  lemma EngravingReadsBack(p: Placement, d: Document<WebCut, Raster>)
    requires AllPrintable(d.rasters) && EnableEngraving(d)
    ensures ReadRasterText(Engraving(p, d)) == Some(AllRecords(p, d.rasters))
  {
    RastersReadBack(p, d.rasters);
  }

  /** What one span tells the printer: the cut's settings and the span's
      vertices in dots. */
  function SpanStroke(c: WebCut, span: seq<Vec2>): Stroke {
    Stroke(c.power, c.speed, c.frequency, InDots(span))
  }

  function SpanStrokes(c: WebCut, spans: seq<seq<Vec2>>): (r: seq<Stroke>)
    ensures |r| == |spans|
    ensures forall k :: 0 <= k < |spans| ==> r[k] == SpanStroke(c, spans[k])
  {
    if spans == [] then [] else [SpanStroke(c, spans[0])] + SpanStrokes(c, spans[1..])
  }

  /** What each span of a cut tells the printer. */
  function CutStrokes(c: WebCut): (r: seq<Stroke>)
    ensures |r| == |Sections(c)|
  {
    SpanStrokes(c, Sections(c))
  }

  /** What the cuts tell the printer, one after another. */
  function AllStrokes(cuts: seq<WebCut>): seq<Stroke> {
    if cuts == [] then [] else CutStrokes(cuts[0]) + AllStrokes(cuts[1..])
  }

  /** All instructions of the cuts, one cut after another. */
  function AllFields(v: Variant, cuts: seq<WebCut>): seq<string> {
    if cuts == [] then [] else CutFields(v, cuts[0]) + AllFields(v, cuts[1..])
  }

  /** Reads the spans back from their instructions, seven at a time. */
  function ReadSpans(fields: seq<string>): (r: Option<seq<Stroke>>)
    ensures r.Some? ==> |fields| == 7 * |r.value|
    ensures r.Some? ==> forall k :: 0 <= k < |r.value| ==> |r.value[k].points| >= 1
    decreases |fields|
  {
    if |fields| == 0 then Some([])
    else if |fields| < 7 || fields[3] != "XS0" || fields[4] != "XP1" then None
    else
      var stroke := ReadStroke(fields[0], fields[1], fields[2], fields[5], "LTPU", fields[6]);
      var rest := ReadSpans(fields[7..]);
      if stroke.None? || rest.None? then None else Some([stroke.value] + rest.value)
  }

  /** Reads a vector pass back as the spans it draws: HPGL start, `IN;`,
      instructions each ended by `;`, HPGL end. */
  function ReadCutSection(s: string): (r: Option<seq<Stroke>>)
    ensures r.Some? ==> SectionHead <= s
  {
    if |s| < |SectionHead| + |End| || s[..|SectionHead|] != SectionHead || s[|s| - |End|..] != End then None
    else
      var parts := Split(s[|SectionHead|..|s| - |End|], Sep);
      if parts[|parts| - 1] != "" then None else ReadSpans(parts[..|parts| - 1])
  }

  /** One span's instructions read back as its stroke, whatever follows. */
  lemma ReadSpanFields(v: Variant, c: WebCut, span: seq<Vec2>, rest: seq<string>)
    requires |span| >= 1 && ReadSpans(rest).Some?
    ensures ReadSpans(SpanFields(v, c, span) + rest) == Some([SpanStroke(c, span)] + ReadSpans(rest).value)
  {
    var f := SpanFields(v, c, span);
    var fields := f + rest;
    AppendSlices(f, rest);
    assert fields[..7] == f;
    var ps := InDots(span);
    ReadStrokeBack(c.power, c.speed, c.frequency, FrequencyWidth(v), "LTPU", ps);
    assert fields[0] == f[0] && fields[1] == f[1] && fields[2] == f[2] && fields[3] == f[3];
    assert fields[4] == f[4] && fields[5] == f[5] && fields[6] == f[6];
  }

  lemma {:induction false} ReadSpansPrefix(v: Variant, c: WebCut, spans: seq<seq<Vec2>>, rest: seq<string>)
    requires forall k :: 0 <= k < |spans| ==> |spans[k]| >= 1
    requires ReadSpans(rest).Some?
    ensures ReadSpans(SpansFields(v, c, spans) + rest) == Some(SpanStrokes(c, spans) + ReadSpans(rest).value)
    decreases |spans|
  {
    if spans == [] {
      assert SpansFields(v, c, spans) + rest == rest;
      assert SpanStrokes(c, spans) + ReadSpans(rest).value == ReadSpans(rest).value;
    } else {
      ReadSpansPrefix(v, c, spans[1..], rest);
      ReadSpansStep(v, c, spans, rest);
    }
  }

  /** The first span's instructions before the others' read as one more
      stroke. */
  lemma ReadSpansStep(v: Variant, c: WebCut, spans: seq<seq<Vec2>>, rest: seq<string>)
    requires spans != [] && forall k :: 0 <= k < |spans| ==> |spans[k]| >= 1
    requires ReadSpans(rest).Some?
    requires ReadSpans(SpansFields(v, c, spans[1..]) + rest) == Some(SpanStrokes(c, spans[1..]) + ReadSpans(rest).value)
    ensures ReadSpans(SpansFields(v, c, spans) + rest) == Some(SpanStrokes(c, spans) + ReadSpans(rest).value)
  {
    var head, tail := SpanFields(v, c, spans[0]), SpansFields(v, c, spans[1..]);
    ReadSpanFields(v, c, spans[0], tail + rest);
    Assoc(head, tail, rest);
    Assoc([SpanStroke(c, spans[0])], SpanStrokes(c, spans[1..]), ReadSpans(rest).value);
  }

  /** The instructions of all the cuts read back as all their spans. */
  lemma {:induction false} ReadAllFields(v: Variant, cuts: seq<WebCut>)
    ensures ReadSpans(AllFields(v, cuts)) == Some(AllStrokes(cuts))
    decreases |cuts|
  {
    if cuts != [] {
      ReadAllFields(v, cuts[1..]);
      ReadSpansPrefix(v, cuts[0], Sections(cuts[0]), AllFields(v, cuts[1..]));
    }
  }

  /** Instructions each followed by `;` are the instructions and one empty
      piece, joined with `;`. */
  lemma {:induction false} TerminatedIsJoin(parts: seq<string>)
    ensures Terminated(parts) == Join(parts + [""], Sep)
    decreases |parts|
  {
    if parts != [] {
      TerminatedIsJoin(parts[1..]);
      assert (parts + [""])[1..] == parts[1..] + [""];
    }
  }

  /** Splitting instructions that each end with `;` gives them back, then
      an empty piece. */
  lemma SplitTerminated(parts: seq<string>)
    requires Free(parts, Sep)
    ensures Split(Terminated(parts), Sep) == parts + [""]
  {
    TerminatedIsJoin(parts);
    assert Free(parts + [""], Sep) by {
      forall k | 0 <= k < |parts + [""]|
        ensures Sep !in (parts + [""])[k]
      {
        if k < |parts| {
          assert (parts + [""])[k] == parts[k];
        }
      }
    }
    SplitJoin(parts + [""], Sep);
  }

  lemma FreeConcat(a: seq<string>, b: seq<string>)
    requires Free(a, Sep) && Free(b, Sep)
    ensures Free(a + b, Sep)
  {
    forall k | 0 <= k < |a + b|
      ensures Sep !in (a + b)[k]
    {
      if k >= |a| {
        assert (a + b)[k] == b[k - |a|];
      } else {
        assert (a + b)[k] == a[k];
      }
    }
  }

  /** No instruction of a span holds `;`. */
  lemma SpanFieldsFree(v: Variant, c: WebCut, span: seq<Vec2>)
    requires |span| >= 1
    ensures Free(SpanFields(v, c, span), Sep)
  {
    var f := SpanFields(v, c, span);
    var ps := InDots(span);
    Epilog.PaddedFree("YP", c.power, 3);
    Epilog.PaddedFree("ZS", c.speed, 3);
    Epilog.PaddedFree("XR", c.frequency, FrequencyWidth(v));
    Epilog.PointFree("LTPU", ps[0]);
    Epilog.PointsFree("PD", ps[1..]);
    assert Sep !in f[3] && Sep !in f[4];
    Epilog.SevenFree(f);
  }

  lemma {:induction false} SpansFieldsFree(v: Variant, c: WebCut, spans: seq<seq<Vec2>>)
    requires forall k :: 0 <= k < |spans| ==> |spans[k]| >= 1
    ensures Free(SpansFields(v, c, spans), Sep)
    decreases |spans|
  {
    if spans != [] {
      SpansFieldsFree(v, c, spans[1..]);
      SpanFieldsFree(v, c, spans[0]);
      FreeConcat(SpanFields(v, c, spans[0]), SpansFields(v, c, spans[1..]));
    }
  }

  lemma {:induction false} AllFieldsFree(v: Variant, cuts: seq<WebCut>)
    ensures Free(AllFields(v, cuts), Sep)
    decreases |cuts|
  {
    if cuts != [] {
      AllFieldsFree(v, cuts[1..]);
      SpansFieldsFree(v, cuts[0], Sections(cuts[0]));
      FreeConcat(CutFields(v, cuts[0]), AllFields(v, cuts[1..]));
    }
  }

  /** The cuts' text is all their instructions, each followed by `;`. */
  lemma {:induction false} CutsTextFields(v: Variant, cuts: seq<WebCut>)
    ensures CutsText(v, cuts) == Terminated(AllFields(v, cuts))
    decreases |cuts|
  {
    if cuts != [] {
      CutsTextFields(v, cuts[1..]);
      EmitConcat(CutFields(v, cuts[0]), AllFields(v, cuts[1..]), Terminate);
    }
  }

  /** The vector pass reads back as every span of every cut, in order:
      each with its cut's power, speed and frequency and its vertices in
      dots. */
  lemma CutSectionReadsBack(v: Variant, cuts: seq<WebCut>)
    ensures ReadCutSection(CutSection(v, cuts)) == Some(AllStrokes(cuts))
  {
    var body := CutsText(v, cuts);
    var s := CutSection(v, cuts);
    var fields := AllFields(v, cuts);
    assert s[..|SectionHead|] == SectionHead;
    assert s[|s| - |End|..] == End;
    assert s[|SectionHead|..|s| - |End|] == body;
    CutsTextFields(v, cuts);
    AllFieldsFree(v, cuts);
    SplitTerminated(fields);
    assert (fields + [""])[..|fields|] == fields;
    ReadAllFields(v, cuts);
  }

  /** The vector pass of the stream reads back as what its cuts tell the
      printer. */
  lemma CuttingReadsBack(v: Variant, d: Document<WebCut, Raster>)
    requires EnableCut(d)
    ensures ReadCutSection(Cutting(v, d)) == Some(AllStrokes(d.cuts))
  {
    CutSectionReadsBack(v, d.cuts);
  }

  /** The spans in dots. */
  function ScaledSpans(spans: seq<seq<Vec2>>): (r: seq<seq<Vec2>>)
    ensures |r| == |spans| && forall k :: 0 <= k < |spans| ==> r[k] == Scaled(spans[k])
  {
    seq(|spans|, k requires 0 <= k < |spans| => Scaled(spans[k]))
  }

  lemma ScaledAppend(a: seq<Vec2>, b: seq<Vec2>)
    ensures Scaled(a + b) == Scaled(a) + Scaled(b)
  {
  }

  /** Scaling the spans, then drawing them one after another, is drawing
      them and then scaling. */
  lemma {:induction false} StitchScaled(spans: seq<seq<Vec2>>)
    requires forall k :: 0 <= k < |spans| ==> |spans[k]| >= 1
    ensures Stitch(ScaledSpans(spans)) == Scaled(Stitch(spans))
    decreases |spans|
  {
    if |spans| >= 2 {
      var scaled := ScaledSpans(spans);
      StitchScaled(spans[1..]);
      assert scaled[1..] == ScaledSpans(spans[1..]);
      var n := |spans[0]| - 1;
      assert scaled[0][..n] == Scaled(spans[0][..n]);
      ScaledAppend(spans[0][..n], Stitch(spans[1..]));
    }
  }

  /** What the printer is told for a cut: spans of at most 100 vertices,
      each with the cut's settings, which drawn one after the other pass
      through exactly the cut's vertices in dots. */
  lemma CutDrawsItsPath(c: WebCut)
    ensures var strokes := CutStrokes(c);
      && (forall k :: 0 <= k < |strokes| ==>
            && strokes[k].power == c.power && strokes[k].speed == c.speed
            && strokes[k].frequency == c.frequency
            && 1 <= |strokes[k].points| <= SectionPoints)
      && Stitch(Epilog.PointsOf(strokes)) == InDots(c.path.vertices)
  {
    var spans := Sections(c);
    var settings := Cut(c.speed, c.power, c.frequency, []);
    var scaled := ScaledSpans(spans);
    assert CutStrokes(c) == Epilog.StrokesOf(settings, scaled);
    Epilog.StitchStrokes(settings, scaled);
    StitchScaled(spans);
    StitchSpans(c.path.vertices, SectionPoints);
  }
}
