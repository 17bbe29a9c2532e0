# lathser core in Dafny

lathser turns a 3D model into jobs for an Epilog laser cutter. It renders
the model's silhouette to a pixel image and traces the silhouette's outline
into paths. Those paths are simplified with Ramer–Douglas–Peucker and cut
into spans. Finally they are encoded as a PRN stream: a PJL header, PCL
settings, optional raster rows and HPGL vector commands. The pipeline
exists twice, once in Python (`outline.py`, `epilog.py`, `cut.py`,
`document.py`, `vector.py`) and once in JavaScript for the browser
(`web/outliner.js`, `web/epilog.js`, `web/Document.js`, `web/Path.js`,
`web/Vector2.js`, `web/Transform.js`, `web/BoundingBox2D.js`).

This project models that core as pure Dafny functions and a few methods,
over unbounded integers and exact reals.

- **Geometry kernel** (`Vectors`, `BoundingBoxes`, `Transforms`, `Paths`).
  Vectors, boxes, affine scale-and-offset transforms and vertex paths.
- **Contour tracer** (`Contours`).
  - Edge generation between differing neighbour pixels.
  - The vertex-to-edges map.
  - The edge-walking loop that strings edges into paths, reversing a path
    once to continue from its other end.
  - The Python tracer over a generic pixel type; the web tracer over RGBA
    pixels with alpha ignored.
  - The web edge object's `equals`/`hashCode`.
- **Base** (`Bases`). `get_base_height` and `add_base` over a grid of grey
  levels.
- **Simplification** (`Simplification`, `Distances`). `simplify_vertices`,
  generic over the vertex type and over the deviation measure. `Distances`
  says which measure the source picks, and when.
- **Span chunking** (`Spans`). `Cut.getSpans`: spans of at most
  `maxPoints` points that overlap by one point.
- **Documents** (`Documents`). One datatype for both `Document` classes,
  with the constants of each.
- **Encoders** (`Epilog`, `WebEpilog`, `WebRaster`).
  - `epilog.py`'s `generate_prn`/`generate_cut`.
  - `web/epilog.js`'s `generatePrn`/`generateRaster`/`generateCut`.
  - The web module's `FUSION` switch becomes a `Variant` parameter, so
    both printers (Fusion and Helix) are modelled side by side.
  - The raster rows' horizontal position is a `Placement` parameter.
    `AsWritten` sends `yPixels` as `POS_X`, as `web/epilog.js` does.
    `LeftEdge` sends the evidently intended `xPixels` (see "## Findings").
    Every raster and stream lemma is proved for both.
- **Supporting text layers** (`Decimal`, `Text`, `Pcl`, `PclStream`, `Hpgl`,
  `Bits`).
  - `%d` and `%0Nd` formatting.
  - Joining and splitting.
  - PCL escape commands and a lexer for a stream of them with binary
    payloads.
  - HPGL instruction fields.
  - Bit packing.
  - Each writer comes with a reader, and the reader is proved to give back
    what was written.

Every encoder is paired with a reader. The lemmas prove that the page
set-up reads back as the settings it was written from, and that the cut
text reads back as strokes. Those strokes carry each cut's power, speed and
frequency, and drawn in order they pass through exactly the cut's points in
printer dots. The raster text reads back as rows whose bytes unpack to
which pixels burn. Output streams are `string`s; the ESC character is
`'\U{1B}'`.

Things the programs call but that are not modelled:

- I/O (`out.write`, `flush`) becomes string concatenation.
- Logging and `print` are dropped.
- Rendering of the 3D model, PIL and the canvas are replaced by a pixel
  grid given as input.
- `sprintf.js` is not part of this model. It is assumed to format `%d` like
  Python does, and to format a boolean as 0 or 1.

## Model

| member | source | states |
|---|---|---|
| Vectors.Negated | web/Vector2.js:15-17 | the negation is the additive inverse: adding it gives the zero vector |
| Vectors.Minus | web/Vector2.js:23-25 | subtraction undoes addition: `minus(a, b) + b == a` |
| Vectors.DividedBy | web/Vector2.js:31-33 | for a non-zero divisor, multiplying the quotient back gives the vector |
| Vectors.Reciprocal | vector.py:54-56 | the 90° rotation is perpendicular to the vector, as long, and counter-clockwise (the cross product of the vector and the result is its squared length) |
| Vectors.FlipX | vector.py:62-63 | mirrors x and keeps y |
| Vectors.FlipY | vector.py:65-66 | mirrors y and keeps x |
| Vectors.FlipsAreInvolutions | vector.py:62-66 | flipping twice on the same axis is the identity |
| Vectors.Min | web/Vector2.js:48-53 | each component is a lower bound of both inputs and is one of them |
| Vectors.Max | web/Vector2.js:55-60 | each component is an upper bound of both inputs and is one of them |
| Vectors.Equals | web/Vector2.js:76-78 | component-wise equality is value equality, both directions |
| Vectors.EqualsImpliesEqualHash | web/Vector2.js:66-78 | equal vectors have the same Effective-Java hash, so hash tables keyed by vertices work |
| Vectors.PlusMinusCancel | web/Vector2.js:19-25 | adding then subtracting the same vector gives the start back |
| Vectors.TimesDividedByCancel | web/Vector2.js:27-33 | multiplying then dividing by the same non-zero factor gives the start back |
| Vectors.ReciprocalTwiceIsNegated | web/Vector2.js:62-64 | two quarter turns are a half turn |
| Vectors.Cross | vector.py:105-110 | the cross product is orthogonal to both factors |
| Vectors.CrossAntiCommutative | vector.py:105-110 | swapping the factors negates the cross product |
| Vectors.Min3 | vector.py:111-113 | component-wise lower bound that is attained, in 3D |
| Vectors.Max3 | vector.py:115-117 | component-wise upper bound that is attained, in 3D |
| BoundingBoxes.Fresh | web/BoundingBox2D.js:6-9 | a new box is inverted on both axes (min above max), so it contains nothing |
| BoundingBoxes.AddPoint | web/BoundingBox2D.js:11-14 | the result contains the point, encloses the old box, and is the smallest such box |
| BoundingBoxes.FreshThenAddPoint | web/BoundingBox2D.js:6-14 | adding one representable point to a fresh box gives the degenerate box at that point |
| BoundingBoxes.Size | web/BoundingBox2D.js:29-31 | min plus size is max |
| BoundingBoxes.Center | web/BoundingBox2D.js:33-35 | the centre is the midpoint of min and max |
| BoundingBoxes.AddMargin | web/BoundingBox2D.js:22-27 | the size grows by twice the margin on each axis and the centre stays |
| Transforms.Invert | web/Transform.js:24-30 | for a non-zero scale the result undoes the transform on every point, in both orders |
| Transforms.InvertInvolution | outline.py:217-222 | inverting twice gives the original transform |
| Transforms.Scaled | web/Transform.js:33-35 | the new transform maps every point to the old image times the factor |
| Transforms.Translated | web/Transform.js:38-40 | the new transform maps every point to the old image plus the offset |
| Transforms.MakeIdentity | web/Transform.js:61-63 | maps every point to itself |
| Transforms.MakeMapFits | web/Transform.js:43-58 | the box scaled by the map fits inside width × height, and touches one pair of sides |
| Transforms.MakeMapCentersBox | web/Transform.js:43-58 | the box's centre lands at the centre of the target area |
| Paths.NewPath | web/Path.js:6-8 | a new path is empty |
| Paths.AddVertex | web/Path.js:10-12 | the length grows by one, the new vertex is the last one, and the earlier vertices stay |
| Paths.GetLastVertex | web/Path.js:26-32 | `null` exactly for an empty path, otherwise the final vertex |
| Paths.Reverse | web/Path.js:15-23 | the in-place swap loop leaves vertex i where vertex len-1-i was |
| Paths.ReverseTwice | web/Path.js:15-23 | reversing twice restores the path |
| Paths.ReversedMultiset | web/Path.js:15-23 | reversal is a permutation of the vertices |
| Paths.LastAfterReverse | outline.py:496-497 | after reversing, the last vertex is the former first one, where the walk continues |
| Documents.NewDocument | document.py:5-8 | a new document has the title, no cuts and no rasters, so neither pass is enabled |
| Documents.AddCut | document.py:11-12 | the cut goes at the end, the rasters and title stay, and cutting becomes enabled |
| Documents.AddRaster | web/Document.js:18-20 | the raster goes at the end, the cuts and title stay, and engraving becomes enabled |
| Documents.AddsCommute | web/Document.js:13-20 | adding a cut and a raster in either order gives the same document |
| Documents.AddCutsInOrder | document.py:10-12 | adding cuts one by one keeps them in the order added, after the earlier ones |
| Bases.GetBaseHeight | outline.py:376-385 | fails exactly when every pixel is 0; otherwise it returns the number of all-zero rows at the bottom, with a lit row above them |
| Bases.BaseHeightUnique | outline.py:376-385 | the base height is determined by the image |
| Bases.WhitenBottom | outline.py:392-394 | the bottom b rows become white, and every other pixel is unchanged |
| Bases.AddBase | outline.py:388-394 | fails exactly when `get_base_height` does; otherwise it whitens exactly the empty rows below the object |
| Bases.AddBaseLeavesNoGap | outline.py:388-394 | after adding the base no blank row remains at the bottom |
| Contours.GenerateEdges | outline.py:457-466 | the edges are exactly the unit edges between differing neighbours, with no duplicates; the list is empty exactly when there is no transition |
| Contours.EdgeEmittedIff | outline.py:463-466 | a vertical (horizontal) edge is emitted iff the pixel differs from its right (lower) neighbour |
| Contours.EmptyIffNoTransition | outline.py:457-466 | no edges iff no two neighbours differ |
| Contours.EdgeMap | outline.py:471-474 | every edge is listed under both of its endpoints, and only under vertices it touches |
| Contours.ReverseJoins | outline.py:496-497 | reversing a path and its edge steps keeps consecutive vertices joined by their edges |
| Contours.Walk | outline.py:479-513 | the walk produces at least one path; consecutive vertices are joined by edges; every edge is used exactly once |
| Contours.WalkTracesBoundary | outline.py:479-513 | the walked paths together cross every boundary edge exactly once, and nothing else |
| Contours.GetOutlines | outline.py:451-516 | fails (`edges[0]` on an empty list) iff the image has no transition; otherwise the paths trace its boundary |
| Contours.FindOutlines | web/outliner.js:40-176 | returns `[]` iff the RGB image has no transition; otherwise a `Paths` object whose paths trace the boundary |
| Contours.WebEdgeIff | web/outliner.js:52-76 | an edge separates two pixels iff their red, green or blue bytes differ; alpha is ignored |
| Contours.EdgeEquals | web/outliner.js:25-28 | edges are equal iff their endpoints are, whatever the `used` flags |
| Contours.EdgeHashRespectsEquals | web/outliner.js:15-28 | equal edges hash equally, and neither equality nor hash depends on `used` |
| Simplification.FindFarthest | outline.py:529-542 | the distance is non-negative; index 0 means no interior vertex is farther than 0; otherwise it names an interior vertex of greatest deviation, and every interior vertex before it deviates strictly less (the first such vertex) |
| Simplification.Simplify | outline.py:526-554 | keeps the first and last vertices, never adds vertices, and gives two copies of a lone vertex |
| Simplification.SimplifyWithin | outline.py:544-554 | the result is a subsequence of the input, and every dropped vertex deviates at most epsilon from the kept chord around it |
| Simplification.OnlyEndsIff | outline.py:544-554 | only the ends are kept iff no interior vertex deviates more than epsilon |
| Simplification.SimplifyVertices | outline.py:526-554 | fails (IndexError) exactly on an empty list; otherwise keeps the ends and every dropped vertex is within tolerance |
| Distances.LineDistanceOnlyOffDegenerate | outline.py:536-539 | the line distance is consulted only when the chord's ends differ, so its value on a degenerate chord never matters |
| Distances.MeasureNonNegative | outline.py:519-539 | with non-negative length and line distance, every deviation is non-negative |
| Distances.ClosedWithinCollapses | outline.py:536-537 | a closed path whose vertices all lie within epsilon of its start collapses to its two ends |
| Spans.GetSpans | cut.py:21-31 | spans are non-empty and hold at most maxPoints points; consecutive spans share a point; all but the last are full |
| Spans.SpanCount | cut.py:21-31 | for n points the number of spans c is the least with n <= c·(maxPoints-1), that is ceil(n / (maxPoints-1)) |
| Spans.StitchSpans | cut.py:21-31 | dropping each later span's shared first point and concatenating gives back all the points |
| Spans.SingleSpan | cut.py:25-29 | fewer points than maxPoints give one span |
| Spans.TwoHundredFifty | cut.py:25-29 | 250 points at 100 per span give spans of 100, 100 and 52 points |
| Spans.ExactlyOneSpanFull | cut.py:25-29 | exactly 100 points give a full span and then the last point alone |
| Decimal.ParseFormatInt | epilog.py:249 | `%d` text parses back to the integer |
| Decimal.ParseFormatPadded | epilog.py:109-115 | `%0Nd` text parses back to the integer |
| Decimal.FormatIntInjective | epilog.py:249 | different integers give different `%d` text |
| Decimal.Trunc | epilog.py:249 | `%d` of a real truncates toward zero |
| Text.SplitJoin | epilog.py:255 | splitting a joined list gives the list back, when no part holds the separator |
| Text.JoinSplit | epilog.py:255 | joining the split pieces gives the text back |
| Pcl.ParseRender | web/epilog.js:205-252 | a rendered well-formed PCL command parses back to itself, whatever follows |
| Pcl.ParseRenderAll | web/epilog.js:205-252 | a rendered command list parses back to the list |
| Pcl.ParseAllSound | epilog.py:158-203 | whatever parses is well formed, and renders back to exactly the parsed text |
| Pcl.ParseCommandSound | epilog.py:158-203 | a parsed command is well formed and renders as the prefix it was read from |
| Pcl.CanonicalDigits | epilog.py:158-203 | digit text without a leading zero is the `%d` text of its value |
| PclStream.LexUnits | web/epilog.js:357-366 | a stream of commands, commands with binary payloads and raster ends lexes back to the units |
| PclStream.LexSound | web/epilog.js:357-366 | whatever lexes concatenates back to the text |
| Hpgl.ReadPointsBack | epilog.py:255 | the comma-joined `%d,%d` points read back as the points |
| Hpgl.ReadStrokeBack | epilog.py:239-256 | power, speed, frequency, pen-up and pen-down fields read back as the stroke |
| Bits.UnpackPack | web/epilog.js:334-346 | unpacking a packed byte gives back its bits, most significant first |
| Bits.PackUnpack | web/epilog.js:334-346 | packing the unpacked bits of a number below 2^n gives the number |
| Bits.ByteSumIsPack | web/epilog.js:334-345 | the loop's running sum, weights 128 down to 1, is the packed byte |
| WebRaster.RowBytes | web/epilog.js:315-347 | one byte per eight pixels, rounded up, each byte below 256 |
| WebRaster.PackRow | web/epilog.js:330-347 | the nested packing loop computes the reference byte row |
| WebRaster.UnpackRowBytes | web/epilog.js:330-347 | unpacking the row's bytes gives back exactly which pixels burn (red above 128) |
| WebRaster.RowPayload | web/epilog.js:349-355 | the payload is a length byte, the bytes, and 0x80 fillers up to a multiple of eight |
| WebRaster.BuildPayload | web/epilog.js:349-355 | the prepend-and-pad loop builds that payload |
| WebRaster.ReadPayloadBack | web/epilog.js:349-355 | the payload reads back as the row's bytes |
| WebRaster.ReadPayloadSound | web/epilog.js:349-355 | whatever reads as a payload is the payload of what it read |
| WebRaster.Unpacked | web/epilog.js:317-362 | the unpacked count is the stride, negated exactly on odd rows of a non-empty row |
| WebRaster.RowCommands | web/epilog.js:322-358 | four well-formed commands: row line, horizontal position, unpacked count, payload length |
| WebRaster.PosX | web/epilog.js:310-325 | as written, `POS_X` is the top edge `yPixels`; corrected, it is the left edge `xPixels` |
| WebRaster.RowCommandsAsWritten | web/epilog.js:322-326 | as written, the second command is `POS_X` of `yPixels`, and the other three are those of the corrected row |
| WebRaster.RowStartsAtLeftEdge | web/epilog.js:311-325 | corrected, each row's `POS_X` is the raster's left edge in dots, independent of its vertical position |
| WebRaster.PositionAsWrittenIsWrong | web/epilog.js:325 | as written, a raster at the left edge one inch down is sent 600 dots right |
| WebRaster.Records | web/epilog.js:320-363 | one record per image row, holding the row's line, its `POS_X` (the top edge `yPixels` as written, the left edge corrected), the signed count and the bytes |
| WebRaster.ReadRasterBack | web/epilog.js:295-367 | a raster's units, as written or corrected, read back as its row records, consuming exactly them |
| WebRaster.RastersReadBack | web/epilog.js:255-259 | the text of all rasters, as written or corrected, lexes and reads back as every raster's row records |
| Epilog.PageSetupReadsBack | epilog.py:158-203 | the page set-up text parses back to the commands, and they read back as the settings |
| Epilog.ReadSettings | epilog.py:158-203 | whatever settings are read, writing them gives exactly the commands read |
| Epilog.DocumentPageSetup | epilog.py:142-203 | for document.py: autofocus and centring off, air assist on, 600 dpi, raster air assist 2, bed 10800 × 14400 |
| Epilog.GenerateCutFields | epilog.py:223-259 | a cut's text is its spans' seven fields each, joined with `;`; it is empty iff the cut has no points |
| Epilog.ReadGeneratedCut | epilog.py:223-259 | the text of a cut reads back as one stroke per span |
| Epilog.CutDrawsItsPoints | epilog.py:223-259 | the read strokes carry the cut's settings, hold 1 to 100 points, and stitched together are exactly the cut's points in dots |
| Epilog.Dots | epilog.py:249 | each non-negative coordinate is truncated to the dot below it |
| Epilog.Framing | epilog.py:141-221 | the stream starts with the PJL header and ends with the trailer |
| Epilog.AddCutAppendsText | epilog.py:209-211 | adding a cut adds its text just before the trailer |
| Epilog.RastersIgnored | epilog.py:205-207 | rasters do not change the stream; engraving is not implemented |
| Epilog.VectorExample | epilog.py:223-259 | a two-point cut at power 100, speed 4, frequency 50 gives the expected HPGL text |
| WebEpilog.SetupParses | web/epilog.js:186-252 | each printer's set-up text parses back to its commands |
| WebEpilog.ReadSetup | web/epilog.js:186-252 | whatever variant and settings are read, writing them gives exactly the commands read |
| WebEpilog.SetupReadsBack | web/epilog.js:186-252 | the set-up reads back as the variant and the settings, except the Fusion's unwritten centring flag |
| WebEpilog.FusionIgnoresCentre | web/epilog.js:186-201 | the Fusion set-up does not depend on centre engraving |
| WebEpilog.DocumentSetup | web/epilog.js:180-249 | for web/Document.js: raster air assist 2, bed 12000 × 19200 dots, and on the Helix air assist 1 and centring 0 |
| WebEpilog.SpanFields | web/epilog.js:371-397 | a section is seven `;`-terminated fields |
| WebEpilog.ReadSpans | web/epilog.js:371-397 | a read consumes seven fields per stroke, and every stroke has a point |
| WebEpilog.CutSectionReadsBack | web/epilog.js:262-274 | the vector section of any cuts reads back as the strokes of all cuts in order, on both printers |
| WebEpilog.CuttingReadsBack | web/epilog.js:262-274 | with cuts present, the vector pass of the document reads back as their strokes |
| WebEpilog.CutDrawsItsPath | web/epilog.js:369-398 | a cut's strokes carry its settings, hold 1 to 100 vertices, and stitched are its vertices times 600 in dots |
| WebEpilog.CutsTextAppend | web/epilog.js:268-270 | one more cut appends exactly its text |
| WebEpilog.AddCutAppendsText | web/Document.js:13-15 | adding a cut to the document adds its text at the end of the vector section |
| WebEpilog.RasterSettingsIgnored | web/epilog.js:295-367 | a raster's speed and power do not change its text |
| WebEpilog.EngravingReadsBack | web/epilog.js:255-259 | with rasters present, the raster pass reads back as all their row records, for the stream as written (`POS_X` = `yPixels`) and as corrected |
| WebEpilog.Framing | web/epilog.js:171-293 | the stream starts with the PJL header and ends with the variant's trailer |
| WebEpilog.Trailers | web/epilog.js:276-292 | the Helix trailer is `epilog.py`'s, and the Fusion one differs from it |

## Left out

- The 3D side (STL loading, `Triangle3D`, rendering by rotation, Three.js) is left out. The tracer starts from a pixel grid given as input.
- PIL, the canvas, file output, `flush`, logging and `print` are left out as I/O. Output is the returned string.
- `sprintf.js` is not part of this model. `%d` is assumed to format like Python, and `%d` of a boolean is assumed to give 0 or 1.
- `Vector2.length`, `normalized` and `distance_to_line` involve a square root. The model keeps the two measures as function parameters (`Distances`) and never computes them.
- Floating-point rounding, infinities and NaN are left out. Coordinates are exact reals.
- Transforms.Invert: requires a non-zero scale. For scale 0, Python raises ZeroDivisionError and JavaScript produces infinities; neither is modelled.
- Vectors.DividedBy: requires a non-zero divisor, for the same reason.
- Transforms.MakeMapFits: proved only for a box of positive size and a positive target area. Division by a zero size is not modelled.
- BoundingBoxes.FreshThenAddPoint: requires the point to lie within ±`Number.MAX_VALUE`. Beyond that, the source's floats are not reals.
- Simplification.SimplifyVertices: requires a non-negative epsilon, and so do `Simplify` and `SimplifyWithin`. With a negative epsilon, outline.py:545-548 finds `0 > epsilon` for every list, splits at index 0, and recurses forever on the one-vertex first half. Both call sites pass 1 (outline.py:614, 645).
- Spans.GetSpans: requires `maxPoints >= 2` for non-empty input. With fewer, `points[maxPoints - 1:]` never shrinks the list and the source loops forever.
- WebRaster.Printable: limits a raster's width so the length character is a valid character. `String.fromCharCode` of a surrogate code is not a Dafny `char`.
- `web/Path.js` has no `breakIntoSections`, although `web/epilog.js` calls it. It is modelled by `cut.py`'s span chunker (`Spans.GetSpans`).
- `Document.addPaths` calls `addPath`, which is commented out. The web `Paths` container (`web/Paths.js`) is a plain list of `Path`s here.
- `eachCut` and `eachRaster` are modelled as in-order iteration (`Text.Emit`).
- `raster.py` and the raster encoding of `epilog.py` are not modelled. `generate_prn` writes nothing for rasters ("Not implemented").
- No reader for a whole PRN stream is modelled. The set-up, the vector section and the raster section are each read back separately, and `Framing` places them between the header and the trailer.
- Epilog.Dots: states the truncation bounds only for non-negative coordinates. Negative coordinates truncate toward zero too (`Decimal.Trunc`), but that is not restated per point.
- WebEpilog.SetupReadsBack: requires centring off on the Fusion, because its set-up does not write the flag (`FusionIgnoresCentre`).
- The iOS app, the Bluetooth code and the laser detector firmware are outside the core.

## Findings

| source | as written | input that shows it | evidently intended | confidence | as-written member | corrected member |
|---|---|---|---|---|---|---|
| web/epilog.js:325 | every raster row's `POS_X` is `yPixels`, the raster's top edge; `xPixels` is computed at line 311 and never used | a raster at x = 0 in, y = 1 in: rows are sent to x = 600 dots | `POS_X` is `xPixels`, the raster's left edge | not executed | WebRaster.RowCommandsAsWritten (shown by WebRaster.PositionAsWrittenIsWrong) | WebRaster.RowCommands with `LeftEdge` (proved by WebRaster.RowStartsAtLeftEdge) |

The whole raster stream is modelled both ways (`WebRaster.Placement`).
`GenerateRaster(AsWritten, r)` and `WebEpilog.GeneratePrn(v, AsWritten, d)`
are the functions as written, and `Records(AsWritten, r)` records
`yPixels` as each row's `POS_X`. The round trips `ReadRasterBack`,
`RastersReadBack` and `EngravingReadsBack` hold for either placement.
