/** The raster (engraving) part of the PRN stream web/epilog.js writes: for
    each row of a canvas image, the cursor position, the row's byte counts
    and the row's pixels bit-packed most significant first, each row sent as
    one literal run of the TIFF PackBits scheme (section 9 of the TIFF 6.0
    specification, chosen by raster compression mode 2) padded with 0x80
    no-op bytes to a multiple of eight. A reader for rows and rasters is the
    partner of the writer, and unpacking a row gives back which pixels
    burn. */
module WebRaster {
  import opened Results
  import opened Text
  import opened Pcl
  import opened PclStream
  import opened Images
  import opened Bits

  /** `Raster` of web/Raster.js: canvas pixels and the upper-left corner in
      inches. The speed and power are carried but the encoder ignores them. */
  datatype Raster = Raster(image: Grid<Rgba>, x: real, y: real, speed: int, power: int)

  /** Printer dots per inch (`DPI`). */
  const Dpi: int := 600

  /** `Math.floor(raster.x*DPI)`: the left edge in printer dots. */
  function XPixels(r: Raster): int {
    (r.x * Dpi as real).Floor
  }

  /** `Math.floor(raster.y*DPI)`: the top edge in printer dots. */
  function YPixels(r: Raster): int {
    (r.y * Dpi as real).Floor
  }

  /** Bytes per packed row, `Math.floor((width + 7) / 8)`: just enough bytes
      for one bit per pixel. */
  function Stride(width: nat): (s: nat)
    ensures width <= 8 * s < width + 8
  {
    (width + 7) / 8
  }

  /** Only the red channel is looked at: a pixel burns when it is above 128. */
  predicate Burns(p: Rgba) {
    p.r > 128
  }

  /** The eight bits of byte k of a row: bit j is column 8k + j, unset past
      the row's end. */
  function ByteBits(row: seq<Rgba>, k: nat): (bits: seq<bool>)
    ensures |bits| == 8
  {
    seq(8, j requires 0 <= j < 8 => 8 * k + j < |row| && Burns(row[8 * k + j]))
  }

  /** The packed row, byte by byte: the reference the packing loop is held
      to. */
  function RowBytes(row: seq<Rgba>): (bytes: seq<int>)
    ensures |bytes| == Stride(|row|)
    ensures forall k :: 0 <= k < |bytes| ==> 0 <= bytes[k] < 256
  {
    seq(Stride(|row|), k requires 0 <= k < Stride(|row|) => Pack(ByteBits(row, k), 8))
  }

  /** The inner loops of `generateRaster` for one row: for each byte, a bit
      that starts at 128 and halves per column, or-ed in for every burning
      pixel. Or-ing a bit that is not yet set adds it, which is how it is
      written here. */
  method PackRow(row: seq<Rgba>) returns (bytes: seq<int>)
    ensures bytes == RowBytes(row)
  {
    var stride := (|row| + 7) / 8;
    bytes := [];
    for byteIndex := 0 to stride
      invariant |bytes| == byteIndex
      invariant forall k :: 0 <= k < byteIndex ==> bytes[k] == Pack(ByteBits(row, k), 8)
    {
      var ch := PackByte(row, byteIndex);
      bytes := bytes + [ch];
    }
  }

  /** One byte of the row: columns 8k up to 8k+7 (or the row's end), the
      bit halving per column. */
  method PackByte(row: seq<Rgba>, byteIndex: nat) returns (ch: int)
    requires byteIndex < Stride(|row|)
    ensures ch == Pack(ByteBits(row, byteIndex), 8)
  {
    var width := |row|;
    var beginColumn := byteIndex * 8;
    var endColumn := if (byteIndex + 1) * 8 < width then (byteIndex + 1) * 8 else width;
    var bit := 128;
    ch := 0;
    ghost var bits := ByteBits(row, byteIndex);
    for column := beginColumn to endColumn
      invariant bit == Weight(column - beginColumn)
      invariant ch == WeightedSum(bits, column - beginColumn)
    {
      assert bits[column - beginColumn] == Burns(row[column]);
      if row[column].r > 128 {
        ch := ch + bit;
      }
      bit := bit / 2;
    }
    SumUnset(bits, endColumn - beginColumn, 8);
    ByteSumIsPack(bits);
  }

  /** Which pixels of a width-pixel row the packed bytes say burn. */
  function UnpackRow(bytes: seq<int>, width: nat): (burns: seq<bool>)
    requires Stride(width) <= |bytes|
    requires forall k :: 0 <= k < |bytes| ==> 0 <= bytes[k]
    ensures |burns| == width
  {
    seq(width, c requires 0 <= c < width => Unpack(bytes[c / 8], 8)[c % 8])
  }

  /** Packing keeps exactly which pixels burn: unpacking the packed row
      gives, column by column, whether the pixel's red is above 128. */
  lemma UnpackRowBytes(row: seq<Rgba>)
    ensures UnpackRow(RowBytes(row), |row|) == seq(|row|, c requires 0 <= c < |row| => Burns(row[c]))
  {
    var bytes := RowBytes(row);
    forall c | 0 <= c < |row|
      ensures Unpack(bytes[c / 8], 8)[c % 8] == Burns(row[c])
    {
      UnpackByte(row, c / 8);
    }
  }

  /** The bits of a packed byte past the row's end are unset. */
  lemma PaddingBitsUnset(row: seq<Rgba>, k: nat, j: nat)
    requires k < Stride(|row|) && j < 8 && |row| <= 8 * k + j
    ensures !Unpack(RowBytes(row)[k], 8)[j]
  {
    UnpackByte(row, k);
  }

  lemma UnpackByte(row: seq<Rgba>, k: nat)
    requires k < Stride(|row|)
    ensures Unpack(RowBytes(row)[k], 8) == ByteBits(row, k)
  {
    var bits := ByteBits(row, k);
    UnpackPack(bits, 8);
    assert bits[..8] == bits;
  }

  /** A UTF-16 code unit that is a Dafny character: not a surrogate half. */
  predicate IsChar(n: int) {
    0 <= n < 0xD800 || 0xE000 <= n < 0x10000
  }

  /** `String.fromCharCode(n)`: the code unit n modulo 2^16. */
  function FromCharCode(n: int): char
    requires IsChar(n % 0x10000)
  {
    (n % 0x10000) as char
  }

  /** The 0x80 byte the padding is made of: a no-op in PackBits. */
  const Filler: char := 0x80 as char

  /** Row bytes the payload can carry: bytes, and few enough that the count
      before them is a character. */
  predicate Encodable(bytes: seq<int>) {
    && |bytes| <= 0xD800
    && forall k :: 0 <= k < |bytes| ==> 0 <= bytes[k] < 256
  }

  function Chars(bytes: seq<int>): (s: string)
    requires forall k :: 0 <= k < |bytes| ==> 0 <= bytes[k] < 256
    ensures |s| == |bytes| && forall k :: 0 <= k < |bytes| ==> s[k] as int == bytes[k]
  {
    seq(|bytes|, k requires 0 <= k < |bytes| => bytes[k] as char)
  }

  /** How many filler bytes bring n up to a multiple of eight. */
  function PadCount(n: nat): (p: nat)
    ensures p < 8 && (n + p) % 8 == 0
  {
    (8 - n % 8) % 8
  }

  /** A row as sent: the PackBits count byte (bytes - 1), the bytes, then
      0x80 filler up to a multiple of eight. Its length is a multiple of
      eight between one and eight more than the row's bytes. */
  function RowPayload(bytes: seq<int>): (buf: string)
    requires Encodable(bytes)
    ensures |buf| % 8 == 0 && |bytes| + 1 <= |buf| <= |bytes| + 8
    ensures buf[0] as int == (|bytes| - 1) % 0x10000
    ensures forall k :: 0 <= k < |bytes| ==> buf[k + 1] as int == bytes[k]
    ensures forall k :: |bytes| + 1 <= k < |buf| ==> buf[k] == Filler
  {
    var literal := [FromCharCode(|bytes| - 1)] + Chars(bytes);
    literal + seq(PadCount(|literal|), _ => Filler)
  }

  /** The rest of the row loop of `generateRaster`: append each byte as a
      character, put the count first, and append filler while the length is
      not a multiple of eight. */
  method BuildPayload(bytes: seq<int>) returns (buf: string)
    requires Encodable(bytes)
    ensures buf == RowPayload(bytes)
  {
    buf := "";
    for k := 0 to |bytes|
      invariant buf == Chars(bytes[..k])
    {
      assert bytes[..k + 1] == bytes[..k] + [bytes[k]];
      buf := buf + [bytes[k] as char];
    }
    assert bytes[..|bytes|] == bytes;
    buf := [FromCharCode(|buf| - 1)] + buf;
    ghost var literal := buf;
    while |buf| % 8 != 0
      invariant |literal| <= |buf| <= |literal| + PadCount(|literal|)
      invariant buf == literal + seq(|buf| - |literal|, _ => Filler)
      decreases |literal| + PadCount(|literal|) - |buf|
    {
      PadStep(|literal|, |buf|);
      buf := buf + [Filler];
    }
    PadDone(|literal|, |buf|);
  }

  lemma PadStep(n: nat, m: nat)
    requires n <= m <= n + PadCount(n) && m % 8 != 0
    ensures m < n + PadCount(n)
  {
  }

  lemma PadDone(n: nat, m: nat)
    requires n <= m <= n + PadCount(n) && m % 8 == 0
    ensures m == n + PadCount(n)
  {
  }

  /** The characters of buf from position `from` on are all filler. */
  predicate FilledFrom(buf: string, from: nat) {
    forall k :: from <= k < |buf| ==> buf[k] == Filler
  }

  /** Reads a row payload back as the row's bytes, accepting only what
      `RowPayload` writes. */
  function ReadPayload(buf: string): (r: Option<seq<int>>)
    ensures r.Some? ==> |buf| == |r.value| + 1 + PadCount(|r.value| + 1)
  {
    if |buf| == 0 || buf[0] as int >= 0x10000 then None
    else
      var n := (buf[0] as int + 1) % 0x10000;
      if n > 0xD800 || |buf| != n + 1 + PadCount(n + 1) then None
      else
        var bytes := Codes(buf[1..n + 1]);
        if !Encodable(bytes) || !FilledFrom(buf, n + 1) then None else Some(bytes)
  }

  /** What ReadPayload accepts is the payload of the bytes it returns:
      with `ReadPayloadBack`, it accepts exactly the payloads `RowPayload`
      writes. */
  lemma ReadPayloadSound(buf: string)
    requires ReadPayload(buf).Some?
    ensures Encodable(ReadPayload(buf).value) && RowPayload(ReadPayload(buf).value) == buf
  {
    var n := (buf[0] as int + 1) % 0x10000;
    var bytes := ReadPayload(buf).value;
    assert buf[0] as int == (n - 1) % 0x10000 by {
      if n == 0 {
        assert buf[0] as int == 0xFFFF;
      }
    }
    PayloadEq(bytes, buf);
  }

  /** The code of each character. */
  function Codes(s: string): (r: seq<int>)
    ensures |r| == |s| && forall k :: 0 <= k < |s| ==> r[k] == s[k] as int
  {
    seq(|s|, k requires 0 <= k < |s| => s[k] as int)
  }

  lemma PayloadEq(bytes: seq<int>, buf: string)
    requires Encodable(bytes) && |buf| == |bytes| + 1 + PadCount(|bytes| + 1)
    requires buf[0] as int == (|bytes| - 1) % 0x10000
    requires forall k :: 0 <= k < |bytes| ==> buf[k + 1] as int == bytes[k]
    requires FilledFrom(buf, |bytes| + 1)
    ensures RowPayload(bytes) == buf
  {
    var p := RowPayload(bytes);
    forall k | 0 <= k < |buf|
      ensures p[k] == buf[k]
    {
      if k == 0 {
      } else if k <= |bytes| {
        assert p[k] as int == bytes[k - 1];
      }
    }
  }

  /** A payload reads back as the bytes it was written from. */
  lemma ReadPayloadBack(bytes: seq<int>)
    requires Encodable(bytes)
    ensures ReadPayload(RowPayload(bytes)) == Some(bytes)
  {
    var buf := RowPayload(bytes);
    var n := |bytes|;
    CountRoundTrip(n);
    assert (buf[0] as int + 1) % 0x10000 == n;
    var literal := [FromCharCode(n - 1)] + Chars(bytes);
    assert |buf| == n + 1 + PadCount(n + 1) by {
      assert |literal| == n + 1;
    }
    assert Codes(buf[1..n + 1]) == bytes by {
      forall k | 0 <= k < n
        ensures buf[1..n + 1][k] as int == bytes[k]
      {
        assert buf[1..n + 1][k] == buf[k + 1];
      }
    }
    assert FilledFrom(buf, n + 1);
  }

  /** The count byte, n - 1 wrapped to 16 bits, plus one and wrapped again,
      gives back n. */
  lemma CountRoundTrip(n: int)
    requires 0 <= n <= 0xD800
    ensures ((n - 1) % 0x10000 + 1) % 0x10000 == n
  {
    if n == 0 {
      assert (n - 1) % 0x10000 == 0xFFFF;
    }
  }

  /** Images the encoder can write: rows as wide as the image says, and
      narrow enough that every row's byte count is a character. */
  predicate Printable(r: Raster) {
    Valid(r.image) && r.image.width <= 8 * 0xD800
  }

  /** The unpacked byte count of a row: the stride, negated on odd rows,
      since the direction changes every row starting left to right. */
  function Unpacked(width: nat, row: nat): (n: int)
    ensures n == Stride(width) || n == -(Stride(width) as int)
    ensures n == Stride(width) <==> row % 2 == 0 || width == 0
  {
    var stride: int := Stride(width);
    if row % 2 == 0 then stride else -stride
  }

  /** Which horizontal position the rows are sent to. web/epilog.js gives
      `POS_X` the raster's top edge `yPixels` (`AsWritten`); the evidently
      intended value is its left edge `xPixels` (`LeftEdge`). The raster
      stream is defined, and its round trips proved, for both. */
  datatype Placement = AsWritten | LeftEdge

  /** The value of every row's `POS_X` under placement p. */
  function PosX(p: Placement, r: Raster): (x: int)
    ensures p == AsWritten ==> x == YPixels(r)
    ensures p == LeftEdge ==> x == XPixels(r)
  {
    if p == AsWritten then YPixels(r) else XPixels(r)
  }

  /** The four commands before a row's payload: the row's line (`POS_Y`),
      the horizontal position (`POS_X`), the unpacked byte count and the
      payload length. */
  function RowCommands(p: Placement, r: Raster, row: nat, payloadLength: nat): (cs: seq<Command>)
    ensures |cs| == 4 && forall k :: 0 <= k < 4 ==> WellFormed(cs[k])
  {
    [ Command("*p", YPixels(r) + row, 'Y'),
      Command("*p", PosX(p, r), 'X'),
      Command("*b", Unpacked(r.image.width, row), 'A'),
      Command("*b", payloadLength, 'W') ]
  }

  /** The commands as web/epilog.js writes them: `POS_X` is given the top
      edge `yPixels`, and the computed `xPixels` is never used; the other
      three commands are those of the corrected row. */
  function RowCommandsAsWritten(r: Raster, row: nat, payloadLength: nat): (cs: seq<Command>)
    ensures |cs| == 4
    ensures cs[1] == Command("*p", YPixels(r), 'X')
    ensures cs == RowCommands(LeftEdge, r, row, payloadLength)[1 := cs[1]]
  {
    RowCommands(AsWritten, r, row, payloadLength)
  }

  /** As written, a raster one inch down and at the left edge has its rows
      sent 600 dots to the right. */
  lemma PositionAsWrittenIsWrong()
    ensures var r := Raster(Grid(0, 0, []), 0.0, 1.0, 0, 0);
      && XPixels(r) == 0
      && RowCommandsAsWritten(r, 0, 8)[1].value == 600
  {
  }

  /** Corrected, every row starts at the raster's left edge in dots, and
      the vertical position plays no part in it. */
  lemma RowStartsAtLeftEdge(r: Raster, row: nat, payloadLength: nat, y: real)
    requires r.x >= 0.0
    ensures var x := RowCommands(LeftEdge, r, row, payloadLength)[1].value;
      && x as real <= r.x * 600.0 < x as real + 1.0
      && RowCommands(LeftEdge, r.(y := y), row, payloadLength)[1] == RowCommands(LeftEdge, r, row, payloadLength)[1]
  {
  }

  /** The payload of row `row` of the raster. */
  function RowPayloadOf(r: Raster, row: nat): string
    requires Printable(r) && row < r.image.height
  {
    RowPayload(RowBytes(r.image.rows[row]))
  }

  /** One row as sent: three position and count commands, then
      `ROW_PACKED` with the payload it announces. */
  function RowUnits(p: Placement, r: Raster, row: nat): (us: seq<Unit>)
    requires Printable(r) && row < r.image.height
    ensures |us| == 4
  {
    var payload := RowPayloadOf(r, row);
    var cs := RowCommands(p, r, row, |payload|);
    [Plain(cs[0]), Plain(cs[1]), Plain(cs[2]), WithData(cs[3], payload)]
  }

  /** The rows top to bottom, each as its four units. */
  function RowGroups(p: Placement, r: Raster): (gs: seq<seq<Unit>>)
    requires Printable(r)
    ensures |gs| == r.image.height
    ensures forall k :: 0 <= k < |gs| ==> gs[k] == RowUnits(p, r, k)
  {
    seq(r.image.height, k requires 0 <= k < r.image.height => RowUnits(p, r, k))
  }

  /** The groups one after another. */
  function Flatten(groups: seq<seq<Unit>>): seq<Unit> {
    if groups == [] then [] else groups[0] + Flatten(groups[1..])
  }

  /** `R_DIRECTION` top-down and `R_START`. */
  const RasterStart: seq<Unit> := [Plain(Command("&y", 0, 'O')), Plain(Command("*r", 1, 'A'))]

  /** `generateRaster` as units: start the raster, send each row top to
      bottom, end it (`R_END`). The raster's speed and power are not
      written. */
  function RasterUnits(p: Placement, r: Raster): seq<Unit>
    requires Printable(r)
  {
    RasterStart + Flatten(RowGroups(p, r)) + [EndMark]
  }

  /** `generateRaster`: the text of the raster's units; with `AsWritten`
      it is the function as web/epilog.js has it. */
  function GenerateRaster(p: Placement, r: Raster): string
    requires Printable(r)
  {
    UnitsText(RasterUnits(p, r))
  }

  /** What a row tells the printer. */
  datatype RowRecord = RowRecord(y: int, x: int, unpacked: int, bytes: seq<int>)

  /** What row `row` of the raster tells the printer. */
  function Record(p: Placement, r: Raster, row: nat): RowRecord
    requires Printable(r) && row < r.image.height
  {
    RowRecord(YPixels(r) + row, PosX(p, r), Unpacked(r.image.width, row), RowBytes(r.image.rows[row]))
  }

  /** What the raster's rows tell the printer, top to bottom: row k's
      line, the horizontal position (the top edge as written, the left
      edge corrected), the direction-signed stride and the packed row. */
  function Records(p: Placement, r: Raster): (rs: seq<RowRecord>)
    requires Printable(r)
    ensures |rs| == r.image.height
    ensures forall k :: 0 <= k < |rs| ==>
      && rs[k].y == YPixels(r) + k
      && (p == AsWritten ==> rs[k].x == YPixels(r))
      && (p == LeftEdge ==> rs[k].x == XPixels(r))
      && rs[k].unpacked == Unpacked(r.image.width, k)
      && rs[k].bytes == RowBytes(r.image.rows[k])
  {
    seq(r.image.height, k requires 0 <= k < r.image.height => Record(p, r, k))
  }

  /** Reads one row from four units: the row's line, its left edge and its
      unpacked count, then the payload its length command announces. */
  function ReadRow(us: seq<Unit>): (r: Option<RowRecord>)
    requires |us| == 4
    ensures r.Some? ==> us[0].Plain? && us[1].Plain? && us[2].Plain? && us[3].WithData?
  {
    if !(us[0].Plain? && us[1].Plain? && us[2].Plain? && us[3].WithData?) then None
    else
      var y, x, a, w := us[0].c, us[1].c, us[2].c, us[3].c;
      if || y.group != "*p" || y.terminator != 'Y'
         || x.group != "*p" || x.terminator != 'X'
         || a.group != "*b" || a.terminator != 'A'
         || w.group != "*b" || w.terminator != 'W' then None
      else
        var bytes := ReadPayload(us[3].data);
        if bytes.None? then None else Some(RowRecord(y.value, x.value, a.value, bytes.value))
  }

  /** Rows until `R_END`, returning them with the number of units taken,
      `R_END` included. */
  function ReadRows(us: seq<Unit>): (r: Option<(seq<RowRecord>, nat)>)
    ensures r.Some? ==> 0 < r.value.1 <= |us|
    decreases |us|
  {
    if |us| == 0 then None
    else if us[0] == EndMark then Some(([], 1))
    else if |us| < 4 then None
    else
      var row := ReadRow(us[..4]);
      if row.None? then None
      else
        var rest := ReadRows(us[4..]);
        if rest.None? then None
        else
          var used: nat := 4 + rest.value.1;
          Some(([row.value] + rest.value.0, used))
  }

  /** One raster from the front of us: its start, its rows, its end. */
  function ReadRaster(us: seq<Unit>): (r: Option<(seq<RowRecord>, nat)>)
    ensures r.Some? ==> 0 < r.value.1 <= |us|
  {
    if |us| < 2 || us[..2] != RasterStart then None
    else
      var rows := ReadRows(us[2..]);
      if rows.None? then None
      else
        var used: nat := 2 + rows.value.1;
        Some((rows.value.0, used))
  }

  /** Rasters one after another, up to the last unit. */
  function ReadRasters(us: seq<Unit>): (r: Option<seq<seq<RowRecord>>>)
    ensures r.Some? && us != [] ==> |r.value| >= 1
    decreases |us|
  {
    if us == [] then Some([])
    else
      var first := ReadRaster(us);
      if first.None? then None
      else
        var rest := ReadRasters(us[first.value.1..]);
        if rest.None? then None else Some([first.value.0] + rest.value)
  }

  /** The rasters of a stream of raster text. */
  function ReadRasterText(s: string): Option<seq<seq<RowRecord>>> {
    var us := Lex(s);
    if us.None? then None else ReadRasters(us.value)
  }

  /** A row's units read back as its record. */
  lemma ReadRowBack(p: Placement, r: Raster, row: nat)
    requires Printable(r) && row < r.image.height
    ensures ReadRow(RowUnits(p, r, row)) == Some(Record(p, r, row))
  {
    var bytes := RowBytes(r.image.rows[row]);
    RowBytesEncodable(r, row);
    ReadPayloadBack(bytes);
  }

  lemma RowBytesEncodable(r: Raster, row: nat)
    requires Printable(r) && row < r.image.height
    ensures Encodable(RowBytes(r.image.rows[row]))
  {
  }

  /** Groups of four units that each read back as a row, then `R_END`,
      read back as those rows, whatever follows. */
  lemma {:induction false} ReadRowsOf(groups: seq<seq<Unit>>, records: seq<RowRecord>, rest: seq<Unit>)
    requires |groups| == |records|
    requires forall k :: 0 <= k < |groups| ==> |groups[k]| == 4 && ReadRow(groups[k]) == Some(records[k])
    ensures ReadRows(Flatten(groups) + [EndMark] + rest) == Some((records, |Flatten(groups)| + 1))
    decreases |groups|
  {
    if groups == [] {
      ReadRowsDone(Flatten(groups), rest);
    } else {
      var head, tail := groups[0], Flatten(groups[1..]);
      ReadRowsOf(groups[1..], records[1..], rest);
      assert Flatten(groups) + [EndMark] + rest == head + (tail + [EndMark] + rest) by {
        Assoc(head, tail, [EndMark]);
        Assoc(head, tail + [EndMark], rest);
      }
      ReadRowsCons(head, tail + [EndMark] + rest, records[0], records[1..], |tail| + 1);
      assert [records[0]] + records[1..] == records;
    }
  }

  /** `R_END` right away: no rows. */
  lemma ReadRowsDone(none: seq<Unit>, rest: seq<Unit>)
    requires none == []
    ensures ReadRows(none + [EndMark] + rest) == Some(([], |none| + 1))
  {
    assert (none + [EndMark] + rest)[0] == EndMark;
  }

  /** A row that reads back, followed by rows that read back, reads back
      as one more row. */
  lemma ReadRowsCons(head: seq<Unit>, later: seq<Unit>, rec: RowRecord, records: seq<RowRecord>, used: nat)
    requires |head| == 4 && ReadRow(head) == Some(rec)
    requires ReadRows(later) == Some((records, used))
    ensures ReadRows(head + later) == Some(([rec] + records, 4 + used))
  {
    AppendSlices(head, later);
  }

  /** A raster's units read back as its rows' records, whatever follows. */
  lemma ReadRasterBack(p: Placement, r: Raster, rest: seq<Unit>)
    requires Printable(r)
    ensures ReadRaster(RasterUnits(p, r) + rest) == Some((Records(p, r), |RasterUnits(p, r)|))
  {
    var groups, records := RowGroups(p, r), Records(p, r);
    var body := Flatten(groups) + [EndMark] + rest;
    var us := RasterUnits(p, r) + rest;
    assert us == RasterStart + body;
    assert us[..2] == RasterStart && us[2..] == body;
    forall k | 0 <= k < |groups|
      ensures |groups[k]| == 4 && ReadRow(groups[k]) == Some(records[k])
    {
      ReadRowBack(p, r, k);
    }
    ReadRowsOf(groups, records, rest);
  }

  /** Each raster as its units. */
  function RasterGroups(p: Placement, rasters: seq<Raster>): (gs: seq<seq<Unit>>)
    requires forall k :: 0 <= k < |rasters| ==> Printable(rasters[k])
    ensures |gs| == |rasters|
    ensures forall k :: 0 <= k < |gs| ==> gs[k] == RasterUnits(p, rasters[k])
  {
    seq(|rasters|, k requires 0 <= k < |rasters| => RasterUnits(p, rasters[k]))
  }

  /** The units of the rasters one after another. */
  function AllUnits(p: Placement, rasters: seq<Raster>): seq<Unit>
    requires forall k :: 0 <= k < |rasters| ==> Printable(rasters[k])
  {
    Flatten(RasterGroups(p, rasters))
  }

  /** The text of the rasters one after another, `generateRaster` of each
      in turn. */
  function RastersText(p: Placement, rasters: seq<Raster>): string
    requires forall k :: 0 <= k < |rasters| ==> Printable(rasters[k])
  {
    if rasters == [] then "" else GenerateRaster(p, rasters[0]) + RastersText(p, rasters[1..])
  }

  /** What each raster tells the printer, in order. */
  function AllRecords(p: Placement, rasters: seq<Raster>): (rs: seq<seq<RowRecord>>)
    requires forall k :: 0 <= k < |rasters| ==> Printable(rasters[k])
    ensures |rs| == |rasters|
    ensures forall k :: 0 <= k < |rasters| ==> rs[k] == Records(p, rasters[k])
  {
    seq(|rasters|, k requires 0 <= k < |rasters| => Records(p, rasters[k]))
  }

  /** Rasters read back, one after another, as their records. */
  lemma ReadRastersBack(p: Placement, rasters: seq<Raster>)
    requires forall k :: 0 <= k < |rasters| ==> Printable(rasters[k])
    ensures ReadRasters(AllUnits(p, rasters)) == Some(AllRecords(p, rasters))
  {
    var groups, records := RasterGroups(p, rasters), AllRecords(p, rasters);
    forall k | 0 <= k < |groups|
      ensures ReadsAs(groups[k], records[k])
    {
      forall rest: seq<Unit>
        ensures ReadRaster(groups[k] + rest) == Some((records[k], |groups[k]|))
      {
        ReadRasterBack(p, rasters[k], rest);
      }
    }
    ReadRastersOf(groups, records);
  }

  /** g followed by anything reads as one raster with these records,
      taking all of g. */
  ghost predicate ReadsAs(g: seq<Unit>, records: seq<RowRecord>) {
    forall rest: seq<Unit> :: ReadRaster(g + rest) == Some((records, |g|))
  }

  /** Groups of units that each read as a raster read, one after another,
      as those rasters. */
  lemma {:induction false} ReadRastersOf(groups: seq<seq<Unit>>, records: seq<seq<RowRecord>>)
    requires |groups| == |records|
    requires forall k :: 0 <= k < |groups| ==> ReadsAs(groups[k], records[k])
    ensures ReadRasters(Flatten(groups)) == Some(records)
    decreases |groups|
  {
    if groups != [] {
      ReadRastersOf(groups[1..], records[1..]);
      var later := Flatten(groups[1..]);
      assert ReadsAs(groups[0], records[0]);
      assert ReadRaster(groups[0] + later) == Some((records[0], |groups[0]|));
      ReadRastersCons(groups[0], later, records[0], records[1..]);
      assert [records[0]] + records[1..] == records;
    }
  }

  /** A raster that reads back, followed by rasters that read back, reads
      back as one more raster. */
  lemma ReadRastersCons(head: seq<Unit>, later: seq<Unit>, records: seq<RowRecord>, others: seq<seq<RowRecord>>)
    requires ReadRaster(head + later) == Some((records, |head|))
    requires ReadRasters(later) == Some(others)
    ensures ReadRasters(head + later) == Some([records] + others)
  {
    AppendSlices(head, later);
  }

  /** Every unit of a raster lexes back as itself. */
  lemma RasterLexable(p: Placement, r: Raster)
    requires Printable(r)
    ensures forall k :: 0 <= k < |RasterUnits(p, r)| ==> Lexable(RasterUnits(p, r)[k])
  {
    var groups := RowGroups(p, r);
    forall k, j | 0 <= k < |groups| && 0 <= j < |groups[k]|
      ensures Lexable(groups[k][j])
    {
      assert groups[k] == RowUnits(p, r, k);
    }
    FlattenLexable(groups);
  }

  lemma {:induction false} FlattenLexable(groups: seq<seq<Unit>>)
    requires forall k, j :: 0 <= k < |groups| && 0 <= j < |groups[k]| ==> Lexable(groups[k][j])
    ensures forall i :: 0 <= i < |Flatten(groups)| ==> Lexable(Flatten(groups)[i])
    decreases |groups|
  {
    if groups != [] {
      FlattenLexable(groups[1..]);
      assert forall j :: 0 <= j < |groups[0]| ==> Lexable(groups[0][j]);
    }
  }

  lemma AllLexable(p: Placement, rasters: seq<Raster>)
    requires forall k :: 0 <= k < |rasters| ==> Printable(rasters[k])
    ensures forall i :: 0 <= i < |AllUnits(p, rasters)| ==> Lexable(AllUnits(p, rasters)[i])
  {
    var groups := RasterGroups(p, rasters);
    forall k, j | 0 <= k < |groups| && 0 <= j < |groups[k]|
      ensures Lexable(groups[k][j])
    {
      RasterLexable(p, rasters[k]);
    }
    FlattenLexable(groups);
  }

  /** The rasters' text is the text of their units. */
  lemma {:induction false} RastersTextIsUnits(p: Placement, rasters: seq<Raster>)
    requires forall k :: 0 <= k < |rasters| ==> Printable(rasters[k])
    ensures RastersText(p, rasters) == UnitsText(AllUnits(p, rasters))
  {
    if rasters != [] {
      RastersTextIsUnits(p, rasters[1..]);
      assert RasterGroups(p, rasters)[1..] == RasterGroups(p, rasters[1..]);
      EmitConcat(RasterUnits(p, rasters[0]), AllUnits(p, rasters[1..]), UnitText);
    }
  }

  /** The text written for the rasters reads back as what each raster's
      rows tell the printer, for the stream as written and as corrected. */
  lemma RastersReadBack(p: Placement, rasters: seq<Raster>)
    requires forall k :: 0 <= k < |rasters| ==> Printable(rasters[k])
    ensures ReadRasterText(RastersText(p, rasters)) == Some(AllRecords(p, rasters))
  {
    RastersTextIsUnits(p, rasters);
    AllLexable(p, rasters);
    LexUnits(AllUnits(p, rasters));
    ReadRastersBack(p, rasters);
  }
}
