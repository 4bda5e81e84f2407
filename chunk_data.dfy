/** Decoding the data of individual chunks (src/chunk_data.rs; the same
    parsers appear in src/main.rs): the image header and its geometry, and
    the fixed-layout ancillary chunks sBIT, bKGD, pHYs, tIME, tEXt and zTXt
    (PNG 1.2, sections 4.1.1 and 4.2). */
module ChunkDecoders {
  import opened Bytes
  import opened Results
  import opened Parsing
  import Colors
  import Chunks

  // ---------------------------------------------------------------------------
  // Data model

  datatype IHDRData = IHDRData(
    width: u32, height: u32, bitDepth: byte, colorType: Colors.ColorType,
    compressionMethod: byte, filterMethod: byte, interlaceMethod: byte)

  /** sBIT: significant bits per channel, one byte per channel. */
  datatype SignificantBits =
    | SbitGray(gray: byte)
    | SbitGrayAlpha(gray: byte, alpha: byte)
    | SbitRgb(red: byte, green: byte, blue: byte)
    | SbitRgba(red: byte, green: byte, blue: byte, alpha: byte)

  /** bKGD: a palette index, a gray level or an RGB triple. */
  datatype Background =
    | BackgroundPalette(index: byte)
    | BackgroundGray(level: u16)
    | BackgroundRgb(red: u16, green: u16, blue: u16)

  datatype DimensionUnit = UnknownUnit | Meter

  datatype PhysicalPixelDimension = PhysicalPixelDimension(x: u32, y: u32, unit: DimensionUnit)

  /** Text fields are kept as the bytes they were validated from. */
  datatype Text = Text(keyword: seq<byte>, text: seq<byte>)

  datatype CompressedText = CompressedText(keyword: seq<byte>, compressionMethod: byte, text: seq<byte>)

  datatype LastModificationTime = LastModificationTime(
    year: u16, month: byte, day: byte, hour: byte, minute: byte, second: byte)

  /** What `parse_chunk_data` returns; `Undecoded` is the source's
      `ChunkData::Unknown` and carries the slice it was given (always empty). */
  datatype ChunkData =
    | Header(ihdr: IHDRData)
    | End
    | TextChunk(textData: Text)
    | CompressedTextChunk(compressed: CompressedText)
    | BackgroundChunk(background: Background)
    | PhysicalChunk(dimension: PhysicalPixelDimension)
    | SignificantBitsChunk(bits: SignificantBits)
    | TimeChunk(time: LastModificationTime)
    | Undecoded(bytes: seq<byte>)

  // ---------------------------------------------------------------------------
  // Header and geometry

  /** `max(1, bit_depth / 8)`. */
  function BytesPerChannel(bitDepth: byte): (r: nat)
    ensures 1 <= r <= 31
    ensures bitDepth < 16 ==> r == 1
    ensures bitDepth >= 8 ==> r * 8 <= bitDepth < r * 8 + 8
  {
    if bitDepth / 8 > 1 then bitDepth / 8 else 1
  }

  /** `scanline_width` is computed in `u32`: the header must keep it from
      overflowing. */
  predicate ScanlineFits(h: IHDRData)
    requires h.colorType != Colors.PLTE
  {
    1 + h.width * Colors.Channels(h.colorType) * BytesPerChannel(h.bitDepth) < 0x1_0000_0000
  }

  /** The length of one filtered scanline: the filter byte and one row of
      samples, each `max(1, bit_depth / 8)` bytes wide. For the byte depths 8
      and 16 this is PNG's own row size; every depth below 8 is counted as one
      byte per sample. */
  function ScanlineWidth(h: IHDRData): (r: nat)
    requires h.colorType != Colors.PLTE && ScanlineFits(h)
    ensures 1 <= r < 0x1_0000_0000
    ensures h.bitDepth == 8 || h.bitDepth == 16 ==>
      r == 1 + (h.width * Colors.Channels(h.colorType) * h.bitDepth + 7) / 8
    ensures h.bitDepth < 8 ==> r == 1 + h.width * Colors.Channels(h.colorType)
  {
    var n := h.width * Colors.Channels(h.colorType);
    if h.bitDepth == 16 then
      assert (n * 16 + 7) / 8 == n * 2;
      1 + n * BytesPerChannel(h.bitDepth)
    else
      1 + n * BytesPerChannel(h.bitDepth)
  }

  /** A 10-pixel-wide 8-bit RGBA row takes 41 bytes. */
  lemma ScanlineWidthExample(height: u32)
    ensures var h := IHDRData(10, height, 8, Colors.RGBA, 0, 0, 0);
      ScanlineFits(h) && ScanlineWidth(h) == 41
  {
  }

  /** The 13 bytes of an IHDR chunk. */
  function EncodeIhdr(h: IHDRData): (s: seq<byte>)
    ensures |s| == 13
  {
    U32ToBe(h.width) + U32ToBe(h.height)
      + [h.bitDepth, Colors.Code(h.colorType), h.compressionMethod, h.filterMethod, h.interlaceMethod]
  }

  /** `parse_ihdr_data`: two big-endian `u32`s and five bytes, the fourth
      decoded as a colour type. Fields are read in order, so a bad colour code
      is reported even when the bytes after it are missing. */
  function ParseIhdrData(input: seq<byte>): (r: ParseResult<IHDRData>)
    ensures r.Ok? <==> |input| >= 13 && input[9] in Colors.ValidCodes
    ensures r.Err? ==> (r.error == MapRes <==> |input| >= 10 && input[9] !in Colors.ValidCodes)
    ensures r.Err? ==> r.error in {Eof, MapRes}
    ensures r.Ok? ==> EncodeIhdr(r.value.value) == input[..13] && r.value.rest == input[13..]
  {
    if |input| < 4 then Err(Eof)
    else if |input| < 8 then Err(Eof)
    else if |input| < 9 then Err(Eof)
    else if |input| < 10 then Err(Eof)
    else match Colors.TryFromCode(input[9])
      case Err(_) => Err(MapRes)
      case Ok(colorType) =>
        if |input| < 11 then Err(Eof)
        else if |input| < 12 then Err(Eof)
        else if |input| < 13 then Err(Eof)
        else
          var h := IHDRData(BeU32(input), BeU32(input[4..]), input[8], colorType, input[10], input[11], input[12]);
          IhdrLayout(input, h);
          Ok(Parsed(h, input[13..]))
  }

  lemma IhdrLayout(input: seq<byte>, h: IHDRData)
    requires |input| >= 13 && input[9] in Colors.ValidCodes
    requires h.width == BeU32(input) && h.height == BeU32(input[4..])
    requires h.bitDepth == input[8] && Colors.Code(h.colorType) == input[9]
    requires h.compressionMethod == input[10] && h.filterMethod == input[11] && h.interlaceMethod == input[12]
    ensures EncodeIhdr(h) == input[..13]
  {
    U32ToBeOfBeU32(input);
    U32ToBeOfBeU32(input[4..]);
    assert input[..13] == input[..4] + input[4..][..4] + input[8..13];
  }

  lemma {:induction false} ParseEncodeIhdr(h: IHDRData, rest: seq<byte>)
    ensures ParseIhdrData(EncodeIhdr(h) + rest) == Ok(Parsed(h, rest))
  {
    var s := EncodeIhdr(h) + rest;
    BeU32RoundTrip(h.width, s[4..]);
    assert s == U32ToBe(h.width) + s[4..];
    BeU32RoundTrip(h.height, s[8..]);
    assert s[4..] == U32ToBe(h.height) + s[8..];
    Colors.CodeRoundTrip(h.colorType);
    assert s[13..] == rest;
  }

  // ---------------------------------------------------------------------------
  // sBIT and bKGD: dispatched on the length the chunk declares

  /** The bytes an sBIT value is read from. */
  function SbitBytes(b: SignificantBits): (s: seq<byte>)
    ensures 1 <= |s| <= 4
  {
    match b
    case SbitGray(g) => [g]
    case SbitGrayAlpha(g, a) => [g, a]
    case SbitRgb(r, g, bl) => [r, g, bl]
    case SbitRgba(r, g, bl, a) => [r, g, bl, a]
  }

  /** `parse_sbit_data`: a declared length of 1, 2, 3 or 4 selects the gray,
      gray-alpha, RGB or RGBA form and reads that many bytes; any other length
      is an error before anything is read. */
  function ParseSbitData(input: seq<byte>, length: u32): (r: ParseResult<SignificantBits>)
    ensures r.Ok? <==> 1 <= length <= 4 && |input| >= length
    ensures r.Err? ==> (r.error == MapRes <==> !(1 <= length <= 4))
    ensures r.Err? ==> r.error in {Eof, MapRes}
    ensures r.Ok? ==> SbitBytes(r.value.value) == input[..length] && r.value.rest == input[length..]
  {
    match length
    case 1 =>
      if |input| < 1 then Err(Eof) else Ok(Parsed(SbitGray(input[0]), input[1..]))
    case 2 =>
      if |input| < 2 then Err(Eof) else Ok(Parsed(SbitGrayAlpha(input[0], input[1]), input[2..]))
    case 3 =>
      if |input| < 3 then Err(Eof) else Ok(Parsed(SbitRgb(input[0], input[1], input[2]), input[3..]))
    case 4 =>
      if |input| < 4 then Err(Eof) else Ok(Parsed(SbitRgba(input[0], input[1], input[2], input[3]), input[4..]))
    case _ => Err(MapRes)
  }

  lemma ParseSbitBytes(b: SignificantBits, rest: seq<byte>)
    ensures ParseSbitData(SbitBytes(b) + rest, |SbitBytes(b)|) == Ok(Parsed(b, rest))
  {
    var s := SbitBytes(b) + rest;
    assert s[|SbitBytes(b)|..] == rest;
  }

  /** The bytes a bKGD value is read from. */
  function BackgroundBytes(b: Background): (s: seq<byte>)
    ensures |s| in {1, 2, 6}
  {
    match b
    case BackgroundPalette(i) => [i]
    case BackgroundGray(l) => U16ToBe(l)
    case BackgroundRgb(r, g, bl) => U16ToBe(r) + U16ToBe(g) + U16ToBe(bl)
  }

  /** `parse_bkgd_data`: length 1 is a palette index, 2 a big-endian gray
      level, 6 three big-endian RGB samples; any other length is an error. */
  function ParseBkgdData(input: seq<byte>, length: u32): (r: ParseResult<Background>)
    ensures r.Ok? <==> length in {1, 2, 6} && |input| >= length
    ensures r.Err? ==> (r.error == MapRes <==> length !in {1, 2, 6})
    ensures r.Err? ==> r.error in {Eof, MapRes}
    ensures r.Ok? ==> BackgroundBytes(r.value.value) == input[..length] && r.value.rest == input[length..]
  {
    match length
    case 1 =>
      if |input| < 1 then Err(Eof) else Ok(Parsed(BackgroundPalette(input[0]), input[1..]))
    case 2 =>
      if |input| < 2 then Err(Eof)
      else
        U16ToBeOfBeU16(input);
        Ok(Parsed(BackgroundGray(BeU16(input)), input[2..]))
    case 6 =>
      if |input| < 2 then Err(Eof)
      else if |input| < 4 then Err(Eof)
      else if |input| < 6 then Err(Eof)
      else
        var b := BackgroundRgb(BeU16(input), BeU16(input[2..]), BeU16(input[4..]));
        RgbLayout(input);
        Ok(Parsed(b, input[6..]))
    case _ => Err(MapRes)
  }

  lemma RgbLayout(input: seq<byte>)
    requires |input| >= 6
    ensures BackgroundBytes(BackgroundRgb(BeU16(input), BeU16(input[2..]), BeU16(input[4..]))) == input[..6]
  {
    U16ToBeOfBeU16(input);
    U16ToBeOfBeU16(input[2..]);
    U16ToBeOfBeU16(input[4..]);
    assert input[..6] == input[..2] + input[2..][..2] + input[4..][..2];
  }

  lemma {:induction false} ParseBackgroundBytes(b: Background, rest: seq<byte>)
    ensures ParseBkgdData(BackgroundBytes(b) + rest, |BackgroundBytes(b)|) == Ok(Parsed(b, rest))
  {
    var s := BackgroundBytes(b) + rest;
    match b
    case BackgroundPalette(i) =>
      assert s[1..] == rest;
    case BackgroundGray(l) =>
      BeU16RoundTrip(l, rest);
      assert s[2..] == rest;
    case BackgroundRgb(r, g, bl) =>
      BeU16RoundTrip(r, s[2..]);
      assert s == U16ToBe(r) + s[2..];
      BeU16RoundTrip(g, s[4..]);
      assert s[2..] == U16ToBe(g) + s[4..];
      BeU16RoundTrip(bl, rest);
      assert s[4..] == U16ToBe(bl) + rest;
      assert s[6..] == rest;
  }

  // ---------------------------------------------------------------------------
  // pHYs and tIME: fixed layouts

  function UnitCode(u: DimensionUnit): byte {
    match u
    case UnknownUnit => 0
    case Meter => 1
  }

  function EncodePhys(p: PhysicalPixelDimension): (s: seq<byte>)
    ensures |s| == 9
  {
    U32ToBe(p.x) + U32ToBe(p.y) + [UnitCode(p.unit)]
  }

  /** `parse_phys_data`: two big-endian `u32`s and a unit byte, 0 for an
      unknown unit and 1 for metres; any other unit byte is an error. */
  function ParsePhysData(input: seq<byte>): (r: ParseResult<PhysicalPixelDimension>)
    ensures r.Ok? <==> |input| >= 9 && input[8] <= 1
    ensures r.Err? ==> (r.error == MapRes <==> |input| >= 9 && input[8] > 1)
    ensures r.Err? ==> r.error in {Eof, MapRes}
    ensures r.Ok? ==> EncodePhys(r.value.value) == input[..9] && r.value.rest == input[9..]
  {
    if |input| < 4 then Err(Eof)
    else if |input| < 8 then Err(Eof)
    else if |input| < 9 then Err(Eof)
    else if input[8] > 1 then Err(MapRes)
    else
      var p := PhysicalPixelDimension(BeU32(input), BeU32(input[4..]), if input[8] == 0 then UnknownUnit else Meter);
      U32ToBeOfBeU32(input);
      U32ToBeOfBeU32(input[4..]);
      assert input[..9] == input[..4] + input[4..][..4] + [input[8]];
      Ok(Parsed(p, input[9..]))
  }

  lemma {:induction false} ParseEncodePhys(p: PhysicalPixelDimension, rest: seq<byte>)
    ensures ParsePhysData(EncodePhys(p) + rest) == Ok(Parsed(p, rest))
  {
    var s := EncodePhys(p) + rest;
    BeU32RoundTrip(p.x, s[4..]);
    assert s == U32ToBe(p.x) + s[4..];
    BeU32RoundTrip(p.y, s[8..]);
    assert s[4..] == U32ToBe(p.y) + s[8..];
    assert s[9..] == rest;
  }

  function EncodeTime(t: LastModificationTime): (s: seq<byte>)
    ensures |s| == 7
  {
    U16ToBe(t.year) + [t.month, t.day, t.hour, t.minute, t.second]
  }

  /** `parse_time_data`: a big-endian `u16` year and five bytes, with no
      range check on any field. */
  function ParseTimeData(input: seq<byte>): (r: ParseResult<LastModificationTime>)
    ensures r.Ok? <==> |input| >= 7
    ensures r.Err? ==> r.error == Eof
    ensures r.Ok? ==> EncodeTime(r.value.value) == input[..7] && r.value.rest == input[7..]
  {
    if |input| < 7 then Err(Eof)
    else
      U16ToBeOfBeU16(input);
      assert input[..7] == input[..2] + input[2..7];
      Ok(Parsed(LastModificationTime(BeU16(input), input[2], input[3], input[4], input[5], input[6]), input[7..]))
  }

  lemma {:induction false} ParseEncodeTime(t: LastModificationTime, rest: seq<byte>)
    ensures ParseTimeData(EncodeTime(t) + rest) == Ok(Parsed(t, rest))
  {
    var s := EncodeTime(t) + rest;
    BeU16RoundTrip(t.year, s[2..]);
    assert s == U16ToBe(t.year) + s[2..];
    assert s[7..] == rest;
  }

  // ---------------------------------------------------------------------------
  // Null-terminated text

  /** `till_null`: the longest prefix without a zero byte, and what follows,
      which is empty or starts with the zero. */
  function TillNull(input: seq<byte>): (r: Parsed<seq<byte>>)
    ensures input == r.value + r.rest
    ensures 0 !in r.value
    ensures r.rest == [] || r.rest[0] == 0
    decreases |input|
  {
    if |input| == 0 || input[0] == 0 then Parsed([], input)
    else
      var t := TillNull(input[1..]);
      TillNullStep(input, t.value, t.rest);
      Parsed([input[0]] + t.value, t.rest)
  }

  /** A non-zero first byte joins the field that follows it. */
  lemma TillNullStep(input: seq<byte>, field: seq<byte>, rest: seq<byte>)
    requires |input| > 0 && input[0] != 0
    requires input[1..] == field + rest && 0 !in field
    ensures input == [input[0]] + field + rest
    ensures 0 !in [input[0]] + field
  {
    assert input == [input[0]] + input[1..];
  }

  /** The split `TillNull` makes is the only one with those properties. */
  lemma {:induction false} TillNullOf(field: seq<byte>, rest: seq<byte>)
    requires 0 !in field
    requires rest == [] || rest[0] == 0
    ensures TillNull(field + rest) == Parsed(field, rest)
    decreases |field|
  {
    if |field| > 0 {
      assert (field + rest)[1..] == field[1..] + rest;
      TillNullOf(field[1..], rest);
      assert field == [field[0]] + field[1..];
    }
  }

  /** `str_till_null`: `till_null` followed by UTF-8 validation, which is
      `validUtf8` here. */
  function StrTillNull(input: seq<byte>, validUtf8: seq<byte> -> bool): (r: ParseResult<seq<byte>>)
    ensures r.Ok? <==> validUtf8(TillNull(input).value)
    ensures r.Ok? ==> r.value == TillNull(input)
    ensures r.Err? ==> r.error == MapRes
  {
    var t := TillNull(input);
    if validUtf8(t.value) then Ok(t) else Err(MapRes)
  }

  /** `TillNull` stops short of the end exactly when the input holds a zero. */
  lemma TillNullStops(input: seq<byte>)
    ensures TillNull(input).rest == [] <==> 0 !in input
  {
    var t := TillNull(input);
    if t.rest != [] {
      assert input[|t.value|] == 0;
    }
  }

  /** How the two fields of a text chunk lie in its data. */
  lemma TextLayout(input: seq<byte>, keyword: Parsed<seq<byte>>, text: Parsed<seq<byte>>)
    requires keyword == TillNull(input) && |keyword.rest| >= 1
    requires text == TillNull(keyword.rest[1..])
    ensures input == keyword.value + [0] + text.value + text.rest
  {
    var after := keyword.rest[1..];
    assert keyword.rest == [0] + after;
    Associative([0], text.value, text.rest);
    Associative(keyword.value, [0], text.value + text.rest);
    Associative(keyword.value + [0], text.value, text.rest);
  }

  /** `parse_text_data`: a keyword up to the first zero, one separator byte,
      then the text up to the next zero or the end of the input. */
  function ParseTextData(input: seq<byte>, validUtf8: seq<byte> -> bool): (r: ParseResult<Text>)
    ensures r.Ok? ==> var t := r.value.value;
      && input == t.keyword + [0] + t.text + r.value.rest
      && 0 !in t.keyword && 0 !in t.text
      && (r.value.rest == [] || r.value.rest[0] == 0)
      && validUtf8(t.keyword) && validUtf8(t.text)
    ensures r == Err(Eof) <==> validUtf8(TillNull(input).value) && 0 !in input
    ensures r.Err? ==> r.error in {Eof, MapRes}
  {
    TillNullStops(input);
    var keyword :- StrTillNull(input, validUtf8);
    if |keyword.rest| < 1 then Err(Eof)
    else
      var text :- StrTillNull(keyword.rest[1..], validUtf8);
      TextLayout(input, keyword, text);
      Ok(Parsed(Text(keyword.value, text.value), text.rest))
  }

  /** A keyword and a text without zero bytes, joined by a zero, read back. */
  lemma ParseTextOf(t: Text, rest: seq<byte>, validUtf8: seq<byte> -> bool)
    requires 0 !in t.keyword && 0 !in t.text
    requires validUtf8(t.keyword) && validUtf8(t.text)
    requires rest == [] || rest[0] == 0
    ensures ParseTextData(t.keyword + [0] + t.text + rest, validUtf8) == Ok(Parsed(t, rest))
  {
    var s := t.keyword + [0] + t.text + rest;
    var after := [0] + (t.text + rest);
    Associative(t.keyword, [0], t.text + rest);
    Associative(t.keyword + [0], t.text, rest);
    assert s == t.keyword + after;
    TillNullOf(t.keyword, after);
    assert after[1..] == t.text + rest;
    TillNullOf(t.text, rest);
    TillNullStops(s);
  }

  /** `parse_ztxt_data`: keyword, separator, method byte, then the whole rest
      is handed to `zlib` (the zlib decompressor) and its output must be
      valid UTF-8. All of the input is consumed. */
  function ParseZtxtData(input: seq<byte>, validUtf8: seq<byte> -> bool, zlib: seq<byte> -> Result<seq<byte>, ()>)
    : (r: ParseResult<CompressedText>)
    ensures r.Ok? ==> var t := r.value.value;
      && r.value.rest == []
      && 0 !in t.keyword && validUtf8(t.keyword)
      && |input| >= |t.keyword| + 2
      && input[..|t.keyword| + 2] == t.keyword + [0, t.compressionMethod]
      && zlib(input[|t.keyword| + 2..]) == Ok(t.text)
      && validUtf8(t.text)
    ensures r == Err(Eof) <==> validUtf8(TillNull(input).value) && |TillNull(input).rest| < 2
    ensures r.Err? ==> r.error in {Eof, MapRes}
  {
    var keyword :- StrTillNull(input, validUtf8);
    if |keyword.rest| < 1 then Err(Eof)
    else if |keyword.rest| < 2 then Err(Eof)
    else
      var compressionMethod := keyword.rest[1];
      var compressed := keyword.rest[2..];
      assert input[|keyword.value| + 2..] == compressed;
      assert input[..|keyword.value| + 2] == keyword.value + keyword.rest[..2];
      match zlib(compressed)
      case Err(_) => Err(MapRes)
      case Ok(text) =>
        if validUtf8(text) then Ok(Parsed(CompressedText(keyword.value, compressionMethod, text), []))
        else Err(MapRes)
  }

  // ---------------------------------------------------------------------------
  // Dispatch on the chunk type

  /** The chunk types `parse_chunk_data` has no decoder for. */
  predicate NoDecoder(t: Chunks.ChunkType) {
    t.Unknown? ||
    t in {Chunks.PLTE, Chunks.IDAT, Chunks.cHRM, Chunks.gAMA, Chunks.iCCP, Chunks.sRGB,
          Chunks.hIST, Chunks.tRNS, Chunks.sPLT, Chunks.iTXt}
  }

  /** The decoded value has the form the chunk type calls for. */
  predicate Describes(t: Chunks.ChunkType, d: ChunkData) {
    match t
    case IHDR => d.Header?
    case IEND => d.End?
    case sBIT => d.SignificantBitsChunk?
    case bKGD => d.BackgroundChunk?
    case pHYs => d.PhysicalChunk?
    case tIME => d.TimeChunk?
    case tEXt => d.TextChunk?
    case zTXt => d.CompressedTextChunk?
    case _ => d == Undecoded([])
  }

  /** `parse_chunk_data`: selects the decoder by chunk type and runs it on the
      chunk's data; sBIT and bKGD are given the declared length. IEND and the
      types without a decoder read nothing. */
  function ParseChunkData(c: Chunks.Chunk, validUtf8: seq<byte> -> bool, zlib: seq<byte> -> Result<seq<byte>, ()>)
    : (r: ParseResult<ChunkData>)
    ensures NoDecoder(c.chunkType) ==> r == Ok(Parsed(Undecoded([]), c.data))
    ensures c.chunkType == Chunks.IEND ==> r == Ok(Parsed(End, c.data))
    ensures r.Ok? ==> Describes(c.chunkType, r.value.value)
    ensures r.Ok? ==> SuffixOf(r.value.rest, c.data)
  {
    match c.chunkType
    case IHDR =>
      var p :- ParseIhdrData(c.data);
      SuffixAfter(c.data, 13);
      Ok(Parsed(Header(p.value), p.rest))
    case IEND =>
      SuffixAfter(c.data, 0);
      Ok(Parsed(End, c.data))
    case sBIT =>
      var p :- ParseSbitData(c.data, c.length);
      SuffixAfter(c.data, c.length);
      Ok(Parsed(SignificantBitsChunk(p.value), p.rest))
    case bKGD =>
      var p :- ParseBkgdData(c.data, c.length);
      SuffixAfter(c.data, c.length);
      Ok(Parsed(BackgroundChunk(p.value), p.rest))
    case pHYs =>
      var p :- ParsePhysData(c.data);
      SuffixAfter(c.data, 9);
      Ok(Parsed(PhysicalChunk(p.value), p.rest))
    case tIME =>
      var p :- ParseTimeData(c.data);
      SuffixAfter(c.data, 7);
      Ok(Parsed(TimeChunk(p.value), p.rest))
    case tEXt =>
      var p :- ParseTextData(c.data, validUtf8);
      SuffixOfConcat(p.value.keyword + [0] + p.value.text, p.rest, c.data);
      Ok(Parsed(TextChunk(p.value), p.rest))
    case zTXt =>
      var p :- ParseZtxtData(c.data, validUtf8, zlib);
      SuffixAfter(c.data, |c.data|);
      Ok(Parsed(CompressedTextChunk(p.value), p.rest))
    case _ =>
      SuffixAfter(c.data, 0);
      Ok(Parsed(Undecoded([]), c.data))
  }

  /** `rest` is what is left of `data` once a prefix has been read. */
  ghost predicate SuffixOf(rest: seq<byte>, data: seq<byte>) {
    |rest| <= |data| && rest == data[|data| - |rest|..]
  }

  lemma SuffixAfter(data: seq<byte>, n: nat)
    requires n <= |data|
    ensures SuffixOf(data[n..], data)
  {
  }

  lemma SuffixOfConcat(prefix: seq<byte>, rest: seq<byte>, data: seq<byte>)
    requires data == prefix + rest
    ensures SuffixOf(rest, data)
  {
    assert data[|prefix|..] == rest;
  }

  /** On a framed chunk, whose data is exactly `length` bytes, sBIT decodes
      exactly when it declares 1 to 4 bytes and bKGD when it declares 1, 2 or
      6, and both then consume all of the data. */
  lemma LengthDispatchOnFramedChunk(c: Chunks.Chunk, validUtf8: seq<byte> -> bool, zlib: seq<byte> -> Result<seq<byte>, ()>)
    requires Chunks.WellFormed(c)
    ensures var r := ParseChunkData(c, validUtf8, zlib);
      && (c.chunkType == Chunks.sBIT ==> (r.Ok? <==> 1 <= c.length <= 4) && (r.Ok? ==> r.value.rest == []))
      && (c.chunkType == Chunks.bKGD ==> (r.Ok? <==> c.length in {1, 2, 6}) && (r.Ok? ==> r.value.rest == []))
  {
    var r := ParseChunkData(c, validUtf8, zlib);
    if c.chunkType == Chunks.sBIT && r.Ok? {
      var p := ParseSbitData(c.data, c.length);
      assert r.value.rest == p.value.rest == c.data[c.length..];
    }
    if c.chunkType == Chunks.bKGD && r.Ok? {
      var p := ParseBkgdData(c.data, c.length);
      assert r.value.rest == p.value.rest == c.data[c.length..];
    }
  }
}
