/** The decoding pipeline of src/png.rs: the PNG signature and the chunk
    stream, the split of the inflated image data into filtered scanlines, and
    the in-place reconstruction of the pixel buffer (`unfilter`), together
    with pixel access on the result. src/main.rs repeats the same code. */
module PngImage {
  import opened Bytes
  import opened Results
  import opened Parsing
  import Colors
  import Chunks
  import Filters
  import ChunkDecoders

  // ---------------------------------------------------------------------------
  // The chunk stream

  /** The eight bytes every PNG file starts with (PNG 1.2, section 3.1). */
  const Signature: seq<byte> := [137, 80, 78, 71, 13, 10, 26, 10]

  /** Every chunk a framer can produce has an encoding. */
  ghost predicate AllWellFormed(chunks: seq<Chunks.Chunk>) {
    forall i :: 0 <= i < |chunks| ==> Chunks.WellFormed(chunks[i])
  }

  /** The bytes a sequence of chunks occupies, one after the other. */
  function EncodeChunks(chunks: seq<Chunks.Chunk>): (s: seq<byte>)
    requires forall i :: 0 <= i < |chunks| ==> Chunks.WellFormed(chunks[i])
  {
    if |chunks| == 0 then []
    else
      assert Chunks.WellFormed(chunks[0]);
      assert forall i :: 0 <= i < |chunks| - 1 ==> chunks[1..][i] == chunks[i + 1];
      Chunks.EncodeChunk(chunks[0]) + EncodeChunks(chunks[1..])
  }

  /** `many0(Chunk::parse)`: chunks are framed until one fails to frame;
      what is left over is returned unparsed. A chunk always consumes at
      least twelve bytes, so the repetition ends. */
  function ManyChunks(input: seq<byte>): (r: Parsed<seq<Chunks.Chunk>>)
    ensures Chunks.ParseChunk(r.rest).Err?
    ensures |r.value| == 0 <==> Chunks.ParseChunk(input).Err?
    decreases |input|
  {
    var first := Chunks.ParseChunk(input);
    if first.Err? then Parsed([], input)
    else
      var more := ManyChunks(first.value.rest);
      Parsed([first.value.value] + more.value, more.rest)
  }

  /** What `ManyChunks` reads are well-formed chunks that, written back,
      are exactly the bytes it consumed. */
  lemma {:induction false} ManyChunksFrame(input: seq<byte>)
    ensures var r := ManyChunks(input);
      AllWellFormed(r.value) && input == EncodeChunks(r.value) + r.rest
    decreases |input|
  {
    var first := Chunks.ParseChunk(input);
    if first.Ok? {
      var c := first.value.value;
      var rest := first.value.rest;
      ManyChunksFrame(rest);
      var more := ManyChunks(rest);
      FrameStep(input, c, rest, more.value, more.rest);
    }
  }

  lemma FrameStep(input: seq<byte>, c: Chunks.Chunk, rest: seq<byte>, more: seq<Chunks.Chunk>, tail: seq<byte>)
    requires Chunks.WellFormed(c) && AllWellFormed(more)
    requires input == Chunks.EncodeChunk(c) + rest && rest == EncodeChunks(more) + tail
    ensures AllWellFormed([c] + more) && input == EncodeChunks([c] + more) + tail
  {
    EncodeChunksCons(c, more);
  }

  lemma EncodeChunksCons(c: Chunks.Chunk, chunks: seq<Chunks.Chunk>)
    requires Chunks.WellFormed(c) && AllWellFormed(chunks)
    ensures AllWellFormed([c] + chunks)
    ensures EncodeChunks([c] + chunks) == Chunks.EncodeChunk(c) + EncodeChunks(chunks)
  {
    assert ([c] + chunks)[1..] == chunks;
  }

  /** `parse_chunks`: the signature, then one or more chunks (`many1`).
      A wrong or short signature fails with `Tag`. A stream whose first chunk
      cannot be framed fails with that chunk's own error, `Eof`: with the
      default error type, `many1` hands its first failure on. Otherwise the
      chunks are read up to the first one that cannot be framed, and that
      tail is left over. */
  function ParseChunks(input: seq<byte>): (r: ParseResult<seq<Chunks.Chunk>>)
    ensures r.Err? ==> r.error == Tag || r.error == Eof
    ensures r.Err? && r.error == Tag <==> |input| < 8 || input[..8] != Signature
    ensures r.Ok? <==> |input| >= 8 && input[..8] == Signature && Chunks.ParseChunk(input[8..]).Ok?
    ensures r.Ok? ==> |r.value.value| >= 1 && AllWellFormed(r.value.value)
    ensures r.Ok? ==> input == Signature + EncodeChunks(r.value.value) + r.value.rest
    ensures r.Ok? ==> Chunks.ParseChunk(r.value.rest).Err?
  {
    if |input| < 8 || input[..8] != Signature then Err(Tag)
    else
      var body := input[8..];
      var many := ManyChunks(body);
      ManyChunksFrame(body);
      if |many.value| == 0 then Err(Chunks.ParseChunk(body).error)
      else
        assert input == input[..8] + body;
        Associative(Signature, EncodeChunks(many.value), many.rest);
        Ok(many)
  }

  /** Encoding then framing: any non-empty run of well-formed chunks, written
      after the signature and followed by a tail that does not frame as a
      chunk, is read back as exactly those chunks and that tail. */
  lemma ParseEncodedChunks(chunks: seq<Chunks.Chunk>, rest: seq<byte>)
    requires |chunks| >= 1 && AllWellFormed(chunks)
    requires Chunks.ParseChunk(rest).Err?
    ensures ParseChunks(Signature + EncodeChunks(chunks) + rest) == Ok(Parsed(chunks, rest))
  {
    var body := EncodeChunks(chunks) + rest;
    Associative(Signature, EncodeChunks(chunks), rest);
    SignatureSplit(body);
    ManyEncodedChunks(chunks, rest);
  }

  lemma SignatureSplit(body: seq<byte>)
    ensures (Signature + body)[..8] == Signature && (Signature + body)[8..] == body
  {
  }

  lemma {:induction false} ManyEncodedChunks(chunks: seq<Chunks.Chunk>, rest: seq<byte>)
    requires AllWellFormed(chunks)
    requires Chunks.ParseChunk(rest).Err?
    ensures ManyChunks(EncodeChunks(chunks) + rest) == Parsed(chunks, rest)
    decreases |chunks|
  {
    if |chunks| > 0 {
      var c, cs := chunks[0], chunks[1..];
      assert chunks == [c] + cs;
      assert AllWellFormed(cs);
      EncodeChunksCons(c, cs);
      var tail := EncodeChunks(cs) + rest;
      Associative(Chunks.EncodeChunk(c), EncodeChunks(cs), rest);
      Chunks.ParseEncodeChunk(c, tail);
      ManyEncodedChunks(cs, rest);
      ManyStep(Chunks.EncodeChunk(c) + tail, c, tail, cs, rest);
    }
  }

  /** One step of `ManyChunks`: a framed chunk, then the chunks after it. */
  lemma ManyStep(input: seq<byte>, c: Chunks.Chunk, tail: seq<byte>, more: seq<Chunks.Chunk>, rest: seq<byte>)
    requires Chunks.ParseChunk(input) == Ok(Parsed(c, tail))
    requires ManyChunks(tail) == Parsed(more, rest)
    ensures ManyChunks(input) == Parsed([c] + more, rest)
  {
  }

  // ---------------------------------------------------------------------------
  // Scanlines

  /** A filtered scanline: its filter type and its bytes without the filter
      byte. */
  datatype Scanline = Scanline(filter: Filters.Filter, line: seq<byte>)

  /** The filter byte of scanline `k` in image data cut into `width`-byte
      scanlines. */
  function FilterByte(imageData: seq<byte>, width: nat, k: nat): byte
    requires width >= 1 && k * width + width <= |imageData|
  {
    imageData[k * width]
  }

  /** Scanline `k`: the filter its first byte names, and the `width - 1`
      bytes after it. */
  function ScanlineAt(imageData: seq<byte>, width: nat, k: nat): (s: Scanline)
    requires width >= 1 && k * width + width <= |imageData|
    requires FilterByte(imageData, width, k) <= 4
    ensures Filters.TryFromByte(FilterByte(imageData, width, k)) == Ok(s.filter)
    ensures |s.line| == width - 1
  {
    var start := k * width;
    var filter := Filters.TryFromByte(imageData[start]);
    Scanline(filter.value, imageData[start + 1..start + width])
  }

  /** The filtered form of a run of scanlines: each one's filter byte
      followed by its bytes. */
  function EncodeScanlines(lines: seq<Scanline>): (s: seq<byte>) {
    if |lines| == 0 then []
    else [Filters.Code(lines[0].filter)] + lines[0].line + EncodeScanlines(lines[1..])
  }

  /** All lines hold `width` bytes. */
  ghost predicate Uniform(lines: seq<Scanline>, width: nat) {
    forall k :: 0 <= k < |lines| ==> |lines[k].line| == width
  }

  /** The length of a filtered scanline for a header the decoder accepts. */
  function FullLineLength(h: ChunkDecoders.IHDRData): (r: nat)
    requires h.colorType != Colors.PLTE && ChunkDecoders.ScanlineFits(h)
    ensures r >= 1
    ensures r == 1 + BytesPerPixel(h) * h.width
  {
    var n := ChunkDecoders.ScanlineWidth(h);
    assert n == 1 + h.width * Colors.Channels(h.colorType) * ChunkDecoders.BytesPerChannel(h.bitDepth);
    assert h.width * Colors.Channels(h.colorType) * ChunkDecoders.BytesPerChannel(h.bitDepth)
        == BytesPerPixel(h) * h.width;
    n
  }

  /** Every scanline of the image data starts with a valid filter code (the
      source stops with "Incorrect filter type" otherwise). */
  predicate FilterBytesValid(h: ChunkDecoders.IHDRData, imageData: seq<byte>)
    requires h.colorType != Colors.PLTE && ChunkDecoders.ScanlineFits(h)
    requires |imageData| == h.height * FullLineLength(h)
  {
    FilterCodesValid(imageData, FullLineLength(h), h.height)
  }

  /** Each of the `height` scanlines of `width` bytes names a valid filter. */
  predicate FilterCodesValid(imageData: seq<byte>, width: nat, height: nat)
    requires width >= 1 && |imageData| == height * width
  {
    forall k: nat :: k < height ==> FilterLimit(imageData, width, k, height)
  }

  /** Scanline `k` of `height` names a valid filter. */
  predicate FilterLimit(imageData: seq<byte>, width: nat, k: nat, height: nat)
    requires width >= 1 && |imageData| == height * width && k < height
  {
    WithinRows(k, height, width);
    FilterByte(imageData, width, k) <= 4
  }

  /** Row `k` of `height` rows of `width` bytes lies inside them. */
  lemma WithinRows(k: nat, height: nat, width: nat)
    requires k < height
    ensures k * width + width <= height * width
  {
    MulLe(k + 1, height, width);
  }

  lemma MulLe(a: nat, b: nat, c: nat)
    requires a <= b
    ensures a * c <= b * c
  {
  }

  /** The `height` scanlines of `width` bytes, in order. */
  function Cut(imageData: seq<byte>, width: nat, height: nat): (lines: seq<Scanline>)
    requires width >= 1 && |imageData| == height * width
    requires FilterCodesValid(imageData, width, height)
  {
    seq(height, k requires 0 <= k < height =>
      WithinRows(k, height, width);
      assert FilterLimit(imageData, width, k, height);
      ScanlineAt(imageData, width, k))
  }

  /** `get_scanlines`: the image data is cut into `height` scanlines of
      `1 + width * channels * bytes_per_channel` bytes; scanline `k` is the
      filter named by byte `k * L` and the `L - 1` bytes after it. The source
      panics on a palette image, on a `u32` overflow of the line length, on a
      length mismatch and on an invalid filter code; those are the
      preconditions here. */
  function GetScanlines(h: ChunkDecoders.IHDRData, imageData: seq<byte>): (lines: seq<Scanline>)
    requires h.colorType != Colors.PLTE
    requires ChunkDecoders.ScanlineFits(h)
    requires |imageData| == h.height * FullLineLength(h)
    requires FilterBytesValid(h, imageData)
    ensures |lines| == h.height
    ensures Uniform(lines, BytesPerPixel(h) * h.width)
    ensures EncodeScanlines(lines) == imageData
  {
    var width := FullLineLength(h);
    CutEncodes(imageData, width, h.height);
    Cut(imageData, width, h.height)
  }

  /** Cutting image data into scanlines and writing them back is the
      identity. */
  lemma CutEncodes(imageData: seq<byte>, width: nat, height: nat)
    requires width >= 1 && |imageData| == height * width
    requires FilterCodesValid(imageData, width, height)
    ensures var lines := Cut(imageData, width, height);
      |lines| == height && Uniform(lines, width - 1) && EncodeScanlines(lines) == imageData
  {
    var lines := Cut(imageData, width, height);
    forall k | 0 <= k < height ensures RowIs(imageData, width, lines, k) {
      WithinRows(k, height, width);
      assert FilterLimit(imageData, width, k, height);
    }
    EncodeOfScanlines(imageData, width, lines);
  }

  /** Scanlines that are the rows of `imageData`, written out, are
      `imageData`. */
  lemma {:induction false} EncodeOfScanlines(imageData: seq<byte>, width: nat, lines: seq<Scanline>)
    requires width >= 1 && |imageData| == |lines| * width
    requires RowsOf(imageData, width, lines)
    ensures EncodeScanlines(lines) == imageData
    decreases |lines|
  {
    if |lines| > 0 {
      var tail := imageData[width..];
      RowsOfTail(imageData, width, lines);
      EncodeOfScanlines(tail, width, lines[1..]);
      FirstRow(imageData, width, lines);
    }
  }

  /** `lines` are the rows of `imageData`, one per `width` bytes. */
  ghost predicate RowsOf(imageData: seq<byte>, width: nat, lines: seq<Scanline>) {
    forall k :: 0 <= k < |lines| ==> RowIs(imageData, width, lines, k)
  }

  /** Line `k` is row `k` of `imageData`. */
  ghost predicate RowIs(imageData: seq<byte>, width: nat, lines: seq<Scanline>, k: nat) {
    && width >= 1 && k < |lines| && k * width + width <= |imageData|
    && FilterByte(imageData, width, k) <= 4 && lines[k] == ScanlineAt(imageData, width, k)
  }

  lemma RowsOfTail(imageData: seq<byte>, width: nat, lines: seq<Scanline>)
    requires |lines| > 0 && |imageData| == |lines| * width && width >= 1
    requires RowsOf(imageData, width, lines)
    ensures |imageData[width..]| == (|lines| - 1) * width
    ensures RowsOf(imageData[width..], width, lines[1..])
  {
    var tail := imageData[width..];
    forall k | 0 <= k < |lines| - 1 ensures RowIs(tail, width, lines[1..], k) {
      assert RowIs(imageData, width, lines, k + 1);
      ShiftRow(imageData, width, k);
    }
  }

  lemma FirstRow(imageData: seq<byte>, width: nat, lines: seq<Scanline>)
    requires |lines| > 0 && |imageData| == |lines| * width && width >= 1
    requires RowsOf(imageData, width, lines)
    requires EncodeScanlines(lines[1..]) == imageData[width..]
    ensures EncodeScanlines(lines) == imageData
  {
    assert RowIs(imageData, width, lines, 0);
    var s := ScanlineAt(imageData, width, 0);
    Filters.CodeRoundTrip(s.filter);
    assert imageData == [imageData[0]] + imageData[1..width] + imageData[width..];
  }

  /** Dropping the first row shifts every row index down by one. */
  lemma ShiftRow(imageData: seq<byte>, width: nat, k: nat)
    requires width >= 1 && (k + 1) * width + width <= |imageData|
    requires FilterByte(imageData, width, k + 1) <= 4
    ensures var tail := imageData[width..];
      && k * width + width <= |tail|
      && FilterByte(tail, width, k) == FilterByte(imageData, width, k + 1)
      && ScanlineAt(tail, width, k) == ScanlineAt(imageData, width, k + 1)
  {
    assert (k + 1) * width == k * width + width;
    var tail := imageData[width..];
    assert tail[k * width + 1..k * width + width] == imageData[(k + 1) * width + 1..(k + 1) * width + width];
  }

  /** Writing scanlines out and cutting them again gives them back. */
  lemma GetScanlinesOfEncode(h: ChunkDecoders.IHDRData, lines: seq<Scanline>)
    requires h.colorType != Colors.PLTE && ChunkDecoders.ScanlineFits(h)
    requires |lines| == h.height && Uniform(lines, BytesPerPixel(h) * h.width)
    ensures |EncodeScanlines(lines)| == h.height * FullLineLength(h)
    ensures FilterBytesValid(h, EncodeScanlines(lines))
    ensures GetScanlines(h, EncodeScanlines(lines)) == lines
  {
    var width := FullLineLength(h);
    var data := EncodeScanlines(lines);
    EncodedLength(lines, width);
    forall k: nat | k < h.height ensures FilterLimit(data, width, k, h.height) {
      WithinRows(k, h.height, width);
      EncodedRow(lines, width, k);
    }
    assert FilterCodesValid(data, width, h.height);
    var got := GetScanlines(h, data);
    forall k | 0 <= k < h.height ensures got[k] == lines[k] {
      EncodedRow(lines, width, k);
      Filters.CodeRoundTrip(lines[k].filter);
    }
  }

  lemma {:induction false} EncodedLength(lines: seq<Scanline>, width: nat)
    requires width >= 1 && Uniform(lines, width - 1)
    ensures |EncodeScanlines(lines)| == |lines| * width
    decreases |lines|
  {
    if |lines| > 0 {
      EncodedLength(lines[1..], width);
    }
  }

  /** Row `k` of the written-out scanlines is scanline `k`, filter byte first. */
  lemma EncodedRow(lines: seq<Scanline>, width: nat, k: nat)
    requires width >= 1 && Uniform(lines, width - 1) && k < |lines|
    ensures k * width + width <= |EncodeScanlines(lines)|
    ensures EncodeScanlines(lines)[k * width] == Filters.Code(lines[k].filter)
    ensures EncodeScanlines(lines)[k * width + 1..k * width + width] == lines[k].line
  {
    RowStartIsProduct(k, width);
    EncodedRowAt(lines, width, k);
  }

  /** The offset of row `k`, counted up row by row. */
  function RowStart(k: nat, width: nat): nat {
    if k == 0 then 0 else RowStart(k - 1, width) + width
  }

  lemma {:induction false} RowStartIsProduct(k: nat, width: nat)
    ensures RowStart(k, width) == k * width
  {
    if k > 0 {
      RowStartIsProduct(k - 1, width);
    }
  }

  /** `EncodedRow` with the row's offset counted up row by row. */
  lemma {:induction false} EncodedRowAt(lines: seq<Scanline>, width: nat, k: nat)
    requires width >= 1 && Uniform(lines, width - 1) && k < |lines|
    ensures RowStart(k, width) + width <= |EncodeScanlines(lines)|
    ensures EncodeScanlines(lines)[RowStart(k, width)] == Filters.Code(lines[k].filter)
    ensures EncodeScanlines(lines)[RowStart(k, width) + 1..RowStart(k, width) + width] == lines[k].line
    decreases k
  {
    var head := [Filters.Code(lines[0].filter)] + lines[0].line;
    var tail := EncodeScanlines(lines[1..]);
    assert EncodeScanlines(lines) == head + tail;
    if k > 0 {
      assert Uniform(lines[1..], width - 1);
      var prev := RowStart(k - 1, width);
      var row := lines[1..][k - 1];
      assert row == lines[k];
      EncodedRowAt(lines[1..], width, k - 1);
      assert tail[prev] == Filters.Code(row.filter) && tail[prev + 1..prev + width] == row.line;
      RowAfterHead(head, tail, width, prev, prev + width, Filters.Code(row.filter), row.line);
    } else {
      assert head[1..width] == lines[0].line;
      EncodedLength(lines[1..], width);
      SliceOfHead(head, tail, 1, width);
    }
  }

  lemma SliceOfHead(head: seq<byte>, tail: seq<byte>, a: nat, b: nat)
    requires a <= b <= |head|
    ensures (head + tail)[a..b] == head[a..b]
  {
  }

  /** The row at `prev` in `tail` is the row at `prev + width` in
      `head + tail` when `head` is one row long. */
  lemma RowAfterHead(head: seq<byte>, tail: seq<byte>, width: nat, prev: nat, start: nat, code: byte, line: seq<byte>)
    requires |head| == width && width >= 1 && start == prev + width
    requires prev + width <= |tail|
    requires tail[prev] == code
    requires tail[prev + 1..prev + width] == line
    ensures start + width <= |head + tail|
    ensures (head + tail)[start] == code
    ensures (head + tail)[start + 1..start + width] == line
  {
    SliceOfConcat(head, tail, start + 1, start + width);
    IndexOfConcat(head, tail, start);
  }

  lemma IndexOfConcat(head: seq<byte>, tail: seq<byte>, i: nat)
    requires |head| <= i < |head| + |tail|
    ensures (head + tail)[i] == tail[i - |head|]
  {
  }

  lemma SliceOfConcat(head: seq<byte>, tail: seq<byte>, a: nat, b: nat)
    requires |head| <= a <= b <= |head| + |tail|
    ensures (head + tail)[a..b] == tail[a - |head|..b - |head|]
  {
  }

  // ---------------------------------------------------------------------------
  // Reconstruction of the pixel buffer

  /** `bytes_per_channel * channels`: the bytes of one pixel. */
  function BytesPerPixel(h: ChunkDecoders.IHDRData): (bpp: nat)
    requires h.colorType != Colors.PLTE
    ensures 1 <= bpp <= 4 * 31
  {
    ChunkDecoders.BytesPerChannel(h.bitDepth) * Colors.Channels(h.colorType)
  }

  /** The row above the next one: the last `width` bytes reconstructed so
      far, or zeros before the first row. */
  function Above(done: seq<byte>, width: nat): (p: seq<byte>)
    requires |done| == 0 || |done| >= width
    ensures |p| == width
  {
    if |done| == 0 then Filters.Zeros(width) else done[|done| - width..]
  }

  /** The reconstructed image, rows top to bottom: each scanline undone
      against the reconstructed row above it (zeros above the first). */
  function Reconstruct(bpp: nat, width: nat, lines: seq<Scanline>): (image: seq<byte>)
    requires bpp >= 1 && Uniform(lines, width)
    ensures |image| == |lines| * width
    decreases |lines|
  {
    if |lines| == 0 then []
    else
      var n := |lines| - 1;
      assert Uniform(lines[..n], width);
      var done := Reconstruct(bpp, width, lines[..n]);
      NextRow(n, width);
      done + Filters.Recon(lines[n].filter, bpp, Above(done, width), lines[n].line)
  }

  /** One more row of `width` bytes. */
  lemma NextRow(n: nat, width: nat)
    ensures (n + 1) * width == n * width + width
    ensures n == 0 || n * width >= width
  {
    if n > 0 { MulLe(1, n, width); }
  }

  /** Filtering a raw image row by row, each row against the raw row above
      it, with the filter types chosen in `filters` (the encoder's side). */
  function FilterImage(bpp: nat, width: nat, filters: seq<Filters.Filter>, raw: seq<byte>): (lines: seq<Scanline>)
    requires bpp >= 1 && |raw| == |filters| * width
    ensures |lines| == |filters| && Uniform(lines, width)
    decreases |filters|
  {
    if |filters| == 0 then []
    else
      var n := |filters| - 1;
      var done := raw[..n * width];
      var row := raw[n * width..];
      FilterImage(bpp, width, filters[..n], done)
        + [Scanline(filters[n], Filters.FilterRow(filters[n], bpp, Above(done, width), row))]
  }

  /** Reconstruction undoes filtering, for every choice of filter types. */
  lemma {:induction false} ReconstructOfFilterImage(bpp: nat, width: nat, filters: seq<Filters.Filter>, raw: seq<byte>)
    requires bpp >= 1 && |raw| == |filters| * width
    ensures Reconstruct(bpp, width, FilterImage(bpp, width, filters, raw)) == raw
    decreases |filters|
  {
    if |filters| > 0 {
      var n := |filters| - 1;
      NextRow(n, width);
      var done := raw[..n * width];
      var row := raw[n * width..];
      var front := FilterImage(bpp, width, filters[..n], done);
      var last := Scanline(filters[n], Filters.FilterRow(filters[n], bpp, Above(done, width), row));
      var lines := FilterImage(bpp, width, filters, raw);
      assert lines == front + [last];
      ReconstructOfFilterImage(bpp, width, filters[..n], done);
      ReconstructSnoc(bpp, width, lines, front, last);
      Filters.ReconOfFilterRow(filters[n], bpp, Above(done, width), row);
      SplitAt(raw, n * width);
    }
  }

  lemma SplitAt(s: seq<byte>, i: nat)
    requires i <= |s|
    ensures s == s[..i] + s[i..]
  {
  }

  /** Reconstructing one more scanline appends its row. */
  lemma ReconstructSnoc(bpp: nat, width: nat, lines: seq<Scanline>, front: seq<Scanline>, last: Scanline)
    requires bpp >= 1 && Uniform(lines, width) && lines == front + [last]
    ensures Uniform(front, width) && |last.line| == width
    ensures var done := Reconstruct(bpp, width, front);
      Reconstruct(bpp, width, lines) == done + Filters.Recon(last.filter, bpp, Above(done, width), last.line)
  {
    assert lines[..|lines| - 1] == front;
    assert lines[|lines| - 1] == last;
  }

  /** Row `k` of the reconstruction is scanline `k` undone against row
      `k - 1` (or zeros). */
  lemma RowOfReconstruct(bpp: nat, width: nat, lines: seq<Scanline>, k: nat, done: seq<byte>, row: seq<byte>)
    requires bpp >= 1 && Uniform(lines, width) && k < |lines|
    requires done == Reconstruct(bpp, width, lines[..k])
    requires row == Filters.Recon(lines[k].filter, bpp, Above(done, width), lines[k].line)
    ensures Uniform(lines[..k + 1], width)
    ensures Reconstruct(bpp, width, lines[..k + 1]) == done + row
  {
    assert lines[..k + 1][..k] == lines[..k];
  }

  /** The decoder a filter type selects, as in the `match` of `unfilter`:
      it reconstructs `line` into the window at `lineStart`, against the
      `|line|` bytes before it (zeros when `lineStart == 0`). */
  method DecodeRow(bpp: nat, s: Scanline, lineStart: nat, data: array<byte>) returns (next: nat)
    requires bpp >= 1
    requires lineStart + |s.line| <= data.Length
    requires lineStart == 0 || lineStart >= |s.line|
    modifies data
    ensures next == lineStart + |s.line|
    ensures data[lineStart..next] == Filters.Recon(s.filter, bpp, Filters.Prior(old(data[..]), lineStart, |s.line|), s.line)
    ensures Filters.SameOutside(data[..], old(data[..]), lineStart, next)
  {
    ghost var prior := Filters.Prior(data[..], lineStart, |s.line|);
    var line := s.line;
    if s.filter == Filters.None {
      next := Filters.DecodeNone(line, lineStart, data);
      Filters.ReconNone(bpp, prior, line);
    } else if s.filter == Filters.Sub {
      next := Filters.DecodeSub(bpp, line, lineStart, data);
      Filters.ReconSubIgnoresPrior(bpp, prior, line);
    } else if s.filter == Filters.Up {
      next := Filters.DecodeUp(line, lineStart, data);
      assert data[lineStart..next] == Filters.Recon(Filters.Up, bpp, prior, line) by {
        forall i | 0 <= i < |line|
          ensures data[lineStart..next][i] == Filters.Recon(Filters.Up, bpp, prior, line)[i]
        {
          Filters.ReconUp(bpp, prior, line, i);
        }
      }
    } else if s.filter == Filters.Average {
      next := Filters.DecodeAverage(bpp, line, lineStart, data);
    } else {
      next := Filters.DecodePaeth(bpp, line, lineStart, data);
    }
  }

  /** The decoded image (`Png`). */
  datatype Png = Png(width: nat, height: nat, colorType: Colors.ColorType, bytesPerPixel: nat, data: seq<byte>)

  /** `unfilter`: a zeroed buffer of `bpp * width * height` bytes is filled
      row by row, top to bottom, each scanline decoded in place at
      `k * bpp * width` against the row already written above it. The result
      is the reconstruction of the scanlines, with PNG's Average on the first
      row (`UnfilterAsWritten` is the code as written), and its colour type is
      always reported as RGBA. The source panics on a palette image and when the
      number of scanlines is not the header's height. */
  method Unfilter(h: ChunkDecoders.IHDRData, scanlines: seq<Scanline>) returns (png: Png)
    requires h.colorType != Colors.PLTE
    requires h.height == |scanlines|
    requires Uniform(scanlines, BytesPerPixel(h) * h.width)
    ensures png.width == h.width && png.height == h.height
    ensures png.colorType == Colors.RGBA
    ensures png.bytesPerPixel == BytesPerPixel(h)
    ensures |png.data| == png.bytesPerPixel * png.width * png.height
    ensures png.data == Reconstruct(BytesPerPixel(h), BytesPerPixel(h) * h.width, scanlines)
  {
    var width := h.width;
    var height := h.height;
    var bpp := BytesPerPixel(h);
    Area(bpp, width, height);
    var lineWidth: nat := bpp * width;
    var data := new byte[bpp * width * height](_ => 0);
    ReconstructRows(bpp, lineWidth, scanlines, data);
    png := Png(width, height, Colors.RGBA, bpp, data[..]);
  }

  /** The fold of `unfilter` over the scanlines, top to bottom, each decoded
      at `k * lineWidth`. */
  method ReconstructRows(bpp: nat, lineWidth: nat, scanlines: seq<Scanline>, data: array<byte>)
    requires bpp >= 1 && Uniform(scanlines, lineWidth)
    requires data.Length == |scanlines| * lineWidth
    modifies data
    ensures data[..] == Reconstruct(bpp, lineWidth, scanlines)
  {
    var lineStart := 0;
    var k := 0;
    while k < |scanlines|
      invariant 0 <= k <= |scanlines|
      invariant lineStart == RowStart(k, lineWidth)
      invariant lineStart <= data.Length
      invariant data[..lineStart] == Reconstruct(bpp, lineWidth, scanlines[..k])
    {
      RowFits(k, |scanlines|, lineWidth);
      lineStart := UnfilterRow(bpp, lineWidth, scanlines, k, lineStart, data);
      k := k + 1;
    }
    RowStartIsProduct(k, lineWidth);
    assert scanlines[..k] == scanlines;
    assert data[..lineStart] == data[..];
  }

  /** Row `k` of `height` rows ends inside the buffer. */
  lemma RowFits(k: nat, height: nat, width: nat)
    requires k < height
    ensures RowStart(k, width) + width <= height * width
  {
    RowStartIsProduct(k, width);
    WithinRows(k, height, width);
  }

  /** The buffer holds `height` rows of `bpp * width` bytes. */
  lemma Area(bpp: nat, width: nat, height: nat)
    ensures bpp * width >= 0 && bpp * width * height >= 0
    ensures bpp * width * height == height * (bpp * width)
    ensures 0 * (bpp * width) == 0
  {
  }

  /** One step of the fold in `unfilter`: scanline `k` is decoded at
      `k * lineWidth`, below the `k` rows already reconstructed. */
  method UnfilterRow(bpp: nat, lineWidth: nat, scanlines: seq<Scanline>, k: nat, lineStart: nat, data: array<byte>)
    returns (next: nat)
    requires bpp >= 1 && Uniform(scanlines, lineWidth) && k < |scanlines|
    requires lineStart == RowStart(k, lineWidth) && data.Length == |scanlines| * lineWidth
    requires lineStart + lineWidth <= data.Length
    requires data[..lineStart] == Reconstruct(bpp, lineWidth, scanlines[..k])
    modifies data
    ensures next == lineStart + lineWidth && next == RowStart(k + 1, lineWidth)
    ensures data[..next] == Reconstruct(bpp, lineWidth, scanlines[..k + 1])
  {
    RowStartIsProduct(k, lineWidth);
    WithinRows(k, |scanlines|, lineWidth);
    NextRow(k, lineWidth);
    ghost var before := data[..];
    ghost var done := Reconstruct(bpp, lineWidth, scanlines[..k]);
    PriorIsAbove(before, lineStart, lineWidth, done);
    var s := scanlines[k];
    assert |s.line| == lineWidth;
    next := DecodeRow(bpp, s, lineStart, data);
    ghost var row := Filters.Recon(s.filter, bpp, Above(done, lineWidth), s.line);
    assert data[lineStart..next] == row;
    PrefixAfterRow(before, data[..], lineStart, next);
    assert data[..next] == done + row;
    RowOfReconstruct(bpp, lineWidth, scanlines, k, done, row);
  }

  /** The decoders' view of the row above is the last reconstructed row. */
  lemma PriorIsAbove(data: seq<byte>, lineStart: nat, width: nat, done: seq<byte>)
    requires lineStart <= |data| && data[..lineStart] == done
    requires lineStart == 0 || lineStart >= width
    ensures Filters.Prior(data, lineStart, width) == Above(done, width)
  {
  }

  /** Writing a window at the end of a prefix extends the prefix. */
  lemma PrefixAfterRow(before: seq<byte>, after: seq<byte>, lo: nat, hi: nat)
    requires lo <= hi <= |after| && Filters.SameOutside(after, before, lo, hi)
    ensures after[..hi] == before[..lo] + after[lo..hi]
  {
    assert after[..lo] == before[..lo];
  }

  // ---------------------------------------------------------------------------
  // Reconstruction as the code is written

  /** The row the fold of `unfilter` writes for `s` below `done`, as the code
      is written: at line start 0, `decode_average` adds the whole left byte,
      which is the Sub reconstruction; every other case is `Recon`. */
  function RowAsWritten(bpp: nat, width: nat, done: seq<byte>, s: Scanline): (row: seq<byte>)
    requires bpp >= 1 && |s.line| == width && (|done| == 0 || |done| >= width)
    ensures |row| == width
  {
    if |done| == 0 && s.filter == Filters.Average then Filters.Recon(Filters.Sub, bpp, Filters.Zeros(width), s.line)
    else Filters.Recon(s.filter, bpp, Above(done, width), s.line)
  }

  /** The image the fold of `unfilter` produces as the code is written: rows
      top to bottom, each one `RowAsWritten` below the rows before it. */
  function ReconstructAsWritten(bpp: nat, width: nat, lines: seq<Scanline>): (image: seq<byte>)
    requires bpp >= 1 && Uniform(lines, width)
    ensures |image| == |lines| * width
    decreases |lines|
  {
    if |lines| == 0 then []
    else
      var n := |lines| - 1;
      assert Uniform(lines[..n], width);
      var done := ReconstructAsWritten(bpp, width, lines[..n]);
      NextRow(n, width);
      done + RowAsWritten(bpp, width, done, lines[n])
  }

  /** The code as written and the reconstruction agree on every image whose
      first scanline is not Average-filtered: only that scanline is decoded
      differently (below it, line start 0 means an empty row). */
  lemma {:induction false} AsWrittenAgrees(bpp: nat, width: nat, lines: seq<Scanline>)
    requires bpp >= 1 && Uniform(lines, width)
    requires |lines| == 0 || lines[0].filter != Filters.Average
    ensures ReconstructAsWritten(bpp, width, lines) == Reconstruct(bpp, width, lines)
    decreases |lines|
  {
    if |lines| > 0 {
      var n := |lines| - 1;
      var front := lines[..n];
      assert Uniform(front, width);
      if n > 0 {
        assert front[0] == lines[0];
      }
      AsWrittenAgrees(bpp, width, front);
      var done := Reconstruct(bpp, width, front);
      NextRow(n, width);
      var s := lines[n];
      if |done| == 0 && s.filter == Filters.Average {
        assert n > 0;
        assert width == 0 by {
          MulLe(1, n, width);
        }
        assert RowAsWritten(bpp, width, done, s) == [];
      }
      assert RowAsWritten(bpp, width, done, s) == Filters.Recon(s.filter, bpp, Above(done, width), s.line);
    }
  }

  /** An image of one Average-filtered scanline: the code as written undoes
      it as Sub, while the reconstruction undoes it as Average, both against
      zeros. */
  lemma AverageOneRow(bpp: nat, width: nat, s: Scanline)
    requires bpp >= 1 && |s.line| == width && s.filter == Filters.Average
    ensures Uniform([s], width)
    ensures ReconstructAsWritten(bpp, width, [s]) == Filters.Recon(Filters.Sub, bpp, Filters.Zeros(width), s.line)
    ensures Reconstruct(bpp, width, [s]) == Filters.Recon(Filters.Average, bpp, Filters.Zeros(width), s.line)
  {
    assert [s][..0] == [];
  }

  /** On a first scanline that is Average-filtered, the code as written
      decodes the Average-filtered row [10, 5], that is [10, 0], to
      [10, 10]; the reconstruction gives [10, 5] back. */
  lemma AverageFirstRowUnfilterDiffers()
    ensures Uniform([Scanline(Filters.Average, [10, 0])], 2)
    ensures ReconstructAsWritten(1, 2, [Scanline(Filters.Average, [10, 0])]) == [10, 10]
    ensures Reconstruct(1, 2, [Scanline(Filters.Average, [10, 0])]) == [10, 5]
  {
    AverageOneRow(1, 2, Scanline(Filters.Average, [10, 0]));
    Filters.AverageFirstRowAsWrittenIsWrong();
  }

  /** The decoder the filter type selects, as `unfilter` calls them: the
      Average scanline at line start 0 goes to `decode_average` as written,
      which decodes it as Sub; every other case is `DecodeRow`. */
  method DecodeRowAsWritten(bpp: nat, s: Scanline, lineStart: nat, data: array<byte>) returns (next: nat)
    requires bpp >= 1
    requires lineStart + |s.line| <= data.Length
    requires lineStart == 0 || lineStart >= |s.line|
    modifies data
    ensures next == lineStart + |s.line|
    ensures lineStart == 0 && s.filter == Filters.Average ==>
      data[lineStart..next] == Filters.Recon(Filters.Sub, bpp, Filters.Zeros(|s.line|), s.line)
    ensures !(lineStart == 0 && s.filter == Filters.Average) ==>
      data[lineStart..next] == Filters.Recon(s.filter, bpp, Filters.Prior(old(data[..]), lineStart, |s.line|), s.line)
    ensures Filters.SameOutside(data[..], old(data[..]), lineStart, next)
  {
    if s.filter == Filters.Average {
      next := Filters.DecodeAverageAsWritten(bpp, s.line, lineStart, data);
    } else {
      next := DecodeRow(bpp, s, lineStart, data);
    }
  }

  /** `unfilter` as the code is written: the same zeroed buffer and the same
      fold as `Unfilter`, with `decode_average` as written. The result is
      `ReconstructAsWritten` of the scanlines. */
  method UnfilterAsWritten(h: ChunkDecoders.IHDRData, scanlines: seq<Scanline>) returns (png: Png)
    requires h.colorType != Colors.PLTE
    requires h.height == |scanlines|
    requires Uniform(scanlines, BytesPerPixel(h) * h.width)
    ensures png.width == h.width && png.height == h.height
    ensures png.colorType == Colors.RGBA
    ensures png.bytesPerPixel == BytesPerPixel(h)
    ensures |png.data| == png.bytesPerPixel * png.width * png.height
    ensures png.data == ReconstructAsWritten(BytesPerPixel(h), BytesPerPixel(h) * h.width, scanlines)
  {
    var width := h.width;
    var height := h.height;
    var bpp := BytesPerPixel(h);
    Area(bpp, width, height);
    var lineWidth: nat := bpp * width;
    var data := new byte[bpp * width * height](_ => 0);
    ReconstructRowsAsWritten(bpp, lineWidth, scanlines, data);
    png := Png(width, height, Colors.RGBA, bpp, data[..]);
  }

  /** The fold of `unfilter` as the code is written. */
  method ReconstructRowsAsWritten(bpp: nat, lineWidth: nat, scanlines: seq<Scanline>, data: array<byte>)
    requires bpp >= 1 && Uniform(scanlines, lineWidth)
    requires data.Length == |scanlines| * lineWidth
    modifies data
    ensures data[..] == ReconstructAsWritten(bpp, lineWidth, scanlines)
  {
    var lineStart := 0;
    var k := 0;
    while k < |scanlines|
      invariant 0 <= k <= |scanlines|
      invariant lineStart == RowStart(k, lineWidth)
      invariant lineStart <= data.Length
      invariant data[..lineStart] == ReconstructAsWritten(bpp, lineWidth, scanlines[..k])
    {
      RowFits(k, |scanlines|, lineWidth);
      lineStart := UnfilterRowAsWritten(bpp, lineWidth, scanlines, k, lineStart, data);
      k := k + 1;
    }
    RowStartIsProduct(k, lineWidth);
    assert scanlines[..k] == scanlines;
    assert data[..lineStart] == data[..];
  }

  /** One step of the fold of `unfilter` as the code is written: scanline
      `k` is decoded at `k * lineWidth` and extends the `k` rows above it by
      `RowAsWritten`. */
  method UnfilterRowAsWritten(bpp: nat, lineWidth: nat, scanlines: seq<Scanline>, k: nat, lineStart: nat,
                              data: array<byte>)
    returns (next: nat)
    requires bpp >= 1 && Uniform(scanlines, lineWidth) && k < |scanlines|
    requires lineStart == RowStart(k, lineWidth) && data.Length == |scanlines| * lineWidth
    requires lineStart + lineWidth <= data.Length
    requires data[..lineStart] == ReconstructAsWritten(bpp, lineWidth, scanlines[..k])
    modifies data
    ensures next == lineStart + lineWidth && next == RowStart(k + 1, lineWidth)
    ensures data[..next] == ReconstructAsWritten(bpp, lineWidth, scanlines[..k + 1])
  {
    RowStartIsProduct(k, lineWidth);
    WithinRows(k, |scanlines|, lineWidth);
    NextRow(k, lineWidth);
    ghost var before := data[..];
    ghost var done := ReconstructAsWritten(bpp, lineWidth, scanlines[..k]);
    PriorIsAbove(before, lineStart, lineWidth, done);
    var s := scanlines[k];
    assert |s.line| == lineWidth;
    next := DecodeRowAsWritten(bpp, s, lineStart, data);
    ghost var row := RowAsWritten(bpp, lineWidth, done, s);
    assert data[lineStart..next] == row;
    PrefixAfterRow(before, data[..], lineStart, next);
    assert data[..next] == done + row;
    assert scanlines[..k + 1][..k] == scanlines[..k];
  }

  // ---------------------------------------------------------------------------
  // Pixel access

  /** Where `Png::get` starts reading pixel `(x, y)`: `y` rows of
      `bytes_per_pixel * width` bytes, then `x` pixels. */
  function Start(png: Png, x: nat, y: nat): nat {
    y * (png.bytesPerPixel * png.width) + x * png.bytesPerPixel
  }

  /** `Png::get`: the `bytes_per_pixel` bytes of pixel `(x, y)`. The source
      panics when the slice runs past the buffer. */
  function Get(png: Png, x: nat, y: nat): (pixel: seq<byte>)
    requires Start(png, x, y) + png.bytesPerPixel <= |png.data|
    ensures |pixel| == png.bytesPerPixel
  {
    var start := Start(png, x, y);
    png.data[start..start + png.bytesPerPixel]
  }

  /** A decoded image: `height` rows of `width` pixels. */
  ghost predicate Complete(png: Png) {
    |png.data| == png.bytesPerPixel * png.width * png.height
  }

  /** Pixel `(x, y)` is pixel number `y * width + x` in raster order. */
  function PixelIndex(png: Png, x: nat, y: nat): nat {
    (y * png.width + x) * png.bytesPerPixel
  }

  /** Every pixel inside a complete image can be read, and `get` returns
      the bytes of pixel number `y * width + x`. */
  lemma GetPixel(png: Png, x: nat, y: nat)
    requires Complete(png) && x < png.width && y < png.height
    ensures Start(png, x, y) == PixelIndex(png, x, y)
    ensures Start(png, x, y) + png.bytesPerPixel <= |png.data|
    ensures Get(png, x, y) == png.data[PixelIndex(png, x, y)..PixelIndex(png, x, y) + png.bytesPerPixel]
  {
    var b, w := png.bytesPerPixel, png.width;
    PixelOffset(b, w, x, y);
    PixelInside(b, w, png.height, x, y);
  }

  lemma PixelOffset(bpp: nat, width: nat, x: nat, y: nat)
    ensures y * (bpp * width) + x * bpp == (y * width + x) * bpp
  {
  }

  lemma PixelInside(bpp: nat, width: nat, height: nat, x: nat, y: nat)
    requires x < width && y < height
    ensures (y * width + x) * bpp + bpp <= bpp * width * height
  {
    assert y * width + x + 1 <= height * width by {
      assert y * width + width == (y + 1) * width;
      MulLe(y + 1, height, width);
    }
    MulLe(y * width + x + 1, height * width, bpp);
    assert (y * width + x + 1) * bpp == (y * width + x) * bpp + bpp;
    assert height * width * bpp == bpp * width * height;
  }

  // ---------------------------------------------------------------------------
  // A worked example

  /** A 2-by-2 8-bit grey image: a None scanline [10, 20] and an Up scanline
      [5, 5] are cut from the image data and reconstructed as [10, 20, 15, 25]. */
  lemma TwoByTwoGray()
    ensures var h := ChunkDecoders.IHDRData(2, 2, 8, Colors.Gray, 0, 0, 0);
      && ChunkDecoders.ScanlineFits(h) && FullLineLength(h) == 3
      && BytesPerPixel(h) == 1
      && FilterBytesValid(h, [0, 10, 20, 2, 5, 5])
      && GetScanlines(h, [0, 10, 20, 2, 5, 5]) == [Scanline(Filters.None, [10, 20]), Scanline(Filters.Up, [5, 5])]
      && Reconstruct(1, 2, GetScanlines(h, [0, 10, 20, 2, 5, 5])) == [10, 20, 15, 25]
  {
    TwoByTwoScanlines();
    TwoByTwoRows();
  }

  lemma TwoByTwoScanlines()
    ensures var h := ChunkDecoders.IHDRData(2, 2, 8, Colors.Gray, 0, 0, 0);
      && ChunkDecoders.ScanlineFits(h) && FullLineLength(h) == 3
      && FilterBytesValid(h, [0, 10, 20, 2, 5, 5])
      && GetScanlines(h, [0, 10, 20, 2, 5, 5]) == [Scanline(Filters.None, [10, 20]), Scanline(Filters.Up, [5, 5])]
  {
    var h := ChunkDecoders.IHDRData(2, 2, 8, Colors.Gray, 0, 0, 0);
    var data: seq<byte> := [0, 10, 20, 2, 5, 5];
    assert FullLineLength(h) == 3;
    assert FilterLimit(data, 3, 0, 2) && FilterLimit(data, 3, 1, 2);
    assert FilterCodesValid(data, 3, 2);
    var got := GetScanlines(h, data);
    assert data[1..3] == [10, 20] && data[4..6] == [5, 5];
    assert got[0] == ScanlineAt(data, 3, 0) == Scanline(Filters.None, [10, 20]);
    assert got[1] == ScanlineAt(data, 3, 1) == Scanline(Filters.Up, [5, 5]);
  }

  lemma TwoByTwoRows()
    ensures Reconstruct(1, 2, [Scanline(Filters.None, [10, 20]), Scanline(Filters.Up, [5, 5])]) == [10, 20, 15, 25]
  {
    var first, second := Scanline(Filters.None, [10, 20]), Scanline(Filters.Up, [5, 5]);
    var lines := [first, second];
    ReconstructSnoc(1, 2, [first], [], first);
    Filters.ReconNone(1, Filters.Zeros(2), [10, 20]);
    var top := Reconstruct(1, 2, [first]);
    ReconstructSnoc(1, 2, lines, [first], second);
    var row := Filters.Recon(Filters.Up, 1, [10, 20], [5, 5]);
    Filters.ReconUp(1, [10, 20], [5, 5], 0);
    Filters.ReconUp(1, [10, 20], [5, 5], 1);
    Pair(row, 15, 25);
    Quad(top, row, 10, 20, 15, 25);
  }

  lemma Pair(s: seq<byte>, a: byte, b: byte)
    requires |s| == 2 && s[0] == a && s[1] == b
    ensures s == [a, b]
  {
  }

  lemma Quad(s: seq<byte>, t: seq<byte>, a: byte, b: byte, c: byte, d: byte)
    requires s == [a, b] && t == [c, d]
    ensures s + t == [a, b, c, d]
  {
  }
}
