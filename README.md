# A verified model of the png-decoder core

This project models the core of a small PNG decoder, written in Rust on top
of the `nom` parser combinators and the `miniz_oxide` inflater. It models
and proves these parts:

- **Chunk framing.** The eight-byte signature opens the file. Each chunk
  after it is a big-endian `u32` length, a four-character type tag,
  `length` data bytes and a four-byte CRC. `ChunkType::from` maps the tag to
  one of eighteen known types, or to `Unknown`.
- **The chunk-ordering automaton.** `validate_chunk` is folded over the
  chunk types. It keeps the set of types seen so far and the set of types
  allowed next, which follows the ordering table of PNG 1.2, section 4.3.
- **Chunk data decoders.** These cover IHDR and the scanline geometry it
  implies (`scanline_width`), sBIT, bKGD, pHYs, tIME, tEXt and zTXt, and
  the `parse_chunk_data` dispatcher.
- **IDAT inflation.** `inflate_idats` drives a streaming decompressor over
  the IDAT chunks: the output buffer, the input and output positions, and
  the control flow the decompressor's status selects.
- **Scanlines and reconstruction.** `get_scanlines` cuts the inflated data
  into filtered scanlines. `unfilter` reconstructs the pixel buffer in
  place, row by row, with the five filter decoders and the Paeth
  predictor. `Png::get` then reads single pixels.

`src/main.rs` repeats most of this code, nearly line for line. The model
contains each piece once. The table below cites the library files, and
the repeated copies are:

- `parse_chunk`, `parse_png`: src/main.rs:91-113;
- `validate_chunk`: src/main.rs:271-403;
- `get_scanlines`: src/main.rs:429-449;
- `unfilter`: src/main.rs:459-493;
- `unfilter_*`: src/main.rs:495-576;
- `paeth_predictor`: src/main.rs:589-602;
- `Img::get`: src/main.rs:612-619;
- `parse_idats`: src/main.rs:758-811.

Rust `u8`, `u16` and `u32` values are subset types of `int` (`byte`, `u16`,
`u32`). The wrap-around of `wrapping_add` is written out, and so is the
`u16` arithmetic of the Average filter and the `i16` arithmetic of
`paeth_predictor`. `nom` results are `ParseResult`, which is either
`Parsed(value, rest)` or an error kind: `Eof` for input cut short, `Tag`
for a wrong literal, `MapRes` for a rejected conversion. As with `nom`'s
default error type, `many1` hands on the error of its first failed item. A `panic!`, `assert_eq!`, `expect` or out-of-range slice
in the source becomes a precondition. Every recoverable error becomes a
`Result` value.

Modules, one per file:

- `Bytes` (bytes.dfy): bytes, big-endian integers, wrapping arithmetic.
- `Results` and `Parsing` (results.dfy): `Result` and the parser result
  type.
- `Colors` (color.dfy): src/color.rs.
- `Chunks` (chunk.dfy): chunk framing and `ChunkType::from`.
- `ChunkOrder` (chunk_order.dfy): the ordering automaton.
- `Filters` (filter.dfy): src/filter.rs.
- `ChunkDecoders` (chunk_data.dfy): the chunk data parsers.
- `IdatInflate` (inflate.dfy): `inflate_idats`.
- `PngImage` (png.dfy): src/png.rs.

Pure code (parsers, the automaton, the predictor) is modelled as functions
and lemmas. The filter decoders write into a mutable buffer, so they are
methods on an `array<byte>`. Each is proved to write exactly the row that a
reference reconstruction function `Recon` computes, and to change nothing
outside that row. `unfilter` is a method that allocates the zeroed array and
folds those decoders over the scanlines. `inflate_idats` is a method with
the source's two nested loops. Its result is tied to a reference run, and
to a ghost trace of every decompressor call.

## Model

| member | source | states |
|---|---|---|
| Bytes.AddUndoesSub | src/filter.rs:36 | `u8` wrapping addition and wrapping subtraction undo each other, for all bytes |
| Bytes.BeU32RoundTrip | src/chunk.rs:65 | reading a big-endian `u32` from the four bytes it encodes to gives the value back, whatever follows |
| Bytes.U32ToBeOfBeU32 | src/chunk.rs:65 | the four bytes a `u32` is read from are exactly its big-endian encoding (the other direction of the round trip) |
| Bytes.BeU16RoundTrip | src/chunk_data.rs:312 | the big-endian `u16` read by `be_u16` round-trips through its two-byte encoding |
| Bytes.U16ToBeOfBeU16 | src/chunk_data.rs:199 | two bytes read as a big-endian `u16` and written back are the same two bytes |
| Colors.TryFromCode | src/color.rs:12-24 | exactly the codes 0, 2, 3, 4 and 6 are accepted; the colour type returned encodes back to the code; any other code is an error naming it |
| Colors.CodeRoundTrip | src/color.rs:14-22 | every colour type is decoded back from its code |
| Colors.TryFromCodeInjective | src/color.rs:15-21 | two codes that decode to the same colour type are equal |
| Colors.Channels | src/png.rs:43-49 | the channel count is 1, 2, 3 or 4 for Gray, GrayAlpha, RGB and RGBA respectively (both directions) |
| Chunks.FromTag | src/chunk.rs:86-110 | a tag is `Unknown` exactly when it is not one of the eighteen known names; the type's name is always the tag it came from |
| Chunks.FromTagInjective | src/chunk.rs:88-107 | different tags give different chunk types |
| Chunks.FromTagOfName | src/chunk.rs:88-106 | every known chunk type is recognised from its own name |
| Chunks.TagBytesOfChars | src/chunk.rs:67 | widening the four tag bytes to characters loses nothing: they narrow back to the same bytes |
| Chunks.ParseChunk | src/chunk.rs:64-82 | framing succeeds exactly when the input holds 12 + length bytes; otherwise it fails with `Eof`; on success the chunk is well formed, its length is the declared one, it consumed exactly 12 + length bytes, and encoding it again gives back the bytes consumed |
| Chunks.ParseEncodeChunk | src/chunk.rs:64-82 | any well-formed chunk, encoded and followed by any bytes, is framed back as that chunk with those bytes left over |
| ChunkOrder.ValidateChunk | src/chunk.rs:215-347 | a step succeeds exactly for an authorized known type; an unauthorized type is rejected naming it; a success adds the type to `present`; only IHDR and the first IDAT can authorize new types (and IDAT only IEND); a non-repeatable type is no longer authorized after it; IEND authorizes nothing |
| ChunkOrder.ValidateChunkConstraints | src/chunk.rs:114-125 | the chunks are accepted exactly when the fold from {IHDR} succeeds; they are then returned unchanged, and otherwise the fold's first error is returned |
| ChunkOrder.Fold | src/chunk.rs:121-123 | a successful `try_fold` has seen exactly the initial types plus every type of the stream |
| ChunkOrder.FoldAppend | src/chunk.rs:121-123 | folding a concatenation is folding the first part, stopping at its error, then folding the second part from where it ended |
| ChunkOrder.StepInv | src/chunk.rs:215-347 | every accepted step keeps the ordering invariant: IHDR seen once anything is seen, IEND authorized only after IDAT, no before-IDAT type authorized after IDAT, nothing authorized after IEND |
| ChunkOrder.FoldInv | src/chunk.rs:121-123 | the ordering invariant holds after any accepted prefix of a stream |
| ChunkOrder.RevokedIsRejected | src/chunk.rs:217-346 | a type that a step has revoked is never authorized again, so any later occurrence rejects the stream |
| ChunkOrder.AcceptedAt | src/chunk.rs:121-123 | in an accepted stream, every chunk is accepted by the state its prefix leads to, and that state records exactly the prefix's types |
| ChunkOrder.FirstMustBeIhdr | src/chunk.rs:119-120 | a stream whose first chunk is not IHDR is rejected as unauthorized at that chunk |
| ChunkOrder.AcceptedHasNoUnknown | src/chunk.rs:342 | an accepted stream has no chunk of unknown type |
| ChunkOrder.UniqueChunksOccurOnce | src/chunk.rs:220-316 | each non-repeatable type (IHDR, PLTE, IEND, cHRM, gAMA, iCCP, sBIT, sRGB, bKGD, hIST, tRNS, pHYs, tIME) occurs at most once in an accepted stream |
| ChunkOrder.IendIsLast | src/chunk.rs:245-249 | in an accepted stream IEND can only be the last chunk |
| ChunkOrder.IendFollowsIdat | src/chunk.rs:233-244 | in an accepted stream an IEND is preceded by an IDAT |
| ChunkOrder.NothingBeforeIdatAfterIdat | src/chunk.rs:233-241 | no type from the before-IDAT set follows an IDAT in an accepted stream |
| ChunkOrder.NothingBeforePlteAfterPlte | src/chunk.rs:225-231 | no type from the before-PLTE set follows a PLTE in an accepted stream |
| ChunkOrder.NoPlteAfterPaletteAncillary | src/chunk.rs:278-296 | PLTE never follows bKGD, hIST or tRNS in an accepted stream |
| ChunkOrder.IdatRunIsContiguous | src/chunk.rs:308-341 | in an accepted stream every chunk between two IDATs is an IDAT: the IDAT chunks are consecutive |
| ChunkOrder.TextBetweenIdatsRejected | src/chunk.rs:326-333 | a tEXt chunk between two IDATs rejects the stream |
| ChunkOrder.AcceptsMinimalImage | src/chunk.rs:215-249 | IHDR, IDAT, IEND is accepted, ending with all three seen and nothing authorized |
| ChunkOrder.AcceptsMissingIend | src/chunk.rs:121-124 | the final state is not checked, so IHDR, IDAT without IEND is accepted |
| ChunkOrder.RejectsIdatFirst | src/chunk.rs:344-346 | IDAT as the first chunk is rejected as unauthorized |
| ChunkOrder.RejectsTwoPalettes | src/chunk.rs:225-231 | a second PLTE is rejected |
| ChunkOrder.RejectsPaletteAfterIdat | src/chunk.rs:233-241 | PLTE after IDAT is rejected |
| ChunkOrder.RejectsChunkAfterIend | src/chunk.rs:245-249 | any chunk after IEND is rejected |
| ChunkOrder.RejectsUnknown | src/chunk.rs:342 | an unknown chunk type rejects the stream |
| ChunkOrder.RejectsTextInIdatRun | src/chunk.rs:326-333 | IDAT, tEXt, IDAT is rejected |
| Filters.TryFromByte | src/filter.rs:12-24 | exactly the bytes 0 to 4 name a filter, and the filter named encodes back to the byte; any other byte is an error naming it |
| Filters.CodeRoundTrip | src/filter.rs:14-22 | every filter type is decoded back from its code |
| Filters.PaethPredictor | src/filter.rs:120-133 | the predictor returns one of left, up and upper-left, one nearest to the estimate left + up - upper-left, with ties broken in the order left, up |
| Filters.PaethFitsI16 | src/filter.rs:121-125 | the estimate and every distance lie well within `i16`, so the source's `i16` arithmetic cannot overflow |
| Filters.PaethOnFirstRow | src/filter.rs:89 | with zero up and upper-left neighbours the predictor returns left |
| Filters.ReconOfFilterRow | src/filter.rs:26-107 | for every filter type, reconstruction undoes filtering: the encoder's row filtered against any prior row is reconstructed to the raw row |
| Filters.FilterRowOfRecon | src/filter.rs:26-107 | the other direction: filtering a reconstructed row gives back the filtered bytes, so reconstruction is a bijection on rows |
| Filters.ReconAt | src/filter.rs:32-107 | byte `i` of a reconstructed row is the filtered byte plus (mod 256) the filter's prediction from the reconstructed byte `bpp` to the left, the byte above and the byte above-left |
| Filters.ReconPrefix | src/filter.rs:34-37 | reconstruction works left to right: a prefix of a row is reconstructed from the same prefixes of its inputs |
| Filters.ReconNone | src/filter.rs:26-30 | the None filter leaves the bytes as they are |
| Filters.ReconUp | src/filter.rs:48-51 | the Up filter adds the byte above, mod 256 |
| Filters.ReconSubIgnoresPrior | src/filter.rs:32-39 | the Sub filter does not depend on the row above |
| Filters.FirstRowPaethIsSub | src/filter.rs:82-90 | on the first row (zeros above) Paeth reconstructs as Sub |
| Filters.FirstRowUpIsNone | src/filter.rs:42-45 | on the first row (zeros above) Up reconstructs as None |
| Filters.DecodeNone | src/filter.rs:26-30 | the line is copied into the window at `lineStart`; the next line start is returned; nothing outside the window changes |
| Filters.DecodeSub | src/filter.rs:32-39 | the window holds the Sub reconstruction of the line; nothing outside it changes |
| Filters.DecodeUp | src/filter.rs:41-54 | each byte of the window is the line's byte plus the byte above it, with zeros above the first row; nothing outside the window changes |
| Filters.DecodeAverage | src/filter.rs:56-79 | the window holds the Average reconstruction of the line against the row above, with zeros above the first row (floor of half the left byte); nothing outside it changes |
| Filters.DecodeAverageAsWritten | src/filter.rs:56-79 | on the first row the window holds the Sub reconstruction, as the code is written; below it, the Average reconstruction |
| Filters.AverageFirstRowAsWrittenIsWrong | src/filter.rs:57-65 | the first row [10, 5] filtered with Average is [10, 0]; the code as written decodes that to [10, 10], while the Average reconstruction gives [10, 5] back |
| Filters.DecodePaeth | src/filter.rs:81-107 | the window holds the Paeth reconstruction of the line against the row above (zeros above the first row); nothing outside it changes |
| ChunkDecoders.BytesPerChannel | src/chunk_data.rs:125 | `max(1, bit_depth / 8)`: one byte for depths below 16, otherwise the number of whole bytes in the depth |
| ChunkDecoders.ScanlineWidth | src/chunk_data.rs:117-127 | for 8- and 16-bit depths the filtered line is one filter byte plus the bytes of `width` pixels; for smaller depths it counts one byte per sample |
| ChunkDecoders.ScanlineWidthExample | src/chunk_data.rs:117-127 | a 10-pixel 8-bit RGBA line takes 41 bytes |
| ChunkDecoders.ParseIhdrData | src/chunk_data.rs:156-176 | the header parses exactly when 13 bytes are present and byte 9 is a valid colour code; an invalid code is a `MapRes` error, a short input an `Eof`; on success the 13 bytes read are the header's encoding |
| ChunkDecoders.ParseEncodeIhdr | src/chunk_data.rs:156-176 | every header, encoded and followed by any bytes, parses back to itself with those bytes left over |
| ChunkDecoders.ParseSbitData | src/chunk_data.rs:178-194 | sBIT parses exactly for a declared length of 1 to 4 with that many bytes present; another length is a `MapRes` error, a short input an `Eof`; the bytes read are the value's encoding |
| ChunkDecoders.ParseSbitBytes | src/chunk_data.rs:178-194 | every sBIT value parses back from its encoding and its length |
| ChunkDecoders.ParseBkgdData | src/chunk_data.rs:196-210 | bKGD parses exactly for a declared length of 1, 2 or 6 with that many bytes present; another length is a `MapRes` error, a short input an `Eof`; the bytes read are the value's encoding |
| ChunkDecoders.ParseBackgroundBytes | src/chunk_data.rs:196-210 | every bKGD value parses back from its encoding and its length |
| ChunkDecoders.ParsePhysData | src/chunk_data.rs:212-221 | pHYs parses exactly when 9 bytes are present and the unit byte is 0 or 1; another unit is a `MapRes` error; the bytes read are the value's encoding |
| ChunkDecoders.ParseEncodePhys | src/chunk_data.rs:212-221 | every pHYs value parses back from its encoding |
| ChunkDecoders.ParseTimeData | src/chunk_data.rs:311-329 | tIME parses exactly when 7 bytes are present, fails with `Eof` otherwise, and reads the value's encoding |
| ChunkDecoders.ParseEncodeTime | src/chunk_data.rs:311-329 | every tIME value parses back from its encoding |
| ChunkDecoders.TillNull | src/chunk_data.rs:252-254 | the input splits into a field without a zero byte and a rest that is empty or starts with the zero byte |
| ChunkDecoders.TillNullOf | src/chunk_data.rs:252-254 | that split is unique: a zero-free field followed by an empty or zero-led rest is split back into exactly those two parts |
| ChunkDecoders.TillNullStops | src/chunk_data.rs:252-254 | the rest is empty exactly when the input contains no zero byte |
| ChunkDecoders.StrTillNull | src/chunk_data.rs:248-250 | succeeds exactly when the field before the first zero is valid UTF-8, and returns that split; fails with `MapRes` otherwise |
| ChunkDecoders.ParseTextData | src/chunk_data.rs:223-228 | on success the input is keyword, one separator byte 0, text and the rest, with both fields zero-free and valid UTF-8; the parse fails with `Eof` exactly when the keyword is valid but no separator follows |
| ChunkDecoders.ParseTextOf | src/chunk_data.rs:223-228 | a text chunk written as keyword, 0, text parses back to the same keyword and text |
| ChunkDecoders.ParseZtxtData | src/chunk_data.rs:230-246 | on success the input is keyword, 0, the compression-method byte and a compressed stream that inflates to the text; the text is the whole rest of the input and is valid UTF-8; the parse fails with `Eof` exactly when the keyword is valid but the separator or the method byte is missing |
| ChunkDecoders.ParseChunkData | src/chunk_data.rs:130-154 | types without a decoder give `Unknown` of an empty slice and read nothing; IEND gives `IEND` and reads nothing; otherwise a success has the form the chunk type calls for and leaves a suffix of the chunk's data |
| ChunkDecoders.LengthDispatchOnFramedChunk | src/chunk_data.rs:141-143 | on a framed chunk, sBIT decodes exactly when its length is 1 to 4, bKGD exactly when its length is 1, 2 or 6, and either then consumes all the data |
| IdatInflate.InflateIdats | src/chunk_data.rs:256-309 | the result is the reference run of the loop; the calls form a trace of the decompressor from chunk 0 with a zero buffer of twice the compressed length; a success (with chunks present) is the output of all calls, in order, ending with `Done`; a status error is the status of the last call, which was neither `Done` nor `HasMoreOutput`, and was `NeedsMoreInput` only on the last chunk; no chunks gives an empty result |
| IdatInflate.FeedIdats | src/chunk_data.rs:263-308 | the chunk loop, from the zero buffer, ends exactly as the reference run from chunk 0 does |
| IdatInflate.FeedChunk | src/chunk_data.rs:266-306 | decompressing one chunk either ends the run as the reference run does, or moves on to the next chunk from its start, with the buffer and the positions the reference run has there |
| IdatInflate.Decompress | src/chunk_data.rs:274-305 | one call: the output is written at the output position, both positions advance by what the call reported, and the status selects the next step of the reference run: truncate and return on `Done`, grow the buffer by `outPos` zeros on `HasMoreOutput`, go to the next chunk on `NeedsMoreInput`, an error otherwise |
| IdatInflate.ResumeStep | src/chunk_data.rs:273-305 | from any point of the loop, one call either ends the reference run there or leaves the loop at the point the status selects |
| IdatInflate.InflateOutcome | src/chunk_data.rs:256-309 | whatever the decompressor does, the reference run is a trace and ends as stated for `InflateIdats` |
| IdatInflate.TraceChunksAscend | src/chunk_data.rs:265-306 | along a trace the chunks are visited in order, never going back |
| IdatInflate.BufferHoldsOutput | src/chunk_data.rs:277-292 | before every call, the buffer in front of the output position holds exactly the bytes produced so far: growing the buffer never disturbs finished output |
| IdatInflate.InputIsChunkSuffix | src/chunk_data.rs:266-281 | every call's input is what is left of its chunk's data |
| PngImage.ParseChunks | src/png.rs:37-40 | a wrong or short signature fails with `Tag`; otherwise a stream whose first chunk does not frame fails with that chunk's own error, `Eof`; a success holds at least one chunk, all well formed, whose encodings after the signature, followed by the rest, are the input, and the rest does not frame as a chunk |
| PngImage.ManyChunks | src/png.rs:39 | the repetition stops at the first input that does not frame, and it is empty exactly when the first chunk does not frame |
| PngImage.ManyChunksFrame | src/png.rs:39 | the chunks read are well formed and, written back, are exactly the bytes consumed |
| PngImage.ParseEncodedChunks | src/png.rs:37-40 | any non-empty run of well-formed chunks after the signature, followed by bytes that do not frame, is read back as exactly those chunks and those bytes |
| PngImage.GetScanlines | src/png.rs:42-62 | the image data gives `height` scanlines, each of `bpp * width` bytes after its filter byte, which written back in order are the image data |
| PngImage.GetScanlinesOfEncode | src/png.rs:42-62 | any `height` uniform scanlines, written out, have valid filter bytes and the source's length, and are cut back into the same scanlines |
| PngImage.FullLineLength | src/png.rs:50-51 | a filtered line is one filter byte plus `bpp * width` bytes |
| PngImage.BytesPerPixel | src/png.rs:67-75 | the bytes per pixel lie between 1 and 124 |
| PngImage.Reconstruct | src/png.rs:79-88 | the reconstructed image, with PNG's Average on the first row, has one row of `width` bytes per scanline |
| PngImage.ReconstructOfFilterImage | src/png.rs:79-88 | reconstruction undoes filtering row by row, each row against the raw row above, for every choice of filter types per row |
| PngImage.DecodeRow | src/png.rs:82-88 | with the corrected Average decoder, the decoder the filter type selects writes the scanline's reconstruction against the row above (zeros for the first) into its window, returns the next line start and changes nothing else |
| PngImage.Unfilter | src/png.rs:64-98 | the result has the header's width and height, `bpp` bytes per pixel, colour type RGBA and `bpp * width * height` bytes, which are the reconstruction of the scanlines top to bottom, with PNG's Average on the first row |
| PngImage.ReconstructRows | src/png.rs:79-88 | folding the corrected decoders over the scanlines leaves the buffer holding the reconstructed image |
| PngImage.UnfilterRow | src/png.rs:82-88 | one fold step with the corrected decoders: after `k` reconstructed rows, decoding scanline `k` at `k * lineWidth` extends them by row `k` |
| PngImage.DecodeRowAsWritten | src/png.rs:82-88 | as the code is written, a first-row Average scanline is written to its window as its Sub reconstruction against zeros; every other scanline as its reconstruction against the row above; the next line start is returned and nothing else changes |
| PngImage.UnfilterAsWritten | src/png.rs:64-98 | as the code is written, the result has the header's width and height, `bpp` bytes per pixel, colour type RGBA and `bpp * width * height` bytes, which are the as-written reconstruction of the scanlines |
| PngImage.ReconstructRowsAsWritten | src/png.rs:79-88 | folding the decoders as written over the scanlines leaves the buffer holding the as-written reconstruction |
| PngImage.UnfilterRowAsWritten | src/png.rs:82-88 | one fold step as the code is written: after `k` rows, decoding scanline `k` at `k * lineWidth` extends them by its as-written row |
| PngImage.ReconstructAsWritten | src/png.rs:79-88 | the as-written reconstruction has one row of `width` bytes per scanline |
| PngImage.AsWrittenAgrees | src/png.rs:79-88 | when the first scanline is not Average-filtered, the code as written and PNG's reconstruction give the same image |
| PngImage.AverageOneRow | src/png.rs:85 | a single Average-filtered scanline is undone as Sub by the code as written and as Average by the reconstruction |
| PngImage.AverageFirstRowUnfilterDiffers | src/png.rs:85 | the one-row image with scanline (Average, [10, 0]) unfilters to [10, 10] as written and to [10, 5] under PNG's Average |
| PngImage.Get | src/png.rs:22-29 | a pixel read is `bytes_per_pixel` bytes long |
| PngImage.GetPixel | src/png.rs:23-28 | every pixel inside a complete image can be read, and it is the bytes of pixel number `y * width + x` in raster order |
| PngImage.TwoByTwoGray | src/png.rs:42-98 | a 2-by-2 8-bit grey image with a None row [10, 20] and an Up row [5, 5] is cut and reconstructed as [10, 20, 15, 25] |

## Left out

- `main`, `run` and `display_filters` (src/main.rs:17-62, 451-457) are left out. They read files and print to the console. The `Display` and `Debug` impls and the `println!` at src/png.rs:76 are output only.
- The DEFLATE decompressor is left out. `inflate::core::decompress` is the function parameter `step`, which returns the new state, status, bytes consumed and bytes written. The `StepFits` predicate only assumes the bounds that the cursor and the input slices enforce.
- zlib decompression and UTF-8 validation are parameters. `decompress_to_vec_zlib` in zTXt is the parameter `zlib`, and `std::str::from_utf8` / `String::from_utf8` are `validUtf8`.
- CRC values are kept but never checked, as in the source.
- Interlaced images and palette images are left out. The source panics on a palette image in `get_scanlines` and `unfilter`, and here that panic is a precondition. Interlacing is ignored by the source too.
- The benches and the `lazy_static` initialisation are not part of this model. The three sets are constants.
- `usize` overflow in `Png::get`, `unfilter` and the buffer arithmetic is not modelled, and integers there are unbounded.
- IdatInflate.InflateIdats: the loops are bounded by a `fuel` count of decompressor calls, so termination can be proved without a model of DEFLATE. When fuel runs out the result is `Err(OutOfFuel)`, which the source does not have.
- IdatInflate.InflateIdats: requires the `u32` sum of the IDAT lengths not to overflow. In the source an overflow panics (debug build) or wraps (release build).
- ChunkDecoders.ScanlineWidth: counts one byte per sample for depths below 8, as the source's `max(1, bit_depth / 8)` does. This is not the packed width that PNG gives sub-byte depths. The source's `u32` overflow panic is the precondition `ScanlineFits`.
- PngImage.GetScanlines: an invalid filter code and a data length that does not match the header are preconditions, since the source panics on both (`expect`, `assert_eq!`).
- PngImage.Unfilter: uses the corrected Average decoder, `Filters.DecodeAverage`. On a first-row Average scanline the code as written computes the Sub reconstruction instead; `PngImage.UnfilterAsWritten` models that, and Findings has the details. The source panics when the scanline count differs from the height, and that is a precondition.
- PngImage.Unfilter: requires every scanline to hold `bpp * width` bytes, which is what `get_scanlines` produces. The source accepts a shorter scanline and fills only a shorter prefix of its row, leaving the rest zero; the model does not cover that case. `PngImage.UnfilterAsWritten` has the same precondition.
- PngImage.DecodeRow: sends Average to the corrected `Filters.DecodeAverage`; `PngImage.DecodeRowAsWritten` is the dispatch as written.
- PngImage.ReconstructRows: folds the corrected decoders; `PngImage.ReconstructRowsAsWritten` is the fold as written.
- PngImage.UnfilterRow: is one step with the corrected decoders; `PngImage.UnfilterRowAsWritten` is the step as written.
- PngImage.Reconstruct: uses PNG's Average on the first row; `PngImage.ReconstructAsWritten` is the image the code as written produces, and `PngImage.AsWrittenAgrees` shows that the two differ only when the first scanline is Average-filtered.
- ChunkDecoders.ParseChunkData: its own contract states only the form of the decoded value and that it leaves a suffix of the data. The content each decoder reads is stated in that decoder's contract.
- The `nom` combinators (`tag`, `take`, `take_till`, `many0`, `many1`, `map`, `map_res`, `be_u8`, `be_u16`, `be_u32`) are not modelled as generic combinators. Each use is written out as direct code on byte sequences with the same success and error behaviour. Error kinds are reduced to `Eof`, `Tag` and `MapRes`, and error messages are not kept.

## Findings

| source | as written | input that shows it | evidently intended | confidence | as-written member | corrected member |
|---|---|---|---|---|---|---|
| src/filter.rs:57-65 | on the first row (`line_start == 0`) Average adds the whole left byte, which is the Sub decoder (same in src/main.rs:526-534) | bpp 1, raw first row [10, 5]: the Average filter gives [10, 0], which the code decodes to [10, 10] | add `floor(left / 2)`, since the row above counts as zeros (PNG 1.2, section 6.4) | not executed | Filters.DecodeAverageAsWritten, Filters.AverageFirstRowAsWrittenIsWrong, PngImage.UnfilterAsWritten, PngImage.AverageFirstRowUnfilterDiffers | Filters.DecodeAverage, PngImage.Unfilter |
