/** Chunk framing and the chunk-type taxonomy (src/chunk.rs; the same code
    is repeated in src/main.rs). A chunk is a big-endian length, a four-letter
    type tag, that many data bytes and four CRC bytes (PNG 1.2, section 3.2). */
module Chunks {
  import opened Bytes
  import opened Results
  import opened Parsing

  /** The eighteen chunk types the decoder names, plus every other tag. */
  datatype ChunkType =
    | IHDR | PLTE | IDAT | IEND
    | tRNS | gAMA | cHRM | sRGB | iCCP | tEXt | zTXt | iTXt
    | bKGD | pHYs | sBIT | sPLT | hIST | tIME
    | Unknown(name: seq<char>)

  /** A framed chunk. `data` is the slice of the input the chunk covers; the
      CRC is kept but never checked. */
  datatype Chunk = Chunk(length: u32, chunkType: ChunkType, data: seq<byte>, crc: seq<byte>)

  /** The four-letter name of every known chunk type. */
  const KnownNames: set<seq<char>> := {
    "IHDR", "PLTE", "IDAT", "IEND", "tRNS", "gAMA", "cHRM", "sRGB", "iCCP",
    "tEXt", "zTXt", "iTXt", "bKGD", "pHYs", "sBIT", "sPLT", "hIST", "tIME"
  }

  /** `ChunkType::from([char; 4])`: a literal, case-sensitive match on the
      four characters. */
  function FromTag(name: seq<char>): (t: ChunkType)
    requires |name| == 4
    ensures t.Unknown? <==> name !in KnownNames
    ensures t.Unknown? ==> t.name == name
    ensures Name(t) == name
  {
    assert name == [name[0], name[1], name[2], name[3]];
    match (name[0], name[1], name[2], name[3])
    case ('I', 'H', 'D', 'R') => IHDR
    case ('P', 'L', 'T', 'E') => PLTE
    case ('I', 'D', 'A', 'T') => IDAT
    case ('I', 'E', 'N', 'D') => IEND
    case ('t', 'R', 'N', 'S') => tRNS
    case ('g', 'A', 'M', 'A') => gAMA
    case ('c', 'H', 'R', 'M') => cHRM
    case ('s', 'R', 'G', 'B') => sRGB
    case ('i', 'C', 'C', 'P') => iCCP
    case ('t', 'E', 'X', 't') => tEXt
    case ('z', 'T', 'X', 't') => zTXt
    case ('i', 'T', 'X', 't') => iTXt
    case ('b', 'K', 'G', 'D') => bKGD
    case ('p', 'H', 'Y', 's') => pHYs
    case ('s', 'B', 'I', 'T') => sBIT
    case ('s', 'P', 'L', 'T') => sPLT
    case ('h', 'I', 'S', 'T') => hIST
    case ('t', 'I', 'M', 'E') => tIME
    case _ => Unknown(name)
  }

  /** The tag a chunk type is written with. */
  function Name(t: ChunkType): (name: seq<char>)
    ensures !t.Unknown? ==> name in KnownNames
  {
    match t
    case IHDR => "IHDR"
    case PLTE => "PLTE"
    case IDAT => "IDAT"
    case IEND => "IEND"
    case tRNS => "tRNS"
    case gAMA => "gAMA"
    case cHRM => "cHRM"
    case sRGB => "sRGB"
    case iCCP => "iCCP"
    case tEXt => "tEXt"
    case zTXt => "zTXt"
    case iTXt => "iTXt"
    case bKGD => "bKGD"
    case pHYs => "pHYs"
    case sBIT => "sBIT"
    case sPLT => "sPLT"
    case hIST => "hIST"
    case tIME => "tIME"
    case Unknown(name) => name
  }

  /** No tag is lost by classifying it (the name of the type a tag maps to
      is that tag), so `FromTag` is injective. */
  lemma FromTagInjective(a: seq<char>, b: seq<char>)
    requires |a| == 4 && |b| == 4 && FromTag(a) == FromTag(b)
    ensures a == b
  {
  }

  /** Every known type is recognised from its own name. */
  lemma FromTagOfName(t: ChunkType)
    requires !t.Unknown?
    ensures FromTag(Name(t)) == t
  {
  }

  /** The tag bytes read as characters (`t[i] as char`). */
  function TagChars(t: seq<byte>): (name: seq<char>)
    ensures |name| == |t|
    ensures forall i :: 0 <= i < |t| ==> name[i] as int == t[i]
  {
    seq(|t|, i requires 0 <= i < |t| => t[i] as char)
  }

  /** The bytes of a tag whose characters are all below 256. */
  function TagBytes(name: seq<char>): (t: seq<byte>)
    requires forall i :: 0 <= i < |name| ==> name[i] as int < 0x100
    ensures |t| == |name|
  {
    seq(|name|, i requires 0 <= i < |name| => name[i] as int)
  }

  lemma TagBytesOfChars(t: seq<byte>)
    ensures TagBytes(TagChars(t)) == t
  {
  }

  /** The bytes a chunk occupies in the stream. */
  function EncodeChunk(c: Chunk): (s: seq<byte>)
    requires forall i :: 0 <= i < |Name(c.chunkType)| ==> Name(c.chunkType)[i] as int < 0x100
  {
    U32ToBe(c.length) + TagBytes(Name(c.chunkType)) + c.data + c.crc
  }

  /** A chunk as the framer can produce it: four-letter byte tag, `length`
      data bytes, four CRC bytes. */
  ghost predicate WellFormed(c: Chunk) {
    && |Name(c.chunkType)| == 4
    && (forall i :: 0 <= i < 4 ==> Name(c.chunkType)[i] as int < 0x100)
    && (c.chunkType.Unknown? ==> c.chunkType.name !in KnownNames)
    && c.length == |c.data|
    && |c.crc| == 4
  }

  /** `Chunk::parse`: a big-endian `u32` length, a four-byte tag, `length`
      data bytes and four CRC bytes. Fails with `Eof` when any field is cut
      short, and consumes exactly `12 + length` bytes otherwise. */
  function ParseChunk(input: seq<byte>): (r: ParseResult<Chunk>)
    ensures r.Ok? <==> |input| >= 12 && |input| >= 12 + BeU32(input)
    ensures r.Err? ==> r.error == Eof
    ensures r.Ok? ==> WellFormed(r.value.value)
    ensures r.Ok? ==> r.value.value.length == BeU32(input)
    ensures r.Ok? ==> |input| - |r.value.rest| == 12 + r.value.value.length
    ensures r.Ok? ==> input == EncodeChunk(r.value.value) + r.value.rest
  {
    if |input| < 4 then Err(Eof)
    else
      var length := BeU32(input);
      if |input| < 8 then Err(Eof)
      else
        var tag := TagChars(input[4..8]);
        if |input| - 8 < length then Err(Eof)
        else if |input| - 8 - length < 4 then Err(Eof)
        else
          var c := Chunk(length, FromTag(tag), input[8..8 + length], input[8 + length..12 + length]);
          FrameLayout(input, c);
          Ok(Parsed(c, input[12 + length..]))
  }

  /** A four-byte tag, classified and written back, is the same four bytes. */
  lemma TagLayout(b: seq<byte>)
    requires |b| == 4
    ensures var t := FromTag(TagChars(b));
      && |Name(t)| == 4
      && (forall i :: 0 <= i < 4 ==> Name(t)[i] as int < 0x100)
      && TagBytes(Name(t)) == b
  {
    TagBytesOfChars(b);
  }

  /** The fields `ParseChunk` slices out of a long enough input make up a
      well-formed chunk whose encoding is exactly the bytes consumed. */
  lemma FrameLayout(input: seq<byte>, c: Chunk)
    requires |input| >= 12 && |input| >= 12 + BeU32(input)
    requires c == Chunk(BeU32(input), FromTag(TagChars(input[4..8])),
                        input[8..8 + BeU32(input)], input[8 + BeU32(input)..12 + BeU32(input)])
    ensures WellFormed(c)
    ensures input == EncodeChunk(c) + input[12 + c.length..]
  {
    var length := c.length;
    TagLayout(input[4..8]);
    U32ToBeOfBeU32(input);
    assert EncodeChunk(c) == input[..4] + input[4..8] + input[8..8 + length] + input[8 + length..12 + length];
    assert input == input[..4] + input[4..8] + input[8..8 + length] + input[8 + length..12 + length] + input[12 + length..];
  }

  /** Framing inverts encoding: a well-formed chunk written out and followed
      by anything is read back as that chunk, leaving the rest. */
  lemma {:induction false} ParseEncodeChunk(c: Chunk, rest: seq<byte>)
    requires WellFormed(c)
    ensures ParseChunk(EncodeChunk(c) + rest) == Ok(Parsed(c, rest))
  {
    var s := EncodeChunk(c) + rest;
    var name := Name(c.chunkType);
    BeU32RoundTrip(c.length, s[4..]);
    assert s == U32ToBe(c.length) + s[4..];
    assert BeU32(s) == c.length;
    assert s[4..8] == TagBytes(name);
    assert TagChars(s[4..8]) == name;
    if c.chunkType.Unknown? {
      assert FromTag(name) == c.chunkType;
    } else {
      FromTagOfName(c.chunkType);
    }
    assert s[8..8 + c.length] == c.data;
    assert s[8 + c.length..12 + c.length] == c.crc;
    assert s[12 + c.length..] == rest;
  }
}
