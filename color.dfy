/** The IHDR colour type (src/color.rs): the five colour codes a PNG header
    may carry and the number of channels each one has. */
module Colors {
  import opened Bytes
  import opened Results

  datatype ColorType = Gray | RGB | PLTE | GrayAlpha | RGBA

  datatype ColorError = InvalidColorType(code: byte)

  /** The codes that name a colour type. */
  const ValidCodes: set<byte> := {0, 2, 3, 4, 6}

  /** `ColorType::try_from(u8)`: total over all bytes. */
  function TryFromCode(code: byte): (r: Result<ColorType, ColorError>)
    ensures r.Ok? <==> code in ValidCodes
    ensures r.Err? ==> r.error == InvalidColorType(code)
    ensures r.Ok? ==> Code(r.value) == code
  {
    match code
    case 0 => Ok(Gray)
    case 2 => Ok(RGB)
    case 3 => Ok(PLTE)
    case 4 => Ok(GrayAlpha)
    case 6 => Ok(RGBA)
    case _ => Err(InvalidColorType(code))
  }

  /** The code the PNG header uses for each colour type. */
  function Code(c: ColorType): (r: byte)
    ensures r in ValidCodes
  {
    match c
    case Gray => 0
    case RGB => 2
    case PLTE => 3
    case GrayAlpha => 4
    case RGBA => 6
  }

  /** Decoding the code of a colour type gives that colour type back, so the
      decoder is injective on the codes it accepts. */
  lemma CodeRoundTrip(c: ColorType)
    ensures TryFromCode(Code(c)) == Ok(c)
  {
  }

  lemma TryFromCodeInjective(a: byte, b: byte)
    requires TryFromCode(a).Ok? && TryFromCode(a) == TryFromCode(b)
    ensures a == b
  {
  }

  /** Channels per pixel; the palette type has no channel count here (the
      decoder panics on it wherever it needs one). */
  function Channels(c: ColorType): (r: nat)
    requires c != PLTE
    ensures 1 <= r <= 4
    ensures r == 1 <==> c == Gray
    ensures r == 2 <==> c == GrayAlpha
    ensures r == 3 <==> c == RGB
    ensures r == 4 <==> c == RGBA
  {
    match c
    case Gray => 1
    case GrayAlpha => 2
    case RGB => 3
    case RGBA => 4
  }
}
