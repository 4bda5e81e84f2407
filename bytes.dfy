/** Fixed-width unsigned integers and big-endian byte fields, as the decoder
    reads them: `u8` bytes, `be_u16` and `be_u32` fields, and the 8-bit
    wrap-around addition that scanline reconstruction relies on. */
module Bytes {

  type byte = x: int | 0 <= x < 0x100
  type u16 = x: int | 0 <= x < 0x1_0000
  type u32 = x: int | 0 <= x < 0x1_0000_0000

  /** `u8::wrapping_add`: the sum modulo 256. */
  function WrappingAdd(a: byte, b: byte): (r: byte)
    ensures r == a + b || r == a + b - 0x100
  {
    ((a as int) + (b as int)) % 0x100
  }

  /** `u8::wrapping_sub`: the difference modulo 256 (used by the filtering
      side that reconstruction inverts). */
  function WrappingSub(a: byte, b: byte): (r: byte)
    ensures r == a - b || r == a - b + 0x100
  {
    ((a as int) - (b as int)) % 0x100
  }

  lemma AddUndoesSub(a: byte, b: byte)
    ensures WrappingAdd(WrappingSub(a, b), b) == a
    ensures WrappingSub(WrappingAdd(a, b), b) == a
  {
  }

  /** A big-endian `u16` from the first two bytes of `s`. */
  function BeU16(s: seq<byte>): (r: u16)
    requires |s| >= 2
  {
    (s[0] as int) * 0x100 + s[1] as int
  }

  /** A big-endian `u32` from the first four bytes of `s`. */
  function BeU32(s: seq<byte>): (r: u32)
    requires |s| >= 4
  {
    (((s[0] as int) * 0x100 + s[1] as int) * 0x100 + s[2] as int) * 0x100 + s[3] as int
  }

  /** The four big-endian bytes of `x` (the writer's side of `BeU32`). */
  function U32ToBe(x: u32): (r: seq<byte>)
    ensures |r| == 4
  {
    [x / 0x100_0000, (x / 0x1_0000) % 0x100, (x / 0x100) % 0x100, x % 0x100]
  }

  /** The two big-endian bytes of `x`. */
  function U16ToBe(x: u16): (r: seq<byte>)
    ensures |r| == 2
  {
    [x / 0x100, x % 0x100]
  }

  lemma BeU32RoundTrip(x: u32, rest: seq<byte>)
    ensures BeU32(U32ToBe(x) + rest) == x
  {
    var a := x / 0x100;
    var b := a / 0x100;
    assert b == x / 0x1_0000 && b / 0x100 == x / 0x100_0000;
    assert x == a * 0x100 + x % 0x100;
    assert a == b * 0x100 + a % 0x100;
    assert b == (b / 0x100) * 0x100 + b % 0x100;
  }

  lemma BeU16RoundTrip(x: u16, rest: seq<byte>)
    ensures BeU16(U16ToBe(x) + rest) == x
  {
  }

  lemma DivModByte(q: nat, r: byte)
    ensures (q * 0x100 + r) / 0x100 == q
    ensures (q * 0x100 + r) % 0x100 == r
  {
  }

  /** Writing back a field read with `BeU32` gives the bytes it was read from. */
  lemma U32ToBeOfBeU32(s: seq<byte>)
    requires |s| >= 4
    ensures U32ToBe(BeU32(s)) == s[..4]
  {
    var x1 := s[0] as int;
    var x2 := x1 * 0x100 + s[1];
    var x3 := x2 * 0x100 + s[2];
    var x := x3 * 0x100 + s[3];
    DivModByte(x3, s[3]);
    DivModByte(x2, s[2]);
    DivModByte(x1, s[1]);
    assert x / 0x100 == x3;
    assert x / 0x1_0000 == x3 / 0x100 by {
      assert x / 0x1_0000 == (x / 0x100) / 0x100;
    }
    assert x / 0x100_0000 == x2 / 0x100 by {
      assert x / 0x100_0000 == (x / 0x1_0000) / 0x100;
    }
  }

  /** Writing back a field read with `BeU16` gives the bytes it was read from. */
  lemma U16ToBeOfBeU16(s: seq<byte>)
    requires |s| >= 2
    ensures U16ToBe(BeU16(s)) == s[..2]
  {
    DivModByte(s[0], s[1]);
  }

  /** `BeU32` only looks at the first four bytes. */
  lemma BeU32Prefix(s: seq<byte>, t: seq<byte>)
    requires |s| >= 4 && |t| >= 4 && s[..4] == t[..4]
    ensures BeU32(s) == BeU32(t)
  {
    assert s[0] == t[0] && s[1] == t[1] && s[2] == t[2] && s[3] == t[3] by {
      assert s[..4][0] == s[0] && s[..4][1] == s[1] && s[..4][2] == s[2] && s[..4][3] == s[3];
    }
  }

  /** Concatenation of byte strings is associative. */
  lemma Associative(a: seq<byte>, b: seq<byte>, c: seq<byte>)
    ensures a + b + c == a + (b + c)
  {
  }
}
