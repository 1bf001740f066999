/** Fixed-width unsigned integers and their little-endian encoding in bytes. */
module Bytes {

  type byte = x: int | 0 <= x < 0x100
  type uint16 = x: int | 0 <= x < 0x1_0000
  type uint32 = x: int | 0 <= x < 0x1_0000_0000

  /** The 16-bit little-endian value stored at bytes `o` and `o + 1` of `s`. */
  function LE16(s: seq<byte>, o: nat): uint16
    requires o + 2 <= |s|
  {
    s[o] as int + 0x100 * (s[o + 1] as int)
  }

  /** The 32-bit little-endian value stored at bytes `o` .. `o + 3` of `s`. */
  function LE32(s: seq<byte>, o: nat): uint32
    requires o + 4 <= |s|
  {
    LE16(s, o) + 0x1_0000 * LE16(s, o + 2)
  }

  /** The two bytes that store `v` little-endian. */
  function Encode16(v: uint16): (s: seq<byte>)
    ensures |s| == 2
  {
    [v % 0x100, v / 0x100]
  }

  /** The four bytes that store `v` little-endian. */
  function Encode32(v: uint32): (s: seq<byte>)
    ensures |s| == 4
  {
    Encode16(v % 0x1_0000) + Encode16(v / 0x1_0000)
  }

  lemma LE16RoundTrip(s: seq<byte>, o: nat, v: uint16)
    requires o + 2 <= |s| && s[o..o + 2] == Encode16(v)
    ensures LE16(s, o) == v
  {
    assert s[o] == Encode16(v)[0] && s[o + 1] == Encode16(v)[1];
  }

  lemma LE32RoundTrip(s: seq<byte>, o: nat, v: uint32)
    requires o + 4 <= |s| && s[o..o + 4] == Encode32(v)
    ensures LE32(s, o) == v
  {
    var e := Encode32(v);
    assert e[..2] == Encode16(v % 0x1_0000) && e[2..] == Encode16(v / 0x1_0000);
    assert s[o..o + 2] == e[..2] && s[o + 2..o + 4] == e[2..];
    LE16RoundTrip(s, o, v % 0x1_0000);
    LE16RoundTrip(s, o + 2, v / 0x1_0000);
  }

  /** Decoding inverts encoding, and vice versa (both directions of the bijection). */
  lemma Encode16Decodes(v: uint16, s: seq<byte>)
    ensures LE16(Encode16(v), 0) == v
    ensures |s| == 2 ==> Encode16(LE16(s, 0)) == s
  {
  }
}
