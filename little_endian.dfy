/** Fixed-width unsigned integers and their little-endian byte encodings.
    The tool reads and writes its packed header structs with fread/fwrite,
    so the bytes on disk are the host's in-memory representation. This model
    assumes a little-endian host, where that representation is exactly the
    little-endian encoding defined here. */
module LittleEndian {

  type uint8 = x: int | 0 <= x < 0x100
  type uint16 = x: int | 0 <= x < 0x1_0000
  type uint32 = x: int | 0 <= x < 0x1_0000_0000

  /** The two bytes of x, least significant first. */
  function U16Bytes(x: uint16): (r: seq<uint8>)
    ensures |r| == 2
  {
    [x % 0x100, x / 0x100]
  }

  /** The four bytes of x, least significant first. */
  function U32Bytes(x: uint32): (r: seq<uint8>)
    ensures |r| == 4
    ensures r[..2] == U16Bytes(x % 0x1_0000) && r[2..] == U16Bytes(x / 0x1_0000)
  {
    U16Bytes(x % 0x1_0000) + U16Bytes(x / 0x1_0000)
  }

  /** The 16-bit value stored little-endian at s[off..off+2]; encoding it
      again gives back exactly those two bytes. */
  function U16At(s: seq<uint8>, off: nat): (x: uint16)
    requires off + 2 <= |s|
    ensures U16Bytes(x) == s[off..off + 2]
  {
    s[off] as int + 0x100 * (s[off + 1] as int)
  }

  /** The 32-bit value stored little-endian at s[off..off+4]; encoding it
      again gives back exactly those four bytes. */
  function U32At(s: seq<uint8>, off: nat): (x: uint32)
    requires off + 4 <= |s|
    ensures U32Bytes(x) == s[off..off + 4]
  {
    var lo, hi := U16At(s, off), U16At(s, off + 2);
    assert (lo + 0x1_0000 * hi) % 0x1_0000 == lo && (lo + 0x1_0000 * hi) / 0x1_0000 == hi;
    lo + 0x1_0000 * hi
  }

  /** Reading back the bytes of a 16-bit value, wherever they are placed,
      gives the value. */
  lemma U16RoundTrip(s: seq<uint8>, off: nat, x: uint16)
    requires off + 2 <= |s| && s[off..off + 2] == U16Bytes(x)
    ensures U16At(s, off) == x
  {
    assert s[off] == x % 0x100 && s[off + 1] == x / 0x100;
  }

  /** Reading back the bytes of a 32-bit value, wherever they are placed,
      gives the value. */
  lemma U32RoundTrip(s: seq<uint8>, off: nat, x: uint32)
    requires off + 4 <= |s| && s[off..off + 4] == U32Bytes(x)
    ensures U32At(s, off) == x
  {
    assert s[off..off + 2] == U32Bytes(x)[..2];
    assert s[off + 2..off + 4] == U32Bytes(x)[2..];
    U16RoundTrip(s, off, x % 0x1_0000);
    U16RoundTrip(s, off + 2, x / 0x1_0000);
  }
}
