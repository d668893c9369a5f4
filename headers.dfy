/** The packed bitmap header records and the filter enumeration.
    Both records are declared with one-byte packing, so their wire layout
    is the fields in declaration order with no padding, each field in the
    little-endian encoding of its width. */
module Headers {
  import opened LittleEndian
  import Wrappers

  const FileHeaderSize: nat := 14
  const InfoHeaderSize: nat := 40

  /** The 14-byte file header. Reserved1 and Reserved2 are documented as
      "must be 0" but nothing checks them, so any value is representable. */
  datatype FileHeader = FileHeader(
    Type: uint16,
    Size: uint32,
    Reserved1: uint16,
    Reserved2: uint16,
    OffBits: uint32)

  /** The 40-byte info header. Width and Height are unsigned here. */
  datatype InfoHeader = InfoHeader(
    Size: uint32,
    Width: uint32,
    Height: uint32,
    Planes: uint16,
    BitCount: uint16,
    Compression: uint32,
    SizeImage: uint32,
    XPelsPerMeter: uint32,
    YPelsPerMeter: uint32,
    ClrUsed: uint32,
    ClrImportant: uint32)

  /** The filter enumeration with its declared codes. */
  datatype FilterID = None | Sepia | Greyscale {
    function Code(): (c: int)
      ensures 0 <= c <= 2
    {
      match this
      case None => 0
      case Sepia => 1
      case Greyscale => 2
    }
  }

  /** The enumerator a raw code names, if any: exactly the codes 0, 1, 2. */
  function FilterFromCode(c: int): (f: Wrappers.Option<FilterID>)
    ensures f.Some? <==> 0 <= c <= 2
    ensures f.Some? ==> f.value.Code() == c
  {
    if c == 0 then Wrappers.Some(None)
    else if c == 1 then Wrappers.Some(Sepia)
    else if c == 2 then Wrappers.Some(Greyscale)
    else Wrappers.None
  }

  /** The codes are distinct and FilterFromCode inverts Code. */
  lemma FilterCodeRoundTrip(f: FilterID, g: FilterID)
    ensures FilterFromCode(f.Code()) == Wrappers.Some(f)
    ensures f.Code() == g.Code() ==> f == g
  {
  }

  /** The bytes of a file header: Type at offset 0, Size at 2, Reserved1 at 6,
      Reserved2 at 8 and OffBits at 10, 14 bytes in all. */
  function SerializeFileHeader(h: FileHeader): (r: seq<uint8>)
    ensures |r| == FileHeaderSize
    ensures U16At(r, 0) == h.Type && U32At(r, 2) == h.Size
    ensures U16At(r, 6) == h.Reserved1 && U16At(r, 8) == h.Reserved2
    ensures U32At(r, 10) == h.OffBits
  {
    var r := U16Bytes(h.Type) + U32Bytes(h.Size) + U16Bytes(h.Reserved1)
      + U16Bytes(h.Reserved2) + U32Bytes(h.OffBits);
    U16RoundTrip(r, 0, h.Type);
    U32RoundTrip(r, 2, h.Size);
    U16RoundTrip(r, 6, h.Reserved1);
    U16RoundTrip(r, 8, h.Reserved2);
    U32RoundTrip(r, 10, h.OffBits);
    r
  }

  /** The file header held in 14 bytes. Every byte string parses (the
      reserved fields are not checked), and serialising the result gives
      back the same bytes. */
  function ParseFileHeader(s: seq<uint8>): (h: FileHeader)
    requires |s| == FileHeaderSize
    ensures SerializeFileHeader(h) == s
  {
    var h := FileHeader(U16At(s, 0), U32At(s, 2), U16At(s, 6), U16At(s, 8), U32At(s, 10));
    assert s == s[0..2] + s[2..6] + s[6..8] + s[8..10] + s[10..14];
    h
  }

  /** Parsing the serialised file header gives back every field. */
  lemma ParseSerializeFileHeader(h: FileHeader)
    ensures ParseFileHeader(SerializeFileHeader(h)) == h
  {
  }

  /** The bytes of an info header: Size, Width, Height (4 bytes each),
      Planes, BitCount (2 bytes each), then Compression, SizeImage,
      XPelsPerMeter, YPelsPerMeter, ClrUsed, ClrImportant (4 bytes each),
      40 bytes in all. */
  function SerializeInfoHeader(h: InfoHeader): (r: seq<uint8>)
    ensures |r| == InfoHeaderSize
    ensures U32At(r, 0) == h.Size && U32At(r, 4) == h.Width && U32At(r, 8) == h.Height
    ensures U16At(r, 12) == h.Planes && U16At(r, 14) == h.BitCount
    ensures U32At(r, 16) == h.Compression && U32At(r, 20) == h.SizeImage
    ensures U32At(r, 24) == h.XPelsPerMeter && U32At(r, 28) == h.YPelsPerMeter
    ensures U32At(r, 32) == h.ClrUsed && U32At(r, 36) == h.ClrImportant
  {
    var r := U32Bytes(h.Size) + U32Bytes(h.Width) + U32Bytes(h.Height)
      + U16Bytes(h.Planes) + U16Bytes(h.BitCount)
      + U32Bytes(h.Compression) + U32Bytes(h.SizeImage)
      + U32Bytes(h.XPelsPerMeter) + U32Bytes(h.YPelsPerMeter)
      + U32Bytes(h.ClrUsed) + U32Bytes(h.ClrImportant);
    U32RoundTrip(r, 0, h.Size);
    U32RoundTrip(r, 4, h.Width);
    U32RoundTrip(r, 8, h.Height);
    U16RoundTrip(r, 12, h.Planes);
    U16RoundTrip(r, 14, h.BitCount);
    U32RoundTrip(r, 16, h.Compression);
    U32RoundTrip(r, 20, h.SizeImage);
    U32RoundTrip(r, 24, h.XPelsPerMeter);
    U32RoundTrip(r, 28, h.YPelsPerMeter);
    U32RoundTrip(r, 32, h.ClrUsed);
    U32RoundTrip(r, 36, h.ClrImportant);
    r
  }

  /** The info header held in 40 bytes. Every byte string parses (Planes,
      BitCount and Compression are not checked), and serialising the result
      gives back the same bytes. */
  function ParseInfoHeader(s: seq<uint8>): (h: InfoHeader)
    requires |s| == InfoHeaderSize
    ensures SerializeInfoHeader(h) == s
  {
    var h := InfoHeader(
      U32At(s, 0), U32At(s, 4), U32At(s, 8), U16At(s, 12), U16At(s, 14),
      U32At(s, 16), U32At(s, 20), U32At(s, 24), U32At(s, 28), U32At(s, 32), U32At(s, 36));
    assert s == s[0..4] + s[4..8] + s[8..12] + s[12..14] + s[14..16]
      + s[16..20] + s[20..24] + s[24..28] + s[28..32] + s[32..36] + s[36..40];
    h
  }

  /** Parsing the serialised info header gives back every field. */
  lemma ParseSerializeInfoHeader(h: InfoHeader)
    ensures ParseInfoHeader(SerializeInfoHeader(h)) == h
  {
  }
}
