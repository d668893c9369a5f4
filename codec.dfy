/** loadBmp and saveBmp, stated over the byte content of the file rather
    than over streams. */
module Codec {
  import opened LittleEndian
  import opened Headers
  import opened Wrappers

  /** "BM" read as a little-endian 16-bit value. */
  const Signature: uint16 := 0x4D42
  /** The fixed header region: file header then info header. */
  const HeadersSize: nat := 54

  /** What loadBmp hands back: both headers and the pixel buffer. */
  datatype Bitmap = Bitmap(fileHeader: FileHeader, infoHeader: InfoHeader, pixels: seq<uint8>)

  /** BadSignature is the tool's "bitmap ID check error". Truncated stands for
      an input too short for one of the reads: the tool does not check the
      counts fread returns, so for such an input it goes on with whatever the
      structs and buffer held, and the model gives no bitmap instead. */
  datatype DecodeError = BadSignature | Truncated

  /** The bytes a well-formed loadBmp result keeps: its pixel buffer is
      exactly SizeImage bytes long. */
  predicate WellFormed(b: Bitmap)
  {
    |b.pixels| == b.infoHeader.SizeImage
  }

  /** loadBmp on a file whose content is data. The file header comes from
      bytes [0, 14) and its signature is checked before anything else is
      used; the info header comes from bytes [14, 54); the pixels are the
      SizeImage bytes at OffBits, whatever lies between byte 54 and OffBits
      being skipped. With SizeImage 0 nothing is read after the seek, so
      OffBits may lie anywhere, even past the end of the file. */
  function Decode(data: seq<uint8>): (r: Result<Bitmap, DecodeError>)
    ensures r == Err(BadSignature) <==> |data| >= FileHeaderSize && U16At(data, 0) != Signature
    ensures r.Ok? <==>
      |data| >= HeadersSize && U16At(data, 0) == Signature
      && (U32At(data, 34) == 0 || U32At(data, 10) + U32At(data, 34) <= |data|)
    ensures r.Ok? ==>
      var b := r.value;
      WellFormed(b) && b.fileHeader.Type == Signature
      && SerializeFileHeader(b.fileHeader) == data[..FileHeaderSize]
      && SerializeInfoHeader(b.infoHeader) == data[FileHeaderSize..HeadersSize]
      && (b.infoHeader.SizeImage > 0 ==>
            b.pixels == data[b.fileHeader.OffBits..b.fileHeader.OffBits + b.infoHeader.SizeImage])
  {
    if |data| < FileHeaderSize then Err(Truncated)
    else
      var fh := ParseFileHeader(data[..FileHeaderSize]);
      U16RoundTrip(data, 0, fh.Type);
      if fh.Type != Signature then Err(BadSignature)
      else if |data| < HeadersSize then Err(Truncated)
      else
        var ih := ParseInfoHeader(data[FileHeaderSize..HeadersSize]);
        U32RoundTrip(data, 10, fh.OffBits);
        U32RoundTrip(data, 34, ih.SizeImage);
        if ih.SizeImage == 0 then Ok(Bitmap(fh, ih, []))
        else if |data| < fh.OffBits + ih.SizeImage then Err(Truncated)
        else Ok(Bitmap(fh, ih, data[fh.OffBits..fh.OffBits + ih.SizeImage]))
  }

  /** saveBmp: the file header, the info header and the first SizeImage bytes
      of the pixel buffer, back to back. OffBits is written as given even
      though the pixels always land at byte 54. */
  function Encode(fh: FileHeader, ih: InfoHeader, pixels: seq<uint8>): (r: seq<uint8>)
    requires ih.SizeImage <= |pixels|
    ensures |r| == HeadersSize + ih.SizeImage
    ensures ParseFileHeader(r[..FileHeaderSize]) == fh && ParseInfoHeader(r[FileHeaderSize..HeadersSize]) == ih
    ensures U32At(r, 10) == fh.OffBits
    ensures r[HeadersSize..] == pixels[..ih.SizeImage]
  {
    var r := SerializeFileHeader(fh) + SerializeInfoHeader(ih) + pixels[..ih.SizeImage];
    assert r[..FileHeaderSize] == SerializeFileHeader(fh);
    assert r[FileHeaderSize..HeadersSize] == SerializeInfoHeader(ih);
    ParseSerializeFileHeader(fh);
    ParseSerializeInfoHeader(ih);
    r
  }

  /** Saving a bitmap whose pixels start right after the headers, or which
      has no pixels at all, and loading the result gives back the same
      headers and pixels. */
  lemma DecodeEncode(fh: FileHeader, ih: InfoHeader, pixels: seq<uint8>)
    requires fh.Type == Signature && |pixels| == ih.SizeImage
    requires fh.OffBits == HeadersSize || ih.SizeImage == 0
    ensures Decode(Encode(fh, ih, pixels)) == Ok(Bitmap(fh, ih, pixels))
  {
    var data := Encode(fh, ih, pixels);
    assert data[..FileHeaderSize] == SerializeFileHeader(fh);
    assert data[FileHeaderSize..HeadersSize] == SerializeInfoHeader(ih);
    assert data[HeadersSize..HeadersSize + ih.SizeImage] == pixels;
    ParseSerializeFileHeader(fh);
    ParseSerializeInfoHeader(ih);
  }

  /** Loading a file whose pixels start right after the headers, or which
      has no pixels at all, and saving what was loaded reproduces the file
      byte for byte, up to the end of the pixel data. */
  lemma EncodeDecode(data: seq<uint8>)
    requires Decode(data).Ok?
    requires Decode(data).value.fileHeader.OffBits == HeadersSize || Decode(data).value.infoHeader.SizeImage == 0
    ensures var b := Decode(data).value;
      Encode(b.fileHeader, b.infoHeader, b.pixels) == data[..HeadersSize + b.infoHeader.SizeImage]
  {
    var b := Decode(data).value;
    var n := HeadersSize + b.infoHeader.SizeImage;
    assert data[..n] == data[..FileHeaderSize] + data[FileHeaderSize..HeadersSize] + data[HeadersSize..n];
  }

  /** OffBits is never rewritten on save: when the loaded file had a gap
      (a palette, say) between the headers and the pixels, the saved file
      still names the old offset, which lies past the pixels it actually
      holds, so loading the saved file runs short. A bitmap without pixels
      reads nothing at that offset and reloads (DecodeEncode). */
  lemma EncodeKeepsGapOffset(fh: FileHeader, ih: InfoHeader, pixels: seq<uint8>)
    requires fh.Type == Signature && fh.OffBits > HeadersSize && |pixels| == ih.SizeImage
    requires ih.SizeImage > 0
    ensures Decode(Encode(fh, ih, pixels)) == Err(Truncated)
  {
    var data := Encode(fh, ih, pixels);
    assert data[..FileHeaderSize] == SerializeFileHeader(fh);
    assert data[FileHeaderSize..HeadersSize] == SerializeInfoHeader(ih);
  }
}
