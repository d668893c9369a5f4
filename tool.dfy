/** One run of the tool on a file's content: load, optionally invert, apply
    the filter when its code is non-zero, save. The in-place steps are the
    methods of Transforms; here they are stated through the functions those
    methods are proved against. */
module Tool {
  import opened LittleEndian
  import opened Headers
  import opened Wrappers
  import opened Codec
  import opened Transforms

  /** Whether the filter step can be modelled for this input: sepia is not
      modelled, and greyscale needs whole triplets. */
  predicate FilterSupported(input: seq<uint8>, filter: uint8)
  {
    filter != FilterID.Sepia.Code()
    && (filter == FilterID.Greyscale.Code() && Decode(input).Ok? ==>
          Decode(input).value.infoHeader.SizeImage % 3 == 0)
  }

  /** The content of the output file, or why loading failed. The output
      keeps the 54 header bytes of the input exactly (no transform touches a
      header field), and after them come the loaded pixels as the transform
      step leaves them. */
  function Run(input: seq<uint8>, invert: bool, filter: uint8): (r: Result<seq<uint8>, DecodeError>)
    requires FilterSupported(input, filter)
    ensures r.Ok? <==> Decode(input).Ok?
    ensures r.Err? ==> r.error == Decode(input).error
    ensures r.Ok? ==> |r.value| == HeadersSize + U32At(input, 34) && r.value[..HeadersSize] == input[..HeadersSize]
    ensures r.Ok? ==> r.value[HeadersSize..] == Transformed(Decode(input).value.pixels, |Decode(input).value.pixels|, invert, filter)
  {
    match Decode(input)
    case Err(e) => Err(e)
    case Ok(b) =>
      var out := Encode(b.fileHeader, b.infoHeader, Transformed(b.pixels, |b.pixels|, invert, filter));
      assert out[..FileHeaderSize] == SerializeFileHeader(b.fileHeader);
      assert out[FileHeaderSize..HeadersSize] == SerializeInfoHeader(b.infoHeader);
      assert input[..HeadersSize] == input[..FileHeaderSize] + input[FileHeaderSize..HeadersSize];
      Ok(out)
  }

  /** Inverting a file whose pixels follow the headers, then inverting the
      result, gives back the file up to the end of its pixel data. */
  lemma RunInvertTwice(input: seq<uint8>)
    requires Decode(input).Ok? && Decode(input).value.fileHeader.OffBits == HeadersSize
    ensures var once := Run(input, true, 0);
      once.Ok? && FilterSupported(once.value, 0)
      && Run(once.value, true, 0) == Ok(input[..HeadersSize + Decode(input).value.infoHeader.SizeImage])
  {
    var b := Decode(input).value;
    var inv := Inverted(b.pixels, |b.pixels|);
    var once := Encode(b.fileHeader, b.infoHeader, inv);
    DecodeEncode(b.fileHeader, b.infoHeader, inv);
    InvertedTwice(b.pixels, |b.pixels|);
    EncodeDecode(input);
  }

  /** Greyscaling a file whose pixels follow the headers a second time
      changes nothing. */
  lemma RunGreyscaleTwice(input: seq<uint8>)
    requires Decode(input).Ok? && Decode(input).value.fileHeader.OffBits == HeadersSize
    requires Decode(input).value.infoHeader.SizeImage % 3 == 0
    ensures var once := Run(input, false, 2);
      once.Ok? && FilterSupported(once.value, 2) && Run(once.value, false, 2) == once
  {
    var b := Decode(input).value;
    var grey := Greyscaled(b.pixels, |b.pixels|);
    DecodeEncode(b.fileHeader, b.infoHeader, grey);
    GreyscaledTwice(b.pixels, |b.pixels|);
  }
}
