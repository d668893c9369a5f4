# bmp-img-manipulator: bitmap codec and pixel transforms in Dafny

This project models the core of a small C command-line tool for 24-bit
uncompressed bitmaps. The tool loads a `.bmp` file into two packed header
structs and a pixel buffer. It can invert the pixels and apply a
greyscale (or sepia) filter in place. It then writes headers and pixels back out.

The model has six modules:

- `LittleEndian` (little_endian.dfy): `uint8`/`uint16`/`uint32` as bounded
  integer types, and the little-endian byte encoding of the 16- and 32-bit
  ones. The tool `fread`s and `fwrite`s its packed structs directly, so the
  bytes on disk are the host's memory layout. The model assumes a
  little-endian host, where that layout is exactly this encoding.
- `Headers` (headers.dfy): the 14-byte file header, the 40-byte info header
  and the filter enumeration, as datatypes. Each record has a pure
  `Serialize`/`Parse` pair, with its field offsets and round trips proved.
- `Codec` (codec.dfy): `loadBmp` and `saveBmp` as pure functions over the
  file's bytes (`Decode`, `Encode`), with round-trip lemmas in both
  directions. They also prove the consequence of `OffBits` never being
  rewritten on save.
- `Transforms` (transforms.dfy): `reverseBmp` and `applyFilter` as methods
  that change an `array<uint8>` in place with loops. Each method is proved
  against a function of the old contents (`Inverted`, `Greyscaled`). Those
  functions are proved to be an involution and idempotent.
  `Process` composes the methods in the order the tool's `main` uses and is
  proved against `Transformed`, which states that step byte by byte.
- `Tool` (tool.dfy): one whole run (load, transform, save) as a function
  over file contents, with file-level lemmas.
- `Wrappers` (wrappers.dfy): `Option` and `Result`.

Where the C code does something surprising, the model follows it:

- Load does not detect a short input. The C never checks what `fread`
  returns. The model returns the model-only error `Truncated` for an input
  too short for one of the reads. It makes no claim that the tool reports
  this.
- Load seeks to `OffBits` even when that offset lies inside the 54 header
  bytes. The model then takes the pixels from there too.
- Load keeps the pixel bytes in the order the file stores them (BGR for a
  24-bit bitmap). The comment above `loadBmp` (helper.c:8-9) says it puts
  the pixel array in RGB order, but the code reads the bytes as they are
  (helper.c:58) and reorders nothing. The model follows the code.
- With SizeImage 0, load reads nothing after the seek, so it succeeds with
  an empty pixel buffer wherever `OffBits` points, even past the end of the
  file.

## Model

| member | source | states |
|---|---|---|
| `LittleEndian.U16RoundTrip` | helper.h:21-29 | the 2 little-endian bytes of any 16-bit field, placed at any offset, read back as that field |
| `LittleEndian.U32RoundTrip` | helper.h:32-46 | the 4 little-endian bytes of any 32-bit field, placed at any offset, read back as that field |
| `Headers.SerializeFileHeader` | helper.h:21-29 | the packed file header is exactly 14 bytes: Type (u16) at 0, Size (u32) at 2, Reserved1 (u16) at 6, Reserved2 (u16) at 8, OffBits (u32) at 10 |
| `Headers.ParseFileHeader` | helper.c:33-34 | every 14-byte string is accepted as a file header, whatever the reserved fields hold, and writing the parsed header back gives the same 14 bytes |
| `Headers.ParseSerializeFileHeader` | helper.h:21-29 | parsing a serialised file header gives back every field |
| `Headers.SerializeInfoHeader` | helper.h:32-46 | the packed info header is exactly 40 bytes in declared order: Size, Width, Height (u32) at 0/4/8, Planes, BitCount (u16) at 12/14, then Compression, SizeImage, XPelsPerMeter, YPelsPerMeter, ClrUsed, ClrImportant (u32) at 16..36 |
| `Headers.ParseInfoHeader` | helper.c:42-43 | every 40-byte string is accepted as an info header (Planes, BitCount, Compression unchecked), and writing it back gives the same 40 bytes |
| `Headers.ParseSerializeInfoHeader` | helper.h:32-46 | parsing a serialised info header gives back every field |
| `Headers.FilterFromCode` | helper.h:14-18 | exactly the codes 0, 1, 2 name a filter (none, sepia, greyscale), and the filter named has that code |
| `Headers.FilterCodeRoundTrip` | helper.h:14-18 | the three filter codes are distinct, and looking up a filter's code gives back that filter |
| `Codec.Decode` | helper.c:20-68 | for an input of at least 14 bytes, fails with BadSignature exactly when the first two bytes, read little-endian, are not 0x4D42, whatever follows. It succeeds exactly when the signature is right, the input holds 54 header bytes, and either SizeImage is 0 or the input holds the SizeImage bytes at OffBits. On success the file header is bytes [0,14) and the info header bytes [14,54). The pixels are SizeImage bytes long: with SizeImage 0 they are empty whatever OffBits is, and otherwise they are exactly bytes [OffBits, OffBits+SizeImage), so any gap after byte 54 is skipped |
| `Codec.Encode` | helper.c:85-110 | the output is 54 + SizeImage bytes. Its first 14 bytes read back as the given file header, with OffBits unchanged. The next 40 read back as the given info header, and then come the first SizeImage pixel bytes with no gap |
| `Codec.DecodeEncode` | helper.c:100-106 | saving a bitmap with Type 0x4D42 and SizeImage pixels, whose OffBits is 54 or whose SizeImage is 0, then loading it, gives back the same headers and pixels |
| `Codec.EncodeDecode` | helper.c:100-106 | loading a file whose OffBits is 54, or whose SizeImage is 0, and saving the result reproduces the file byte for byte up to the end of its pixel data |
| `Codec.EncodeKeepsGapOffset` | helper.c:46-106 | a bitmap with at least one pixel byte whose OffBits is past byte 54 (a palette gap) is saved with that OffBits but with its pixels at byte 54, so loading the saved file runs short |
| `Transforms.Complement` | helper.c:134 | `~b` on a promoted byte, stored back into a `uint8_t`, is 255 - b |
| `Transforms.Grey` | helper.c:178 | the greyscale value is the C integer mean of the three channels: the `fmin(..., 255.0)` cap and the byte store never change it |
| `Transforms.Inverted` | helper.c:133-135 | after inverting the first n bytes, each byte below n is 255 minus its old value, the bytes from n on are unchanged, and the length is the same |
| `Transforms.InvertedTwice` | helper.c:133-134 | inverting the same prefix twice restores the buffer |
| `Transforms.Greyscaled` | helper.c:177-180 | with n a multiple of 3, each triplet below n becomes three copies of its grey value, the bytes from n on are unchanged, and the length is the same |
| `Transforms.GreyscaledTwice` | helper.c:177-179 | greyscale applied twice equals greyscale applied once |
| `Transforms.ReverseBmp` | helper.c:127-138 | the buffer's contents become `Inverted(old contents, SizeImage)`, and the same buffer is returned |
| `Transforms.ApplyFilter` | helper.c:156-187 | with the greyscale code the contents become `Greyscaled(old contents, SizeImage)`. With none or any code outside the enumeration they are unchanged. The same buffer is returned |
| `Transforms.Process` | main.c:90-94 | invert when asked, then filter when the filter code is non-zero: the contents become `Transformed(old contents, SizeImage, invert, filter)` |
| `Transforms.Transformed` | main.c:91-94 | with any filter code but greyscale's (and not sepia's), each of the first n bytes is 255 minus the old byte when inverting and the old byte otherwise. With greyscale's code, each triplet below n becomes three copies of the grey of its bytes after the optional inversion. Bytes from n on and the length are unchanged |
| `Tool.Run` | main.c:78-100 | a run succeeds exactly when loading does and fails with loading's error. The output keeps the input's 54 header bytes exactly, is 54 + SizeImage bytes long, and its bytes from 54 on are the loaded pixels after `Transformed` |
| `Tool.RunInvertTwice` | main.c:90-100 | inverting a file whose OffBits is 54, then inverting the output, reproduces the file up to the end of its pixel data |
| `Tool.RunGreyscaleTwice` | main.c:93-100 | greyscaling the output of a greyscale run on a file whose OffBits is 54 changes nothing |

## Left out

- The sepia branch of `applyFilter` (helper.c:166-173) is not modelled. It uses double-precision arithmetic with truncating casts, and it reads channels it has already overwritten in the same triplet.
- ApplyFilter: requires a filter code other than sepia's, because of the sepia omission above.
- ApplyFilter: requires SizeImage to be a multiple of 3 for greyscale. For other sizes the C loop reads and writes up to two bytes past the buffer (helper.c:177-179), which is an out-of-bounds access and is not modelled. The same requirement is on `Process`, `Transformed` and `Tool.Run`.
- Transforms.Transformed: requires a filter code other than sepia's, and so do `Process` and `Tool.Run`, because sepia is not modelled.
- Codec.Decode: does not model what the C does with an input that is too short. The C does not check `fread`'s count and carries on with indeterminate bytes. The model returns `Truncated` instead, only when some read would fall short; with SizeImage 0 the pixel read is empty and never falls short. An input shorter than 14 bytes gives `Truncated` even when its signature is wrong.
- Opening, seeking, closing and process exit are I/O. Only the bitmap ID exit (helper.c:37-40) becomes an error result (`BadSignature`). The open failures in loadBmp and saveBmp (helper.c:28-31, 94-97) are not modelled; allocation failure is covered below.
- Allocation failure in `loadBmp` is not modelled. This includes `malloc(0)` for SizeImage 0, which may return NULL and end the program; the model takes it to succeed and loads an empty buffer. The check of `bmpimg == NULL` after the read (helper.c:61) can never fire.
- `endianness` (helper.c:204-211) probes the host byte order and is only printed. The model assumes a little-endian host.
- `help` and `bmpDump` (helper.c:227-301) only print text and are not modelled.
- `rotate` (helper.c:320-327) is an empty stub that changes nothing. It is left out rather than modelled as an identity.
- The filter code is taken as main.c stores it, a `uint8_t` (main.c:45, 71). The conversion of `atoi`'s int to that byte is not modelled: `-f 258` arrives as code 2 and greyscales, and the model starts from the stored code 2.
- main.c's option parsing (`getopt_long`, `atoi`) and the choice of output file name (default "output.bmp") are not modelled. Only the invert-then-filter order is kept (`Process`, `Transformed`, `Tool.Run`).
