# tiny-bmp-editor in Dafny

A model of the core of tiny-bmp-editor, a small WPF editor for 8-bit
indexed Windows bitmaps.  The editor reads a BMP file (a 54-byte header, a
colour table of `2^bitCount` entries, then the pixel data, stored raw or
compressed with BI_RLE8), lets the user invert the brightness or paint a
white rectangle, shows the image with its rows turned top-down, and writes
the file back, always compressing the pixels with its own BI_RLE8 encoder.

The project is organised as the program is:

- `bytes.dfy` (`Bytes`): byte, `u16`/`u32`/`i32` types, C# `int` wrap-around
  and truncating division, the little-endian reads of `BinaryReader` and
  writes of `BinaryWriter`, and the in-place overwrite a `Seek` followed by
  a write performs.
- `wrappers.dfy` (`Wrappers`): `Option`.
- `pixels.dfy` (`Pixels`): the row stride `(width + 3) / 4 * 4`, the
  bottom-up pixel offset, and the specifications of the three edits of the
  pixel buffer (brightness inversion, the clipped rectangle fill, the row
  reversal for display).
- `rle_encoding.dfy` (`RleEncoding`): `RLEEncoder`, as a specification
  function `Encode` and the imperative `Encoder` proved equal to it.
- `rle_decoding.dfy` (`RleDecoding`): `RLEDecoder`, as a step function over
  two cursors (`currentPos`, `rleIndex`) and the imperative `Decoder`, which
  writes into an array, proved equal to it.
- `rle_roundtrip.dfy` (`RleRoundTrip`): decoding what the encoder produced
  restores the image.
- `bmp_file.dfy` (`BmpFile`): the header, colour table and model state as
  values; `Read` (what `ReadBMP` does to the model for given file bytes)
  and `Write` (the bytes `WriteBMP` leaves in the file), with their
  round-trip properties.
- `bmp_model.dfy` (`BmpModel`): the class `BMPModel` with its fields and
  the imperative edits, display reordering, read and write.
- `bmp_view_model.dfy` (`BmpViewModel`): the class `BMPViewModel`, with
  corner normalisation and the bookkeeping of the last resource loaded.

The file system is a map from file names to byte sequences.  A method that
would raise an exception out of the source returns `false` (or `Threw` for
`BMPModel.ReadBMP`, which distinguishes an exception from a `false`
result).

## Model

| member | source | states |
|---|---|---|
| Bytes.U16RoundTrip | BMPModel.cs:370-371 | a `u16` written little-endian reads back as itself at its offset |
| Bytes.U32RoundTrip | BMPModel.cs:369 | a `u32` written little-endian reads back as itself at its offset |
| Bytes.I32RoundTrip | BMPModel.cs:376-377 | an `i32` written in two's complement reads back as itself |
| Bytes.Wrap32 | BMPModel.cs:303 | C# unchecked `int` arithmetic: the identity inside the 32-bit range, congruent modulo 2^32 outside it |
| Bytes.TruncDiv | BMPModel.cs:67 | C# integer division truncates toward zero: the remainder `a - q*b` has the sign of the dividend and is smaller than the divisor in magnitude |
| Bytes.TruncRem | BMPModel.cs:285 | C# `%`: the remainder left by the truncating division, between 0 and `|b|` for a non-negative dividend and between `-|b|` and 0 for a negative one |
| Bytes.Wrap32Absorbs | BMPModel.cs:303 | wrapping an intermediate result of unchecked `int` addition does not change the wrapped sum |
| Bytes.Overwrite | BMPModel.cs:474-479 | a seek and write replaces exactly the bytes at the offset, keeps the length and every other byte |
| Pixels.Stride | BMPModel.cs:67 | the row stride `(w + 3) / 4 * 4`, computed in unchecked `int`, is always a multiple of 4 |
| Pixels.StrideBounds | BMPModel.cs:67 | for `0 <= w` below the wrap-around, the stride is the width rounded up: `w <= s < w + 4` |
| Pixels.PixelIndexInBuffer | BMPModel.cs:76 | for a pixel inside the image, the bottom-up offset `PixelIndex` `i + (H-1-j)*s` lies in `[0, s*H)` and division by the stride recovers the row and the column |
| Pixels.PixelIndexInjective | BMPModel.cs:76 | distinct pixels of the image have distinct offsets |
| Pixels.StorageIndexExact | BMPModel.cs:76 | on an image that fits 32 bits, the wrapped offset `StorageIndex` the fill computes is the exact `PixelIndex` |
| Pixels.Inverted | BMPModel.cs:57-63 | same length, every byte `b` becomes `255 - b` |
| Pixels.InvertedInvolution | BMPModel.cs:57-63 | inverting twice restores the buffer |
| Pixels.FitsImage | BMPModel.cs:65-83 | on a buffer of `s*H` bytes every rectangle pixel has its offset inside it, so the fill never throws |
| Pixels.Filled | BMPModel.cs:65-83 | the fill keeps the buffer's length (its content is stated by `FilledSpec`) |
| Pixels.FilledSpec | BMPModel.cs:65-83 | after the fill, a byte is 255 exactly when it is the offset of a pixel in `[x1,x2) x [y1,y2)` inside the image, and unchanged otherwise |
| Pixels.FilledOffsetInRectangle | BMPModel.cs:65-83 | every byte the fill changes is the offset of a pixel of the clipped rectangle |
| Pixels.FilledEmptyRange | BMPModel.cs:65-83 | when `x1 >= x2` or `y1 >= y2` the fill changes nothing |
| Pixels.FilledIdempotent | BMPModel.cs:65-83 | filling the same rectangle twice equals filling it once |
| Pixels.RowsReversed | BMPModel.cs:125-136 | the display buffer holds exactly `H` rows of the row size (the bytes of each are stated by `RowsReversedAt`) |
| Pixels.RowsReversedAt | BMPModel.cs:125-136 | byte `c` of display row `r` is byte `c` of stored row `H-1-r` |
| Pixels.RowsReversedInvolution | BMPModel.cs:125-136 | reversing the rows twice restores the buffer |
| RleEncoding.RunLength | BMPModel.cs:169-177 | a run scan started at length `r` yields a length between `r` and 255 |
| RleEncoding.RunLengthRun | BMPModel.cs:169-177 | within the stride the scan stops at 255, at the end of the stride or at the first different byte, and every scanned byte equals the first |
| RleEncoding.FlushLength | BMPModel.cs:183-206 | pending literals of length 1-2 cost two bytes each; of length `n >= 3`, `2 + n + n % 2` bytes (escape, count, bytes, pad) |
| RleEncoding.Encoder | BMPModel.cs:154-260 | the encoding loop produces exactly the stream `Encode` specifies, or fails where an index leaves the buffer |
| RleEncoding.EncodeRowInto | BMPModel.cs:164-247 | the scan of one row appends exactly that row's packets, pending literals flushed at the row's end |
| RleEncoding.ScanRun | BMPModel.cs:169-177 | the inner scan loop computes the run length of the specification |
| RleEncoding.FlushLiterals | BMPModel.cs:183-206 | pending literals are appended as `1,b` pairs when fewer than 3, as an absolute packet otherwise |
| RleEncoding.Pairs | BMPModel.cs:187-191 | two bytes per pending literal |
| RleEncoding.Absolute | BMPModel.cs:195-204 | the absolute packet is `0`, the count as a byte, the literals themselves, and as many pad bytes as make its length even |
| RleEncoding.AppendPairs | BMPModel.cs:187-191 | each pending literal becomes the pair `1, b` |
| RleEncoding.AppendAbsolute | BMPModel.cs:195-204 | absolute packet: `0`, the count as a byte, the bytes, one zero pad when the count is odd |
| RleEncoding.EncodeSucceeds | BMPModel.cs:154-260 | on a buffer of at least `s*H` bytes the encoder succeeds, with at most `2 + H*(2s+2)` bytes |
| RleEncoding.EncodeEndsWithEndOfBitmap | BMPModel.cs:257-259 | every stream ends with the end-of-bitmap escape `0, 1` |
| RleEncoding.FlushPackets | BMPModel.cs:183-206 | flushing at most 255 pending literals (`Flush`) emits well-formed packets: `1,b` pairs or one absolute packet with a count of at least 3, padded to even length |
| RleEncoding.PacketsAppend | BMPModel.cs:154-260 | a concatenation of well-formed packet streams is one |
| RleEncoding.EncodeRowPackets | BMPModel.cs:164-247 | a row (`EncodeRow`) of at most 255 pending and remaining literals encodes to well-formed packets only: encoded runs of 3..255, `1,b` pairs, absolute packets; never a count 2 escape (delta) or `0,1` |
| RleEncoding.EncodeRowsPackets | BMPModel.cs:249-259 | for width at most 255 the rows (`EncodeRows`) encode to well-formed packets, the `0,0` row ends among them, followed by a single `0,1` that no earlier packet repeats |
| RleEncoding.EncodePackets | BMPModel.cs:154-260 | for width at most 255, `Encode` yields well-formed packets followed by `0,1`: run packets have counts 3..255 and the stream holds no delta escape |
| RleEncoding.RunExample | BMPModel.cs:180-212 | `[10,10,10,10]`, width 4, one row, encodes to `4,10,0,1` |
| RleEncoding.AbsoluteExample | BMPModel.cs:193-205 | `[1,2,3]` with zero padding, width 3, encodes to `0,3,1,2,3,0,0,1` |
| RleEncoding.PairsExample | BMPModel.cs:223-232 | two pending literals at the end of a row are written as `1,b` pairs |
| RleEncoding.RunIntoPaddingExample | BMPModel.cs:173 | the run scan is bounded by the stride, so a run covers padding bytes (`[7,7,7,7]`, width 3, gives `4,7,0,1`) |
| RleDecoding.Decoder | BMPModel.cs:263-349 | the decoding loop leaves the array as `Decode` specifies, and returns true exactly when decoding ends without reading past the stream or writing outside the array |
| RleDecoding.Repeat | BMPModel.cs:338-346 | an encoded packet never ends decoding and keeps the buffer's length and the stream index (what it writes is `RepeatWrites`) |
| RleDecoding.Literals | BMPModel.cs:306-331 | an absolute packet never ends decoding, moves the stream index forward only and keeps the buffer's length (what it writes is `AbsolutePacket`) |
| RleDecoding.Step | BMPModel.cs:275-347 | one packet consumes at least one stream byte when decoding goes on, and never changes the buffer's length (the `0,0` move uses the truncating `TruncRem` of line 285 and, like the delta move, unchecked `int` addition; see `EndOfLineAligns`) |
| RleDecoding.Run | BMPModel.cs:273-349 | the decoding loop keeps the buffer's length, whatever its outcome |
| RleDecoding.Decode | BMPModel.cs:263-349 | decoding starts at position 0 and stream index 0 and keeps the buffer's length; the write bound is a parameter, which the read passes as the unchecked product `s*H` of line 313 |
| RleDecoding.DeltaMoves | BMPModel.cs:298-304 | `0,2,dx,dy` moves the position by `dx + dy*s` in unchecked `int` arithmetic, exactly when the new position fits 32 bits, and consumes four bytes without writing |
| RleDecoding.StepInPlace | BMPModel.cs:275-347 | one packet decoded in place as the step function specifies |
| RleDecoding.RepeatInPlace | BMPModel.cs:338-346 | an encoded packet writes its value `n` times, each write guarded by the bound |
| RleDecoding.LiteralsInPlace | BMPModel.cs:306-331 | an absolute packet copies its bytes, consuming one unwritten pad byte when the count is odd |
| RleDecoding.DecodeKeepsBeyondBound | BMPModel.cs:313 | no byte at an offset at or past the bound `s*H` is ever written |
| RleDecoding.EndOfLineAligns | BMPModel.cs:282-290 | `0,0` moves the position to the next multiple of the stride, and not at all when it is already one; the move wraps as C# `int` does, and is exact when the target fits 32 bits |
| RleDecoding.EndOfBitmapStops | BMPModel.cs:292-296 | `0,1` ends decoding successfully and nothing after it is read |
| RleDecoding.TruncatedPacketFaults | BMPModel.cs:275-280 | a stream ending after the first byte of a packet faults |
| RleDecoding.DeltaExample | BMPModel.cs:298-304 | `0,2,3,1,0,1` with stride 4, height 2 leaves the buffer untouched |
| RleDecoding.RepeatWrites | BMPModel.cs:338-346 | below the bound, an encoded packet overwrites exactly `n` bytes at the position with its value and advances the position by `n` |
| RleDecoding.AbsolutePacket | BMPModel.cs:306-331 | below the bound, an absolute packet overwrites exactly its `n` bytes and consumes `n` rounded up to even |
| RleRoundTrip.RoundTrip | BMPModel.cs:154-349 | for `1 <= W <= 255`, `H >= 1` and `s*H` bytes (at most `int.MaxValue`, as any C# array), decoding the encoding into zeros succeeds, restores every byte at a column below the width, and restores each padding byte or leaves it zero |
| RleRoundTrip.RoundTripExact | BMPModel.cs:154-349 | with zero padding, decoding the encoding into zeros gives back the buffer exactly |
| RleRoundTrip.RampEncodes | BMPModel.cs:223-245 | the row `0, 1, ..., 255` (width 256, one row) is gathered as 256 literals and flushed at the row's end as one absolute packet whose count byte is `(byte)256 = 0` |
| RleRoundTrip.WideRowLost | BMPModel.cs:236 | that stream decodes to an all-zero buffer: the count 0 reads as end of line, the first two pixels `0, 1` as end of bitmap, so the whole row is lost |
| BmpFile.Read | BMPModel.cs:352-425 | a read succeeds only on a file starting with `BM` that holds a whole header; the header becomes the one read, and colour entries are only added |
| BmpFile.ReadNeedsSignature | BMPModel.cs:361-367 | a file not starting with `BM` fails the read, changing only the signature |
| BmpFile.HeaderAfterRead | BMPModel.cs:361-385 | the signature is the first two bytes; without `BM` nothing else changes; with it and a whole header, width, height, bit count, compression and data size are the little-endian fields at offsets 18, 22, 28, 30, 34 |
| BmpFile.PaletteCount | BMPModel.cs:388 | `2^bitCount` entries, at least 1, saturated to `int.MaxValue` above bit count 30 |
| BmpFile.ReadColorTable | BMPModel.cs:388-396 | the table read keeps the header, appends entries to the old table, exactly `PaletteCount` of them on success, and fails with only the table changed when the file ends first |
| BmpFile.ReadPixels | BMPModel.cs:399-417 | keeps header and table; on success the payload is the `min(dataSize, rest)` bytes after the table, compression 0 makes it the pixel buffer and any other compression leaves a buffer of `PixelBufferLength` bytes |
| BmpFile.ReadPixelsOtherCompression | BMPModel.cs:404-417 | a compression other than 0 or 1 succeeds with the old buffer resized, zeros on a fresh model |
| BmpFile.EightBitBufferLength | BMPModel.cs:401-404 | at 8 bits the resize length `PixelBufferLength` is exactly `s*H` |
| BmpFile.Write | BMPModel.cs:428-492 | a write succeeds exactly when the model has a signature and its pixels encode; the file's length is then the signature's plus 52 header bytes, 4 bytes per table entry and the encoding's |
| BmpFile.Entries | BMPModel.cs:388-396 | the colour-table read yields the requested number of entries |
| BmpFile.Resized | BMPModel.cs:404 | the resize keeps the old bytes that fit and pads with zeros |
| BmpFile.HeaderBytes | BMPModel.cs:442-459 | the written header is the signature plus 52 bytes |
| BmpFile.PaletteBytes | BMPModel.cs:462-468 | four bytes per colour-table entry |
| BmpFile.HeaderRoundTrip | BMPModel.cs:361-385 | the header reads, on a file starting with a written header, give back every field of that header |
| BmpFile.PaletteRoundTrip | BMPModel.cs:388-396 | the colour-table reads give back the written table in order |
| BmpFile.ReadHeaderStage | BMPModel.cs:361-385 | a written file passes the signature check and holds a whole header |
| BmpFile.ReadSerialised | BMPModel.cs:352-425 | reading an 8-bit file with 256 colours: the header and table come back, the payload is `min(dataSize, rest)` bytes, compression 0 makes it the pixel buffer and compression 1 decodes it into zeros of `s*H` bytes |
| BmpFile.WriteLayout | BMPModel.cs:428-479 | the written file is header, table and encoded stream, with only the size at offset 2 and the data size at offset 34 replaced |
| BmpFile.RewriteRead | BMPModel.cs:399-479 | writing and reading back returns the header with the patched sizes, the same table, and the decoding of a payload cut to the data size last read |
| BmpFile.WriteThenRead | BMPModel.cs:399-479 | when the new encoding is no longer than the payload last read, writing and reading back returns the same pixels |
| BmpFile.StaleDataSizeExample | BMPModel.cs:479 | a data size patched from a 2-byte payload cuts an 8-byte encoding, and only the first row decodes |
| BmpFile.WhiteEncodeExample | BMPModel.cs:154-260 | an all-white 4x2 image encodes to `4,255,0,0,4,255,0,1` |
| BmpFile.FirstRunExample | BMPModel.cs:335-346 | decoding `4,255` into 8 zeros whitens only the first row |
| BmpModel.BMPModel.constructor | BMPModel.cs:45-50 | a new model has the empty file name, an empty header and table and empty buffers |
| BmpModel.BMPModel.InvertBrightness | BMPModel.cs:57-63 | the buffer becomes its inversion |
| BmpModel.BMPModel.DrawRectangle | BMPModel.cs:65-83 | returns normally exactly when every rectangle pixel's offset fits the buffer (always on an image buffer), and then leaves the filled buffer; otherwise stops at the first offset outside the buffer with every earlier pixel painted |
| BmpModel.BMPModel.FillRow | BMPModel.cs:71-81 | one row of the fill, in column order: returns normally exactly when every offset of the row fits, otherwise stops at the first that does not with every earlier pixel of the row painted |
| BmpModel.DisplayBytes | BMPModel.cs:85-136 | display fails at depths other than 8 and 4, is empty at 4, and at 8 holds `H` rows of one stride each |
| BmpModel.BMPModel.UpdateBMPImage | BMPModel.cs:85-136 | the display bytes are the stored rows in reverse order (row size one stride at 8 bits, zero at 4), or a failure for other depths or when a row runs past the buffer |
| BmpModel.BMPModel.CopyRows | BMPModel.cs:126-131 | the copy loop yields the `H` stored rows, or fails when one runs past the buffer |
| BmpModel.ConcatenatedRows | BMPModel.cs:126-136 | copying, reversing and flattening the rows gives the rows in display order |
| BmpModel.BMPModel.ReadBMP | BMPModel.cs:352-425 | the name is recorded; a missing file throws leaving the rest unchanged; otherwise the result and the new state are those of `Read` on the file's bytes |
| BmpModel.BMPModel.ReadColorTable | BMPModel.cs:388-396 | the colour-table loop appends entries read whole, and fails when the file ends first |
| BmpModel.BMPModel.ReadPixels | BMPModel.cs:399-417 | payload read, buffer resize and compression dispatch as `ReadPixels` specifies |
| BmpModel.BMPModel.WriteBMP | BMPModel.cs:428-492 | the file is replaced by the bytes `Write` specifies, or emptied when it returns false |
| BmpViewModel.Normalised | BMPViewModel.cs:25-28 | the corners are ordered and are the same two x and two y values |
| BmpViewModel.NormalisedSymmetric | BMPViewModel.cs:23-31 | swapping the drag points, or only their x or y, gives the same rectangle |
| BmpViewModel.NormalisedCovers | BMPViewModel.cs:23-31 | a pixel is covered exactly when it lies between the drag points on each axis |
| BmpViewModel.BMPViewModel.constructor | BMPViewModel.cs:13-16 | the resource name is the fresh model's empty file name |
| BmpViewModel.BMPViewModel.DrawRectangle | BMPViewModel.cs:23-31 | the model fills the normalised rectangle; it returns normally exactly when every pixel's offset fits (always on an image buffer), otherwise stops at the first that does not with every earlier pixel painted |
| BmpViewModel.BMPViewModel.InvertBrightness | BMPViewModel.cs:33-36 | the model's buffer is inverted |
| BmpViewModel.BMPViewModel.ReadBMP | BMPViewModel.cs:38-50 | succeeds exactly when the file exists and reads; then the resource is its name; otherwise the resource is unchanged and the new model has re-read the previous resource after the failed read |
| BmpViewModel.BMPViewModel.WriteBMP | BMPViewModel.cs:52-58 | fails exactly when the model's write fails, and leaves the resource unchanged |
| BmpViewModel.BMPViewModel.UpdateBMPImage | BMPViewModel.cs:60-63 | the model's display bytes |

## Left out

- The WPF rendering of `UpdateBMPImage` (the palette, `WriteableBitmap`, `WritePixels`) is not modelled; its result is the reordered byte sequence, and the checks the bitmap constructor makes on the size are not modelled.
- The MainWindow code-behind (dialogs, mouse dragging, window sizing) is UI code and is not modelled.
- `INotifyPropertyChanged` events and exception messages are not modelled; a thrown exception is a `false` result.
- The compression-rate message box of `WriteBMP` is not modelled (floating point and UI only).
- File system: files are a map from names to bytes. Opening a missing file throws; other open failures (an empty name, access rights) are not modelled. `WriteBMP` is assumed able to create the file.
- `ReadChars(2)` decodes UTF-8; the model takes the signature as the first two bytes.
- `Math.Pow(2, bitCount)` is taken as exact up to `2^30`, saturated to `int.MaxValue` above.
- The `double` size of `Array.Resize` is taken as the integer `stride * height * bitCount / 8`, truncated toward zero. It is the same wherever the value fits an `int`.
- Memory exhaustion is not modelled.
- `RLEEncoder` and `RLEDecoder` read the width and height from the header; in the model these are parameters.
- Bit depths other than 8 are read and written as the code does, but the round-trip properties are stated for 8-bit images only.
- The aliasing of `_pixelData` and `_decodedData` after a BI_RGB read is not modelled. It cannot be observed, because only the payload's length is used later. The encoder's list `_encodedData` is not a field, since it is rebuilt on every write.
- RleRoundTrip.RoundTrip and RleRoundTrip.RoundTripExact: stated for widths 1 to 255 only. From width 256 on, a row can gather 256 or more literals; `(byte)` of the count (BMPModel.cs:196, 236) wraps and the row does not come back, as `WideRowLost` shows for the ramp `0..255`. Both also assume the buffer is at most `int.MaxValue` bytes, which every C# array is.
- RleEncoding.EncodePackets: stated for widths up to 255 only. A wider row can gather more than 255 literals, whose absolute count byte wraps, so its stream need not parse as packets.
- RleEncoding.Encoder: the encoder's byte indices `y * stride + x` are taken without 32-bit wrap-around. Wrap-around cannot happen on buffers that fit in memory.
