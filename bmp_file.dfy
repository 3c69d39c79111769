/**
 * The BMP container as BMPModel reads and writes it: the 54-byte file and
 * info header, the colour table that follows it, the pixel payload, and the
 * two length fields WriteBMP patches after writing.  Everything here is a
 * value; the class in BmpModel performs these reads and writes step by step.
 */
module BmpFile {
  import opened Bytes
  import opened Wrappers
  import Pixels
  import RleEncoding
  import RleDecoding
  import RleRoundTrip

  /** BITMAPFILEHEADER followed by BITMAPINFOHEADER; `signature` is None while no read has set the char array. */
  datatype Header = Header(
    signature: Option<seq<byte>>,
    fileSize: u32, reserved1: u16, reserved2: u16, dataOffset: u32,
    infoSize: u32, width: i32, height: i32, planes: u16, bitCount: u16,
    compression: u32, dataSize: u32, hResolution: i32, vResolution: i32,
    colors: u32, importantColors: u32)

  /** A default header struct: every number zero and no signature. */
  const EmptyHeader := Header(None, 0, 0, 0, 0, 0, 0, 0, 0, 0, 0, 0, 0, 0, 0, 0)

  datatype ColorPalette = ColorPalette(blue: byte, green: byte, red: byte, reserved: byte)

  const HEADER_SIZE: nat := 54
  const BI_RGB: u32 := 0
  const BI_RLE8: u32 := 1
  /** The largest byte array the runtime allocates (Array.MaxLength). */
  const MAX_ARRAY_LENGTH: nat := 0x7FFF_FFC7
  /** The signature "BM". */
  const BM: seq<byte> := [0x42, 0x4D]

  /** The first two characters read are 'B' and 'M'. */
  predicate IsBitmap(f: seq<byte>)
  {
    |f| >= 2 && f[0] == 0x42 && f[1] == 0x4D
  }

  // A field read at a fixed offset: assigned when the file still holds its
  // bytes, left as it was when the read hits the end of the file and throws.

  function FieldU16(f: seq<byte>, off: nat, prev: u16): u16
  {
    if off + 2 <= |f| then U16At(f, off) else prev
  }

  function FieldU32(f: seq<byte>, off: nat, prev: u32): u32
  {
    if off + 4 <= |f| then U32At(f, off) else prev
  }

  function FieldI32(f: seq<byte>, off: nat, prev: i32): i32
  {
    if off + 4 <= |f| then I32At(f, off) else prev
  }

  /**
   * The header after the header reads of ReadBMP on file `f`, starting from `h`.
   * The signature is whatever two characters could be read; past a wrong
   * signature nothing else is read, and past the end of the file every later
   * field keeps its previous value.
   */
  function HeaderAfterRead(h: Header, f: seq<byte>): (r: Header)
    ensures r.signature == Some(f[..Min(2, |f|)])
    ensures !IsBitmap(f) ==> r == h.(signature := r.signature)
    ensures IsBitmap(f) && |f| >= HEADER_SIZE ==>
      r.width == I32At(f, 18) && r.height == I32At(f, 22) && r.bitCount == U16At(f, 28) &&
      r.compression == U32At(f, 30) && r.dataSize == U32At(f, 34)
  {
    var sig := Some(f[..Min(2, |f|)]);
    if !IsBitmap(f) then h.(signature := sig)
    else Header(sig,
      FieldU32(f, 2, h.fileSize), FieldU16(f, 6, h.reserved1), FieldU16(f, 8, h.reserved2),
      FieldU32(f, 10, h.dataOffset), FieldU32(f, 14, h.infoSize), FieldI32(f, 18, h.width),
      FieldI32(f, 22, h.height), FieldU16(f, 26, h.planes), FieldU16(f, 28, h.bitCount),
      FieldU32(f, 30, h.compression), FieldU32(f, 34, h.dataSize), FieldI32(f, 38, h.hResolution),
      FieldI32(f, 42, h.vResolution), FieldU32(f, 46, h.colors), FieldU32(f, 50, h.importantColors))
  }

  function Pow2(n: nat): (r: nat)
    ensures r >= 1
  {
    if n == 0 then 1 else 2 * Pow2(n - 1)
  }

  lemma {:induction false} Pow2Add(a: nat, b: nat)
    ensures Pow2(a + b) == Pow2(a) * Pow2(b)
  {
    if a > 0 {
      Pow2Add(a - 1, b);
      assert Pow2(a + b) == 2 * Pow2(a - 1 + b);
    }
  }

  lemma Pow2AtMost(n: nat)
    requires n <= 30
    ensures Pow2(n) <= 0x4000_0000
  {
    assert Pow2(5) == 32 by {
      assert Pow2(1) == 2 && Pow2(2) == 4 && Pow2(3) == 8 && Pow2(4) == 16;
    }
    Pow2Add(5, 5);
    assert Pow2(10) == 1024;
    Pow2Add(10, 10);
    assert Pow2(20) == 0x10_0000;
    Pow2Add(10, 20);
    assert Pow2(30) == 0x4000_0000;
    Pow2Add(n, 30 - n);
    Pixels.MulAtLeast(Pow2(n), Pow2(30 - n));
  }

  /**
   * `(int)Math.Pow(2, bitCount)`: exact up to 2^30, saturated to int.MaxValue
   * above; the count always fits a C# int.
   */
  function PaletteCount(bitCount: u16): (r: nat)
    ensures 1 <= r <= INT32_MAX
    ensures bitCount > 30 ==> r == INT32_MAX
  {
    if bitCount <= 30 then Pow2AtMost(bitCount); Pow2(bitCount) else INT32_MAX
  }

  /** One colour-table entry read at `off`: blue, green, red, reserved. */
  function EntryAt(f: seq<byte>, off: nat): ColorPalette
    requires off + 4 <= |f|
  {
    ColorPalette(f[off], f[off + 1], f[off + 2], f[off + 3])
  }

  /** The first `n` colour-table entries, read right after the header. */
  function Entries(f: seq<byte>, n: nat): (r: seq<ColorPalette>)
    requires HEADER_SIZE + 4 * n <= |f|
    ensures |r| == n
  {
    seq(n, i requires 0 <= i < n => EntryAt(f, HEADER_SIZE + 4 * i))
  }

  /** What BMPModel holds between calls, with the pixel buffer as a value. */
  datatype Image = Image(header: Header, colorTable: seq<ColorPalette>, payload: seq<byte>, pixels: seq<byte>)

  /** A freshly constructed model. */
  const EmptyImage := Image(EmptyHeader, [], [], [])

  /** Whether ReadBMP returned true, and the model it leaves behind either way. */
  datatype Loaded = Loaded(ok: bool, image: Image)

  /** `(int)(paddedWidth * (double)BiHeight * (BiBitCount / 8.0))`, exact wherever it fits an int. */
  function PixelBufferLength(h: Header): int
  {
    TruncDiv(Pixels.Stride(h.width) * h.height * h.bitCount, 8)
  }

  /** Array.Resize: the old contents, cut or padded with zeros to `n` bytes. */
  function Resized(buf: seq<byte>, n: nat): (r: seq<byte>)
    ensures |r| == n
    ensures forall k :: 0 <= k < n ==> r[k] == if k < |buf| then buf[k] else 0
  {
    seq(n, k requires 0 <= k < n => if k < |buf| then buf[k] else 0)
  }

  /**
   * ReadBMP on the bytes `f` of an existing file, starting from model `m`.
   * It fails on a wrong signature or a short header, on a colour table cut
   * short, on a data size above int.MaxValue, on a pixel buffer size the
   * runtime refuses, and on a BI_RLE8 stream that ends inside a packet.
   * Whatever was read before the failure stays in the model.
   */
  function Read(m: Image, f: seq<byte>): (r: Loaded)
    ensures r.ok ==> IsBitmap(f) && |f| >= HEADER_SIZE
    ensures r.image.header == HeaderAfterRead(m.header, f)
    ensures m.colorTable <= r.image.colorTable
  {
    var h := HeaderAfterRead(m.header, f);
    if !IsBitmap(f) || |f| < HEADER_SIZE then Loaded(false, m.(header := h))
    else ReadColorTable(m.(header := h), f)
  }

  /** The colour-table loop: 2^bitCount entries appended to the table, each read whole or not at all. */
  function ReadColorTable(m: Image, f: seq<byte>): (r: Loaded)
    requires |f| >= HEADER_SIZE
    ensures r.image.header == m.header && m.colorTable <= r.image.colorTable
    ensures |r.image.colorTable| <= |m.colorTable| + PaletteCount(m.header.bitCount)
    ensures r.ok ==> |r.image.colorTable| == |m.colorTable| + PaletteCount(m.header.bitCount)
    ensures |r.image.colorTable| < |m.colorTable| + PaletteCount(m.header.bitCount) ==>
      !r.ok && r.image == m.(colorTable := r.image.colorTable)
  {
    var count := PaletteCount(m.header.bitCount);
    var available := (|f| - HEADER_SIZE) / 4;
    if available < count then Loaded(false, m.(colorTable := m.colorTable + Entries(f, available)))
    else ReadPixels(m.(colorTable := m.colorTable + Entries(f, count)), f, HEADER_SIZE + 4 * count)
  }

  /**
   * The payload read from `start` (at most `(int)dataSize` bytes), the
   * resize of the pixel buffer, and the dispatch on the compression field:
   * BI_RGB takes the payload itself, BI_RLE8 decodes it into the resized
   * buffer, and any other value keeps the resized buffer and succeeds.
   */
  function ReadPixels(m: Image, f: seq<byte>, start: nat): (r: Loaded)
    requires start <= |f|
    ensures r.image.header == m.header && r.image.colorTable == m.colorTable
    ensures r.ok ==> Wrap32(m.header.dataSize) >= 0 && 0 <= PixelBufferLength(m.header) <= MAX_ARRAY_LENGTH
    ensures r.ok ==> (|r.image.payload| == Min(Wrap32(m.header.dataSize), |f| - start) &&
      r.image.payload == f[start..start + |r.image.payload|])
    ensures r.ok && m.header.compression == BI_RGB ==> r.image.pixels == r.image.payload
    ensures r.ok && m.header.compression != BI_RGB ==> |r.image.pixels| == PixelBufferLength(m.header)
  {
    var h := m.header;
    var n := Wrap32(h.dataSize);
    if n < 0 then Loaded(false, m)
    else
      var payload := f[start..Min(start + n, |f|)];
      var size := PixelBufferLength(h);
      if size < 0 || size > MAX_ARRAY_LENGTH then Loaded(false, m.(payload := payload))
      else if h.compression == BI_RGB then Loaded(true, m.(payload := payload, pixels := payload))
      else
        var resized := Resized(m.pixels, size);
        if h.compression == BI_RLE8 then
          var s := Pixels.Stride(h.width);
          var o := RleDecoding.Decode(payload, resized, s, Wrap32(s * h.height));
          Loaded(o.Finished?, m.(payload := payload, pixels := o.buf))
        else Loaded(true, m.(payload := payload, pixels := resized))
  }

  /** The 28 bytes between the file size and the data size. */
  function MiddleBytes(h: Header): (r: seq<byte>)
    ensures |r| == 28
  {
    LE16(h.reserved1) + LE16(h.reserved2) + LE32(h.dataOffset) + LE32(h.infoSize) +
    LE32Signed(h.width) + LE32Signed(h.height) + LE16(h.planes) + LE16(h.bitCount) + LE32(h.compression)
  }

  /** The 16 bytes after the data size. */
  function TailBytes(h: Header): (r: seq<byte>)
    ensures |r| == 16
  {
    LE32Signed(h.hResolution) + LE32Signed(h.vResolution) + LE32(h.colors) + LE32(h.importantColors)
  }

  /** The header as BinaryWriter writes it, field by field. */
  function HeaderBytes(h: Header): (r: seq<byte>)
    requires h.signature.Some?
    ensures |r| == |h.signature.value| + 52
  {
    h.signature.value + LE32(h.fileSize) + MiddleBytes(h) + LE32(h.dataSize) + TailBytes(h)
  }

  function EntryByte(c: ColorPalette, b: nat): byte
  {
    if b == 0 then c.blue else if b == 1 then c.green else if b == 2 then c.red else c.reserved
  }

  /** The colour table written entry by entry, four bytes each. */
  function PaletteBytes(t: seq<ColorPalette>): (r: seq<byte>)
    ensures |r| == 4 * |t|
  {
    seq(4 * |t|, k requires 0 <= k < 4 * |t| => EntryByte(t[k / 4], k % 4))
  }

  /** Header, colour table and pixel stream, before the patches. */
  function Serialised(h: Header, t: seq<ColorPalette>, enc: seq<byte>): (r: seq<byte>)
    requires h.signature.Some?
    ensures |r| == |h.signature.value| + 52 + 4 * |t| + |enc|
  {
    HeaderBytes(h) + PaletteBytes(t) + enc
  }

  /** A C# int as the uint whose bits it shares. */
  function AsU32(v: i32): u32
  {
    if v < 0 then v + 0x1_0000_0000 else v
  }

  /**
   * The file WriteBMP leaves behind, or None when it returns false (the file
   * is then empty).  The pixels are always written as BI_RLE8 while the
   * compression field is written unchanged; after writing, offset 2 receives
   * the file length and offset 34 the length of the payload last read.
   */
  function Write(m: Image): (r: Option<seq<byte>>)
    ensures r.Some? <==> m.header.signature.Some? && RleEncoding.Encode(m.pixels, m.header.width, m.header.height).Some?
    ensures r.Some? ==> (|r.value| ==
      |m.header.signature.value| + 52 + 4 * |m.colorTable| +
      |RleEncoding.Encode(m.pixels, m.header.width, m.header.height).value|)
  {
    var enc := RleEncoding.Encode(m.pixels, m.header.width, m.header.height);
    if enc.None? || m.header.signature.None? then None
    else
      var body := Serialised(m.header, m.colorTable, enc.value);
      var sized := Overwrite(body, 2, LE32Signed(Wrap32(|body|)));
      Some(Overwrite(sized, 34, LE32Signed(Wrap32(|m.payload|))))
  }

  // Reading fields back from their bytes.

  lemma U16Field(f: seq<byte>, off: nat, v: u16)
    requires off + 2 <= |f| && f[off..off + 2] == LE16(v)
    ensures U16At(f, off) == v
  {
    U16RoundTrip(v, f[..off], f[off + 2..]);
    assert f == f[..off] + LE16(v) + f[off + 2..];
  }

  lemma U32Field(f: seq<byte>, off: nat, v: u32)
    requires off + 4 <= |f| && f[off..off + 4] == LE32(v)
    ensures U32At(f, off) == v
  {
    U32RoundTrip(v, f[..off], f[off + 4..]);
    assert f == f[..off] + LE32(v) + f[off + 4..];
  }

  lemma I32Field(f: seq<byte>, off: nat, v: i32)
    requires off + 4 <= |f| && f[off..off + 4] == LE32Signed(v)
    ensures I32At(f, off) == v
  {
    I32RoundTrip(v, f[..off], f[off + 4..]);
    assert f == f[..off] + LE32Signed(v) + f[off + 4..];
  }

  /** A slice of a block found inside `f` at offset `a`. */
  lemma Part(f: seq<byte>, a: nat, g: seq<byte>, b: nat, c: nat)
    requires a + |g| <= |f| && f[a..a + |g|] == g && b <= c <= |g|
    ensures f[a + b..a + c] == g[b..c]
  {
    forall k | 0 <= k < c - b ensures f[a + b..a + c][k] == g[b..c][k] {
      assert f[a + b..a + c][k] == f[a..a + |g|][b + k];
    }
  }

  /** The fields of the middle block read back at their offsets. */
  lemma MiddleRoundTrip(h: Header, f: seq<byte>)
    requires 34 <= |f| && f[6..34] == MiddleBytes(h)
    ensures U16At(f, 6) == h.reserved1 && U16At(f, 8) == h.reserved2
    ensures U32At(f, 10) == h.dataOffset && U32At(f, 14) == h.infoSize
    ensures I32At(f, 18) == h.width && I32At(f, 22) == h.height
    ensures U16At(f, 26) == h.planes && U16At(f, 28) == h.bitCount
    ensures U32At(f, 30) == h.compression
  {
    var g := MiddleBytes(h);
    assert g[0..2] == LE16(h.reserved1) && g[2..4] == LE16(h.reserved2);
    assert g[4..8] == LE32(h.dataOffset) && g[8..12] == LE32(h.infoSize);
    assert g[12..16] == LE32Signed(h.width) && g[16..20] == LE32Signed(h.height);
    assert g[20..22] == LE16(h.planes) && g[22..24] == LE16(h.bitCount);
    assert g[24..28] == LE32(h.compression);
    Part(f, 6, g, 0, 2);
    Part(f, 6, g, 2, 4);
    Part(f, 6, g, 4, 8);
    Part(f, 6, g, 8, 12);
    Part(f, 6, g, 12, 16);
    Part(f, 6, g, 16, 20);
    Part(f, 6, g, 20, 22);
    Part(f, 6, g, 22, 24);
    Part(f, 6, g, 24, 28);
    U16Field(f, 6, h.reserved1);
    U16Field(f, 8, h.reserved2);
    U32Field(f, 10, h.dataOffset);
    U32Field(f, 14, h.infoSize);
    I32Field(f, 18, h.width);
    I32Field(f, 22, h.height);
    U16Field(f, 26, h.planes);
    U16Field(f, 28, h.bitCount);
    U32Field(f, 30, h.compression);
  }

  /** The fields of the last block read back at their offsets. */
  lemma TailRoundTrip(h: Header, f: seq<byte>)
    requires 54 <= |f| && f[38..54] == TailBytes(h)
    ensures I32At(f, 38) == h.hResolution && I32At(f, 42) == h.vResolution
    ensures U32At(f, 46) == h.colors && U32At(f, 50) == h.importantColors
  {
    var g := TailBytes(h);
    assert g[0..4] == LE32Signed(h.hResolution) && g[4..8] == LE32Signed(h.vResolution);
    assert g[8..12] == LE32(h.colors) && g[12..16] == LE32(h.importantColors);
    Part(f, 38, g, 0, 4);
    Part(f, 38, g, 4, 8);
    Part(f, 38, g, 8, 12);
    Part(f, 38, g, 12, 16);
    I32Field(f, 38, h.hResolution);
    I32Field(f, 42, h.vResolution);
    U32Field(f, 46, h.colors);
    U32Field(f, 50, h.importantColors);
  }

  /** Reading a written "BM" header gives back every field, whatever the model held before. */
  lemma HeaderRoundTrip(h: Header, rest: seq<byte>, prev: Header)
    requires h.signature == Some(BM)
    ensures HeaderAfterRead(prev, HeaderBytes(h) + rest) == h
  {
    var f := HeaderBytes(h) + rest;
    assert f[..2] == BM;
    assert f[2..6] == LE32(h.fileSize);
    assert f[6..34] == MiddleBytes(h);
    assert f[34..38] == LE32(h.dataSize);
    assert f[38..54] == TailBytes(h);
    U32Field(f, 2, h.fileSize);
    MiddleRoundTrip(h, f);
    U32Field(f, 34, h.dataSize);
    TailRoundTrip(h, f);
  }

  /** After a two-byte signature the colour table starts at offset 54. */
  lemma PaletteAt(h: Header, t: seq<ColorPalette>, enc: seq<byte>, k: nat)
    requires h.signature == Some(BM) && k < 4 * |t|
    ensures HEADER_SIZE + k < |Serialised(h, t, enc)|
    ensures Serialised(h, t, enc)[HEADER_SIZE + k] == PaletteBytes(t)[k]
  {
    assert Serialised(h, t, enc) == HeaderBytes(h) + (PaletteBytes(t) + enc);
  }

  /** Byte `4 * i + b` of the written colour table is byte `b` of entry `i`. */
  lemma PaletteBytesAt(t: seq<ColorPalette>, i: nat, b: nat)
    requires i < |t| && b < 4
    ensures 4 * i + b < 4 * |t| && PaletteBytes(t)[4 * i + b] == EntryByte(t[i], b)
  {
    assert (4 * i + b) / 4 == i && (4 * i + b) % 4 == b;
  }

  lemma EntryRoundTrip(h: Header, t: seq<ColorPalette>, enc: seq<byte>, i: nat)
    requires h.signature == Some(BM) && i < |t|
    ensures HEADER_SIZE + 4 * i + 4 <= |Serialised(h, t, enc)|
    ensures EntryAt(Serialised(h, t, enc), HEADER_SIZE + 4 * i) == t[i]
  {
    PaletteBytesAt(t, i, 0);
    PaletteBytesAt(t, i, 1);
    PaletteBytesAt(t, i, 2);
    PaletteBytesAt(t, i, 3);
    PaletteAt(h, t, enc, 4 * i);
    PaletteAt(h, t, enc, 4 * i + 1);
    PaletteAt(h, t, enc, 4 * i + 2);
    PaletteAt(h, t, enc, 4 * i + 3);
  }

  /** The colour table written after a two-byte signature reads back entry for entry. */
  lemma PaletteRoundTrip(h: Header, t: seq<ColorPalette>, enc: seq<byte>)
    requires h.signature == Some(BM)
    ensures Entries(Serialised(h, t, enc), |t|) == t
  {
    forall i | 0 <= i < |t| ensures Entries(Serialised(h, t, enc), |t|)[i] == t[i] {
      EntryRoundTrip(h, t, enc, i);
    }
  }

  /** The exact products the pixel-buffer size reduces to for an 8-bit image that fits in memory. */
  lemma EightBitBufferLength(h: Header)
    requires h.bitCount == 8 && 0 <= h.width <= INT32_MAX - 3 && 1 <= h.height
    ensures Pixels.Stride(h.width) * h.height >= 0
    ensures PixelBufferLength(h) == Pixels.Stride(h.width) * h.height
  {
    var s := Pixels.Stride(h.width);
    Pixels.StrideBounds(h.width);
    var n := s * h.height;
    assert n >= 0 by {
      if s > 0 { Pixels.MulAtLeast(s, h.height); }
    }
    assert s * h.height * h.bitCount == n * 8;
  }

  /** A file not starting with "BM" fails the read; only the two characters read are kept, as the signature. */
  lemma ReadNeedsSignature(m: Image, f: seq<byte>)
    requires !IsBitmap(f)
    ensures Read(m, f) == Loaded(false, m.(header := m.header.(signature := Some(f[..Min(2, |f|)]))))
  {
  }

  /** A written "BM" header passes the signature check and reads back whole. */
  lemma ReadHeaderStage(h: Header, t: seq<ColorPalette>, enc: seq<byte>)
    requires h.signature == Some(BM)
    ensures var f := Serialised(h, t, enc);
      IsBitmap(f) && |f| >= HEADER_SIZE && HeaderAfterRead(EmptyHeader, f) == h
  {
    var f := Serialised(h, t, enc);
    assert f == HeaderBytes(h) + (PaletteBytes(t) + enc);
    HeaderRoundTrip(h, PaletteBytes(t) + enc, EmptyHeader);
    assert f[..2] == BM;
  }

  /** An 8-bit file with a valid header and a full colour table gets past the header and table reads. */
  lemma ReadToPixels(f: seq<byte>, h: Header, t: seq<ColorPalette>)
    requires IsBitmap(f) && |f| >= HEADER_SIZE + 4 * 256
    requires HeaderAfterRead(EmptyHeader, f) == h && h.bitCount == 8 && Entries(f, 256) == t
    ensures Read(EmptyImage, f) == ReadPixels(EmptyImage.(header := h, colorTable := t), f, HEADER_SIZE + 4 * 256)
  {
    assert Pow2(8) == 256;
    assert [] + t == t;
  }

  /** The payload and pixel stage for an 8-bit image whose buffer fits in memory, into an empty buffer. */
  lemma ReadPixelsEightBit(m: Image, f: seq<byte>, start: nat)
    requires start <= |f| && m.pixels == []
    requires m.header.bitCount == 8 && (m.header.compression == BI_RGB || m.header.compression == BI_RLE8)
    requires 0 <= m.header.width <= INT32_MAX - 3 && 1 <= m.header.height
    requires 0 <= Pixels.Stride(m.header.width) * m.header.height <= MAX_ARRAY_LENGTH
    requires m.header.dataSize <= INT32_MAX
    ensures var h := m.header;
      var s := Pixels.Stride(h.width);
      var payload := f[start..Min(start + h.dataSize, |f|)];
      var o := RleDecoding.Decode(payload, Zeros(s * h.height), s, s * h.height);
      ReadPixels(m, f, start) ==
        if h.compression == BI_RGB then Loaded(true, m.(payload := payload, pixels := payload))
        else Loaded(o.Finished?, m.(payload := payload, pixels := o.buf))
  {
    var h := m.header;
    var s := Pixels.Stride(h.width);
    EightBitBufferLength(h);
    assert Resized([], s * h.height) == Zeros(s * h.height);
  }

  /**
   * A compression field other than BI_RGB and BI_RLE8 is not rejected: the
   * read succeeds, with the pixel buffer only resized, which on a fresh
   * model leaves it all zeros.
   */
  lemma ReadPixelsOtherCompression(m: Image, f: seq<byte>, start: nat)
    requires start <= |f| && m.header.compression != BI_RGB && m.header.compression != BI_RLE8
    requires Wrap32(m.header.dataSize) >= 0 && 0 <= PixelBufferLength(m.header) <= MAX_ARRAY_LENGTH
    ensures var r := ReadPixels(m, f, start);
      r.ok && r.image.pixels == Resized(m.pixels, PixelBufferLength(m.header))
    ensures m.pixels == [] ==> ReadPixels(m, f, start).image.pixels == Zeros(PixelBufferLength(m.header))
  {
    assert Resized([], PixelBufferLength(m.header)) == Zeros(PixelBufferLength(m.header));
  }

  /**
   * Reading, into a fresh model, an 8-bit file laid out as WriteBMP lays it
   * out: the header and colour table come back unchanged and the payload is
   * the first `dataSize` bytes of the stream, which BI_RGB takes as the pixels
   * and BI_RLE8 decodes into a zeroed buffer.
   */
  lemma ReadSerialised(h: Header, t: seq<ColorPalette>, enc: seq<byte>)
    requires h.signature == Some(BM) && h.bitCount == 8 && |t| == 256
    requires h.compression == BI_RGB || h.compression == BI_RLE8
    requires 0 <= h.width <= INT32_MAX - 3 && 1 <= h.height
    requires Pixels.Stride(h.width) * h.height <= MAX_ARRAY_LENGTH
    requires h.dataSize <= INT32_MAX
    ensures var s := Pixels.Stride(h.width);
      var payload := enc[..Min(h.dataSize, |enc|)];
      var o := RleDecoding.Decode(payload, Zeros(s * h.height), s, s * h.height);
      Read(EmptyImage, Serialised(h, t, enc)) ==
        if h.compression == BI_RGB then Loaded(true, Image(h, t, payload, payload))
        else Loaded(o.Finished?, Image(h, t, payload, o.buf))
  {
    var f := Serialised(h, t, enc);
    var start := HEADER_SIZE + 4 * 256;
    SerialisedToPixels(h, t, enc);
    EightBitBufferLength(h);
    ReadPixelsEightBit(EmptyImage.(header := h, colorTable := t), f, start);
    StreamAfterPalette(h, t, enc);
    assert f[start..Min(start + h.dataSize, |f|)] == enc[..Min(h.dataSize, |enc|)];
  }

  /** A written 8-bit file with a full colour table gets past the header and table reads. */
  lemma SerialisedToPixels(h: Header, t: seq<ColorPalette>, enc: seq<byte>)
    requires h.signature == Some(BM) && h.bitCount == 8 && |t| == 256
    ensures var f := Serialised(h, t, enc);
      |f| >= HEADER_SIZE + 4 * 256 &&
      Read(EmptyImage, f) == ReadPixels(EmptyImage.(header := h, colorTable := t), f, HEADER_SIZE + 4 * 256)
  {
    var f := Serialised(h, t, enc);
    ReadHeaderStage(h, t, enc);
    PaletteRoundTrip(h, t, enc);
    ReadToPixels(f, h, t);
  }

  /** The bytes after the colour table are the stream, so a payload read there is a prefix of it. */
  lemma StreamAfterPalette(h: Header, t: seq<ColorPalette>, enc: seq<byte>)
    requires h.signature == Some(BM) && |t| == 256
    ensures var f := Serialised(h, t, enc);
      forall n: nat :: f[HEADER_SIZE + 4 * 256..Min(HEADER_SIZE + 4 * 256 + n, |f|)] == enc[..Min(n, |enc|)]
  {
    var f := Serialised(h, t, enc);
    assert f == (HeaderBytes(h) + PaletteBytes(t)) + enc;
    assert f[HEADER_SIZE + 4 * 256..] == enc;
  }

  /** Overwriting the middle part of a three-part sequence with bytes of the same length. */
  lemma OverwritePart(x: seq<byte>, y: seq<byte>, z: seq<byte>, y': seq<byte>)
    requires |y'| == |y|
    ensures Overwrite(x + y + z, |x|, y') == x + y' + z
  {
  }

  /** The two patches of WriteBMP, after a two-byte signature, replace the file-size and data-size fields. */
  lemma PatchHeader(h: Header, size: i32, data: i32, rest: seq<byte>)
    requires h.signature == Some(BM)
    ensures var f := Overwrite(HeaderBytes(h) + rest, 2, LE32Signed(size));
      Overwrite(f, 34, LE32Signed(data)) ==
        HeaderBytes(h.(fileSize := AsU32(size), dataSize := AsU32(data))) + rest
  {
    var h1 := h.(fileSize := AsU32(size));
    var h2 := h1.(dataSize := AsU32(data));
    var mid := MiddleBytes(h) + LE32(h.dataSize) + TailBytes(h) + rest;
    assert HeaderBytes(h) + rest == BM + LE32(h.fileSize) + mid;
    OverwritePart(BM, LE32(h.fileSize), mid, LE32Signed(size));
    var f := Overwrite(HeaderBytes(h) + rest, 2, LE32Signed(size));
    var pre := BM + LE32(h1.fileSize) + MiddleBytes(h);
    var post := TailBytes(h) + rest;
    assert f == pre + LE32(h.dataSize) + post;
    OverwritePart(pre, LE32(h.dataSize), post, LE32Signed(data));
    assert MiddleBytes(h2) == MiddleBytes(h) && TailBytes(h2) == TailBytes(h);
  }

  /**
   * With a two-byte signature the two patches of WriteBMP land exactly on the
   * file-size and data-size fields: the file is the header with those two
   * fields replaced (by the file length and by the length of the payload last
   * read, both as C# ints), the colour table, then the RLE8 stream.
   */
  lemma WriteLayout(m: Image)
    requires m.header.signature == Some(BM)
    requires RleEncoding.Encode(m.pixels, m.header.width, m.header.height).Some?
    ensures var enc := RleEncoding.Encode(m.pixels, m.header.width, m.header.height).value;
      var len := HEADER_SIZE + 4 * |m.colorTable| + |enc|;
      var h := m.header.(fileSize := AsU32(Wrap32(len)), dataSize := AsU32(Wrap32(|m.payload|)));
      Write(m) == Some(Serialised(h, m.colorTable, enc))
  {
    var enc := RleEncoding.Encode(m.pixels, m.header.width, m.header.height).value;
    var rest := PaletteBytes(m.colorTable) + enc;
    var len := HEADER_SIZE + 4 * |m.colorTable| + |enc|;
    PatchHeader(m.header, Wrap32(len), Wrap32(|m.payload|), rest);
    var h := m.header.(fileSize := AsU32(Wrap32(len)), dataSize := AsU32(Wrap32(|m.payload|)));
    assert Serialised(h, m.colorTable, enc) == HeaderBytes(h) + rest;
    assert Serialised(m.header, m.colorTable, enc) == HeaderBytes(m.header) + rest;
  }

  /** The file WriteBMP makes of `m`, read back into a fresh model. */
  function Reread(m: Image): Option<Loaded>
  {
    match Write(m)
    case None => None
    case Some(f) => Some(Read(EmptyImage, f))
  }

  /**
   * Reading back, into a fresh model, the file WriteBMP makes of an 8-bit
   * BI_RLE8 image: the stream is cut to the data size recorded at offset 34
   * (the length of the payload last read) and decoded into a zeroed buffer.
   */
  lemma RewriteRead(m: Image)
    requires m.header.signature == Some(BM) && m.header.bitCount == 8 && m.header.compression == BI_RLE8
    requires |m.colorTable| == 256
    requires 1 <= m.header.width <= 255 && 1 <= m.header.height
    requires |m.pixels| == Pixels.Stride(m.header.width) * m.header.height <= MAX_ARRAY_LENGTH
    requires |m.payload| <= INT32_MAX
    ensures match RleEncoding.Encode(m.pixels, m.header.width, m.header.height)
      case None => false
      case Some(enc) =>
        var h := m.header.(fileSize := AsU32(Wrap32(HEADER_SIZE + 4 * 256 + |enc|)), dataSize := |m.payload|);
        var payload := enc[..Min(|m.payload|, |enc|)];
        var o := RleDecoding.Decode(payload, Zeros(|m.pixels|), Pixels.Stride(h.width), |m.pixels|);
        Reread(m) == Some(Loaded(o.Finished?, Image(h, m.colorTable, payload, o.buf)))
  {
    RleEncoding.EncodeSucceeds(m.pixels, m.header.width, m.header.height);
    var enc := RleEncoding.Encode(m.pixels, m.header.width, m.header.height).value;
    WriteLayout(m);
    var h := m.header.(fileSize := AsU32(Wrap32(HEADER_SIZE + 4 * 256 + |enc|)), dataSize := AsU32(Wrap32(|m.payload|)));
    assert h.dataSize == |m.payload|;
    ReadSerialised(h, m.colorTable, enc);
  }

  /**
   * Writing an 8-bit BI_RLE8 image and reading the file back into a fresh
   * model restores the pixels (padding bytes zero), the colour table and
   * every header field except the two patched lengths, provided the payload
   * length recorded at offset 34 covers the new stream.
   */
  lemma WriteThenRead(m: Image)
    requires m.header.signature == Some(BM) && m.header.bitCount == 8 && m.header.compression == BI_RLE8
    requires |m.colorTable| == 256
    requires 1 <= m.header.width <= 255 && 1 <= m.header.height
    requires |m.pixels| == Pixels.Stride(m.header.width) * m.header.height <= MAX_ARRAY_LENGTH
    requires forall k :: 0 <= k < |m.pixels| && k % Pixels.Stride(m.header.width) >= m.header.width ==> m.pixels[k] == 0
    requires var e := RleEncoding.Encode(m.pixels, m.header.width, m.header.height);
      e.Some? ==> |e.value| <= |m.payload| <= INT32_MAX
    ensures match RleEncoding.Encode(m.pixels, m.header.width, m.header.height)
      case None => false
      case Some(enc) =>
        var h := m.header.(fileSize := AsU32(Wrap32(HEADER_SIZE + 4 * 256 + |enc|)), dataSize := |m.payload|);
        Reread(m) == Some(Loaded(true, Image(h, m.colorTable, enc, m.pixels)))
  {
    RleRoundTrip.RoundTripExact(m.pixels, m.header.width, m.header.height);
    RewriteRead(m);
    var enc := RleEncoding.Encode(m.pixels, m.header.width, m.header.height).value;
    var h := m.header.(fileSize := AsU32(Wrap32(HEADER_SIZE + 4 * 256 + |enc|)), dataSize := |m.payload|);
    var payload := enc[..Min(|m.payload|, |enc|)];
    var o := RleDecoding.Decode(payload, Zeros(|m.pixels|), Pixels.Stride(h.width), |m.pixels|);
    assert Reread(m) == Some(Loaded(o.Finished?, Image(h, m.colorTable, payload, o.buf)));
    assert payload == enc;
    assert o == RleDecoding.Finished(m.pixels);
  }

  /** Either stored row of an all-white 4x2 image is one run of four. */
  lemma WhiteRowExample(d: seq<byte>, base: nat)
    requires |d| == 8 && base <= 4 && forall k :: 0 <= k < 8 ==> d[k] == 255
    ensures RleEncoding.EncodeRow(d, base, 0, 4, 4, []) == Some([4, 255])
  {
    assert RleEncoding.RunLength(d, base, 0, 4, 255, 4) == Some(4);
    assert RleEncoding.RunLength(d, base, 0, 4, 255, 3) == Some(4);
    assert RleEncoding.RunLength(d, base, 0, 4, 255, 2) == Some(4);
    assert RleEncoding.RunLength(d, base, 0, 4, 255, 1) == Some(4);
    assert RleEncoding.EncodeRow(d, base, 4, 4, 4, []) == Some([]);
    assert RleEncoding.Flush([]) + [4, 255] + [] == [4, 255];
  }

  /** An all-white 4x2 image encodes to two runs of four. */
  lemma WhiteEncodeExample(d: seq<byte>)
    requires |d| == 8 && forall k :: 0 <= k < 8 ==> d[k] == 255
    ensures RleEncoding.Encode(d, 4, 2) == Some([4, 255, 0, 0, 4, 255, 0, 1])
  {
    assert Pixels.Stride(4) == 4;
    WhiteRowExample(d, 0);
    WhiteRowExample(d, 4);
    assert RleEncoding.EncodeRows(d, 2, 4, 2, 4) == Some([0, 1]);
    RleEncoding.EncodeRowsStep(d, 1, 4, 2, 4);
    assert RleEncoding.EncodeRows(d, 1, 4, 2, 4) == RleEncoding.Then([4, 255] + [], Some([0, 1]));
    assert [4, 255] + [] + [0, 1] == [4, 255, 0, 1];
    RleEncoding.EncodeRowsStep(d, 0, 4, 2, 4);
    assert RleEncoding.EncodeRows(d, 0, 4, 2, 4) == RleEncoding.Then([4, 255] + [0, 0], Some([4, 255, 0, 1]));
    assert [4, 255] + [0, 0] + [4, 255, 0, 1] == [4, 255, 0, 0, 4, 255, 0, 1];
  }

  /** The first two bytes of that stream paint only the first stored row. */
  lemma FirstRunExample()
    ensures RleDecoding.Decode([4, 255], Zeros(8), 4, 8) == RleDecoding.Finished([255, 255, 255, 255, 0, 0, 0, 0])
  {
    var z := Zeros(8);
    assert RleDecoding.Constant(4, 255) == [255, 255, 255, 255];
    var once := Overwrite(z, 0, RleDecoding.Constant(4, 255));
    assert once == [255, 255, 255, 255, 0, 0, 0, 0];
    RleDecoding.RepeatWrites(RleDecoding.Cursor(z, 0, 2), 4, 255, 8);
    assert RleDecoding.Step([4, 255], RleDecoding.Cursor(z, 0, 0), 4, 8) == RleDecoding.Go(RleDecoding.Cursor(once, 4, 2));
  }

  /**
   * The data size WriteBMP records is the length of the payload last read,
   * not of the stream it writes.  A 4x2 image read from a 2-byte payload and
   * then made all white encodes to 8 bytes; by RewriteRead the rewritten file
   * is read back through its first 2 bytes only, which paint the first stored
   * row and leave the second one black.
   */
  lemma StaleDataSizeExample(white: seq<byte>)
    requires |white| == 8 && forall k :: 0 <= k < 8 ==> white[k] == 255
    ensures RleEncoding.Encode(white, 4, 2) == Some([4, 255, 0, 0, 4, 255, 0, 1])
    ensures var enc: seq<byte> := [4, 255, 0, 0, 4, 255, 0, 1];
      RleDecoding.Decode(enc[..Min(2, |enc|)], Zeros(8), Pixels.Stride(4), 8) ==
        RleDecoding.Finished([255, 255, 255, 255, 0, 0, 0, 0])
  {
    WhiteEncodeExample(white);
    var enc: seq<byte> := [4, 255, 0, 0, 4, 255, 0, 1];
    assert enc[..Min(2, |enc|)] == [4, 255];
    assert Pixels.Stride(4) == 4;
    FirstRunExample();
  }
}
