/**
 * The editor's model object: the name of the file last opened, the header,
 * the colour table, the payload last read and the pixel buffer, with the
 * edits, the display reordering and the file reads and writes the view
 * model calls.  The file system is a map from names to contents.
 */
module BmpModel {
  import opened Bytes
  import opened Wrappers
  import Pixels
  import RleEncoding
  import RleDecoding
  import opened BmpFile

  /** How a call ended: it returned a value, or an exception escaped it. */
  datatype Completion = Returned(ok: bool) | Threw

  /** The rows of a list laid end to end, as `SelectMany` flattens them. */
  function Concatenated(rows: seq<seq<byte>>): seq<byte>
  {
    if rows == [] then [] else rows[0] + Concatenated(rows[1..])
  }

  /** The list in the opposite order, as `List.Reverse` leaves it. */
  function Reversed(rows: seq<seq<byte>>): (r: seq<seq<byte>>)
    ensures |r| == |rows| && forall i :: 0 <= i < |rows| ==> r[i] == rows[|rows| - 1 - i]
  {
    seq(|rows|, i requires 0 <= i < |rows| => rows[|rows| - 1 - i])
  }

  /** The first `n` stored rows of `rowSize` bytes, as the display loop copies them. */
  function StoredRows(buf: seq<byte>, n: nat, rowSize: nat): (r: seq<seq<byte>>)
    requires n * rowSize <= |buf|
    ensures |r| == n
  {
    seq(n, i requires 0 <= i < n => (Pixels.MulAtLeastMono(rowSize, i + 1, n); buf[i * rowSize..i * rowSize + rowSize]))
  }

  /** Copying the rows, reversing the list and flattening it gives the rows in display order. */
  lemma {:induction false} ConcatenatedRows(buf: seq<byte>, n: nat, rowSize: nat)
    requires n * rowSize <= |buf|
    ensures Concatenated(Reversed(StoredRows(buf, n, rowSize))) == Pixels.RowsReversed(buf, n, rowSize)
  {
    if n > 0 {
      var rows := StoredRows(buf, n, rowSize);
      assert (n - 1) * rowSize + rowSize == n * rowSize;
      assert rows[..n - 1] == StoredRows(buf, n - 1, rowSize);
      ConcatenatedRows(buf, n - 1, rowSize);
      assert Reversed(rows)[0] == rows[n - 1];
      assert Reversed(rows)[1..] == Reversed(rows[..n - 1]);
    }
  }

  /**
   * The bytes UpdateBMPImage hands to the bitmap, stored rows last first, or
   * None when it throws.  The row size is one stride at 8 bits per pixel and
   * zero at 4 (the integer division `4 / 8`); any other depth throws.
   */
  function DisplayBytes(h: Header, buf: seq<byte>): (r: Option<seq<byte>>)
    ensures h.bitCount != 8 && h.bitCount != 4 ==> r.None?
    ensures h.bitCount == 4 ==> r == Some([])
    ensures r.Some? ==> |r.value| == if h.bitCount == 8 && h.height > 0 then h.height * Pixels.Stride(h.width) else 0
  {
    var rowSize := if h.bitCount == 8 then Pixels.Stride(h.width) else 0;
    if h.bitCount != 8 && h.bitCount != 4 then None
    else if h.height <= 0 then Some([])
    else if rowSize < 0 || h.height * rowSize > |buf| then None
    else Some(Pixels.RowsReversed(buf, h.height, rowSize))
  }

  /** A row that does not fit the buffer means all the rows do not fit it. */
  lemma RowsPastEnd(i: nat, rowSize: nat, height: int, n: int)
    requires i < height && i * rowSize + rowSize > n
    ensures height * rowSize > n
  {
    Pixels.MulAtLeastMono(rowSize, i + 1, height);
    assert i * rowSize + rowSize == rowSize * (i + 1);
  }

  /** Copying one more row extends the list by that row. */
  lemma StoredRowsSnoc(buf: seq<byte>, n: nat, rowSize: nat)
    requires (n + 1) * rowSize <= |buf|
    ensures n * rowSize + rowSize <= |buf|
    ensures StoredRows(buf, n + 1, rowSize) == StoredRows(buf, n, rowSize) + [buf[n * rowSize..n * rowSize + rowSize]]
  {
    Pixels.MulAtLeastMono(rowSize, n, n + 1);
    assert StoredRows(buf, n + 1, rowSize)[..n] == StoredRows(buf, n, rowSize);
  }

  /** One more colour-table entry read extends the table by that entry. */
  lemma EntriesSnoc(f: seq<byte>, i: nat)
    requires HEADER_SIZE + 4 * i + 4 <= |f|
    ensures Entries(f, i + 1) == Entries(f, i) + [EntryAt(f, HEADER_SIZE + 4 * i)]
  {
    assert Entries(f, i + 1)[..i] == Entries(f, i);
  }

  /** One more colour-table entry written extends the bytes by its four components. */
  lemma PaletteBytesSnoc(t: seq<ColorPalette>, i: nat)
    requires i < |t|
    ensures PaletteBytes(t[..i + 1]) == PaletteBytes(t[..i]) + [t[i].blue, t[i].green, t[i].red, t[i].reserved]
  {
    var a := PaletteBytes(t[..i + 1]);
    var b := PaletteBytes(t[..i]) + [t[i].blue, t[i].green, t[i].red, t[i].reserved];
    forall k | 0 <= k < 4 * i + 4 ensures a[k] == b[k] {
      if k < 4 * i {
        assert k / 4 < i;
      } else {
        assert k / 4 == i;
      }
    }
  }

  class BMPModel {
    var fileName: string
    var header: Header
    var colorTable: seq<ColorPalette>
    var decodedData: seq<byte>
    var pixelData: array<byte>

    /** The model's contents as a value. */
    function State(): Image
      reads this, pixelData
    {
      Image(header, colorTable, decodedData, pixelData[..])
    }

    constructor()
      ensures fileName == "" && State() == EmptyImage
      ensures fresh(pixelData)
    {
      fileName := "";
      header := EmptyHeader;
      colorTable := [];
      decodedData := [];
      pixelData := new byte[0];
    }

    /** Every pixel byte replaced by 255 minus itself. */
    method InvertBrightness()
      modifies pixelData
      ensures pixelData[..] == Pixels.Inverted(old(pixelData[..]))
    {
      for i := 0 to pixelData.Length
        invariant forall k :: 0 <= k < i ==> pixelData[k] == 255 - old(pixelData[k])
        invariant forall k :: i <= k < pixelData.Length ==> pixelData[k] == old(pixelData[k])
      {
        pixelData[i] := 255 - pixelData[i];
      }
    }

    /**
     * Paints white every pixel of `[x1, x2) x [y1, y2)` inside the image, row
     * by row, at the offset computed in C# int arithmetic.  It returns false
     * where the fill throws IndexOutOfRangeException: at the first pixel in
     * row-major order whose offset is outside the buffer, with every earlier
     * pixel already painted.
     */
    method DrawRectangle(x1: i32, y1: i32, x2: i32, y2: i32) returns (ok: bool)
      modifies pixelData
      ensures ok <==> Pixels.Fits(header.width, header.height, x1, y1, x2, y2, pixelData.Length)
      ensures ok ==> pixelData[..] == Pixels.Filled(old(pixelData[..]), header.width, header.height, x1, y1, x2, y2)
      ensures !ok ==> exists i, j :: (Pixels.InRectangle(header.width, header.height, x1, y1, x2, y2, i, j) &&
        Pixels.FitsBefore(header.width, header.height, x1, y1, x2, y2, i, j, pixelData.Length) &&
        !(0 <= Pixels.StorageIndex(header.width, header.height, i, j) < pixelData.Length) &&
        pixelData[..] == Pixels.FilledBefore(old(pixelData[..]), header.width, header.height, x1, y1, x2, y2, i, j))
      ensures Pixels.ImageBuffer(header.width, header.height, pixelData.Length) ==> ok
    {
      ghost var buf := pixelData[..];
      var w, h := header.width, header.height;
      if Pixels.ImageBuffer(w, h, pixelData.Length) {
        Pixels.FitsImage(w, h, x1, y1, x2, y2, pixelData.Length);
      }
      Pixels.FilledBeforeStart(buf, w, h, x1, y1, x2, y2);
      var j := y1;
      while j < y2
        invariant y1 <= j && (j <= y2 || j == y1)
        invariant Pixels.FitsBefore(w, h, x1, y1, x2, y2, x1, j, pixelData.Length)
        invariant pixelData[..] == Pixels.FilledBefore(buf, w, h, x1, y1, x2, y2, x1, j)
      {
        var rowOk := FillRow(x1, y1, x2, y2, j, buf);
        if !rowOk {
          return false;
        }
        j := j + 1;
      }
      Pixels.FilledBeforeEnd(buf, w, h, x1, y1, x2, y2, j, pixelData.Length);
      ok := true;
    }

    /** One row `j` of the fill: its pixels in order of column. */
    method FillRow(x1: i32, y1: i32, x2: i32, y2: i32, j: int, ghost buf: seq<byte>) returns (ok: bool)
      requires y1 <= j < y2 && |buf| == pixelData.Length
      requires Pixels.FitsBefore(header.width, header.height, x1, y1, x2, y2, x1, j, pixelData.Length)
      requires pixelData[..] == Pixels.FilledBefore(buf, header.width, header.height, x1, y1, x2, y2, x1, j)
      modifies pixelData
      ensures ok ==> Pixels.FitsBefore(header.width, header.height, x1, y1, x2, y2, x1, j + 1, pixelData.Length)
      ensures ok ==> pixelData[..] == Pixels.FilledBefore(buf, header.width, header.height, x1, y1, x2, y2, x1, j + 1)
      ensures !ok ==> !Pixels.Fits(header.width, header.height, x1, y1, x2, y2, pixelData.Length)
      ensures !ok ==> exists i :: (Pixels.InRectangle(header.width, header.height, x1, y1, x2, y2, i, j) &&
        Pixels.FitsBefore(header.width, header.height, x1, y1, x2, y2, i, j, pixelData.Length) &&
        !(0 <= Pixels.StorageIndex(header.width, header.height, i, j) < pixelData.Length) &&
        pixelData[..] == Pixels.FilledBefore(buf, header.width, header.height, x1, y1, x2, y2, i, j))
    {
      var w, h := header.width, header.height;
      var n := pixelData.Length;
      var i := x1;
      while i < x2
        invariant x1 <= i && (i <= x2 || i == x1)
        invariant Pixels.FitsBefore(w, h, x1, y1, x2, y2, i, j, n)
        invariant pixelData[..] == Pixels.FilledBefore(buf, w, h, x1, y1, x2, y2, i, j)
      {
        if 0 <= i < w && 0 <= j < h {
          var index := Wrap32(i + Wrap32((h - 1 - j) * Pixels.Stride(w)));
          assert index == Pixels.StorageIndex(w, h, i, j);
          assert Pixels.InRectangle(w, h, x1, y1, x2, y2, i, j);
          if !(0 <= index < n) {
            assert Pixels.Before(i, j, x1, y2);
            return false;
          }
          Pixels.FilledBeforeStep(buf, w, h, x1, y1, x2, y2, i, j);
          Pixels.FitsBeforeStep(w, h, x1, y1, x2, y2, i, j, n);
          pixelData[index] := 255;
        } else {
          Pixels.FilledBeforeStep(buf, w, h, x1, y1, x2, y2, i, j);
          Pixels.FitsBeforeStep(w, h, x1, y1, x2, y2, i, j, n);
        }
        i := i + 1;
      }
      Pixels.FilledBeforeRowEnd(buf, w, h, x1, y1, x2, y2, i, j, n);
      ok := true;
    }

    /**
     * The display reordering of UpdateBMPImage: the stored rows are copied
     * one by one, the list is reversed and flattened.  None where it throws.
     */
    method UpdateBMPImage() returns (display: Option<seq<byte>>)
      ensures display == DisplayBytes(header, pixelData[..])
    {
      var rowSize: int;
      if header.bitCount == 8 {
        rowSize := Pixels.Stride(header.width);
      } else if header.bitCount == 4 {
        rowSize := 0;
      } else {
        return None;
      }
      if header.height <= 0 {
        return Some([]);
      }
      if rowSize < 0 {
        return None;
      }
      var rows := CopyRows(rowSize);
      if rows.None? {
        return None;
      }
      ConcatenatedRows(pixelData[..], header.height, rowSize);
      display := Some(Concatenated(Reversed(rows.value)));
    }

    /** The copy loop of UpdateBMPImage: `height` rows of `rowSize` bytes, None where one runs past the buffer. */
    method CopyRows(rowSize: nat) returns (rows: Option<seq<seq<byte>>>)
      requires header.height > 0
      ensures header.height * rowSize > pixelData.Length ==> rows == None
      ensures header.height * rowSize <= pixelData.Length ==>
        rows == Some(StoredRows(pixelData[..], header.height, rowSize))
    {
      var copied: seq<seq<byte>> := [];
      var i := 0;
      while i < header.height
        invariant 0 <= i <= header.height
        invariant i * rowSize <= pixelData.Length
        invariant copied == StoredRows(pixelData[..], i, rowSize)
      {
        if i * rowSize + rowSize > pixelData.Length {
          RowsPastEnd(i, rowSize, header.height, pixelData.Length);
          return None;
        }
        StoredRowsSnoc(pixelData[..], i, rowSize);
        copied := copied + [pixelData[i * rowSize..i * rowSize + rowSize]];
        i := i + 1;
      }
      rows := Some(copied);
    }

    /**
     * ReadBMP on the file system `fs`: the file name is recorded first; a
     * missing file throws before anything else changes; otherwise the model
     * ends as the read of the file's bytes leaves it, on success or failure.
     */
    method ReadBMP(name: string, fs: map<string, seq<byte>>) returns (r: Completion)
      modifies this, pixelData
      ensures fileName == name
      ensures fresh(pixelData) || pixelData == old(pixelData)
      ensures name !in fs ==> r == Threw && State() == old(State())
      ensures name in fs ==> var l := Read(old(State()), fs[name]);
        r == Returned(l.ok) && State() == l.image
    {
      fileName := name;
      if name !in fs {
        return Threw;
      }
      var f := fs[name];
      header := HeaderAfterRead(header, f);
      if !IsBitmap(f) || |f| < HEADER_SIZE {
        return Returned(false);
      }
      var ok := ReadColorTable(f);
      r := Returned(ok);
    }

    /** The colour-table loop, then the pixel data. */
    method ReadColorTable(f: seq<byte>) returns (ok: bool)
      requires |f| >= HEADER_SIZE
      modifies this, pixelData
      ensures fileName == old(fileName)
      ensures fresh(pixelData) || pixelData == old(pixelData)
      ensures var l := BmpFile.ReadColorTable(old(State()), f);
        ok == l.ok && State() == l.image
    {
      var count := PaletteCount(header.bitCount);
      var i := 0;
      while i < count
        invariant 0 <= i <= count && HEADER_SIZE + 4 * i <= |f|
        invariant colorTable == old(colorTable) + Entries(f, i)
        invariant fileName == old(fileName) && header == old(header) && decodedData == old(decodedData)
        invariant pixelData == old(pixelData) && pixelData[..] == old(pixelData[..])
      {
        if HEADER_SIZE + 4 * i + 4 > |f| {
          assert (|f| - HEADER_SIZE) / 4 == i;
          return false;
        }
        EntriesSnoc(f, i);
        colorTable := colorTable + [EntryAt(f, HEADER_SIZE + 4 * i)];
        i := i + 1;
      }
      assert (|f| - HEADER_SIZE) / 4 >= count;
      ok := ReadPixels(f, HEADER_SIZE + 4 * count);
    }

    /** The payload read, the resize of the pixel buffer and the compression dispatch. */
    method ReadPixels(f: seq<byte>, start: nat) returns (ok: bool)
      requires start <= |f|
      modifies this, pixelData
      ensures fileName == old(fileName)
      ensures fresh(pixelData) || pixelData == old(pixelData)
      ensures var l := BmpFile.ReadPixels(old(State()), f, start);
        ok == l.ok && State() == l.image
    {
      var n := Wrap32(header.dataSize);
      if n < 0 {
        return false;
      }
      decodedData := f[start..Min(start + n, |f|)];
      var size := PixelBufferLength(header);
      if size < 0 || size > MAX_ARRAY_LENGTH {
        return false;
      }
      var resized := new byte[size];
      forall k | 0 <= k < size {
        resized[k] := if k < pixelData.Length then pixelData[k] else 0;
      }
      assert resized[..] == Resized(old(pixelData[..]), size);
      pixelData := resized;
      if header.compression == BI_RGB {
        pixelData := new byte[|decodedData|](k requires 0 <= k < |decodedData| reads this => decodedData[k]);
        assert pixelData[..] == decodedData;
        return true;
      } else if header.compression == BI_RLE8 {
        var s := Pixels.Stride(header.width);
        ok := RleDecoding.Decoder(decodedData, pixelData, s, Wrap32(s * header.height));
      } else {
        ok := true;
      }
    }

    /**
     * WriteBMP into the file system `fs`: the file `name` is replaced by the
     * bytes written, which are none at all when it returns false.
     */
    method WriteBMP(name: string, fs: map<string, seq<byte>>) returns (ok: bool, fs': map<string, seq<byte>>)
      ensures var w := Write(State());
        ok == w.Some? && fs' == fs[name := if ok then w.value else []]
    {
      var enc := RleEncoding.Encoder(pixelData, header.width, header.height);
      if enc.None? || header.signature.None? {
        return false, fs[name := []];
      }
      var file := HeaderBytes(header);
      var i := 0;
      while i < |colorTable|
        invariant 0 <= i <= |colorTable|
        invariant file == HeaderBytes(header) + PaletteBytes(colorTable[..i])
      {
        var c := colorTable[i];
        PaletteBytesSnoc(colorTable, i);
        file := file + [c.blue, c.green, c.red, c.reserved];
        i := i + 1;
      }
      assert colorTable[..i] == colorTable;
      file := file + enc.value;
      file := Overwrite(file, 2, LE32Signed(Wrap32(|file|)));
      file := Overwrite(file, 34, LE32Signed(Wrap32(|decodedData|)));
      ok := true;
      fs' := fs[name := file];
    }
  }
}
