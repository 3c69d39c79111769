/**
 * The pixel buffer of an 8-bit indexed bitmap: one byte per pixel, rows of
 * `Stride(width)` bytes stored bottom-up.  Spec functions for the stride and
 * index arithmetic and for the three in-place edits (brightness inversion,
 * clipped rectangle fill, row reversal for display), with their properties.
 */
module Pixels {
  import opened Bytes

  /** Row length padded to a multiple of four: `(width + 3) / 4 * 4` in C# `int` arithmetic. */
  function Stride(width: int): (s: int)
    ensures s % 4 == 0
  {
    TruncDiv(Wrap32(width + 3), 4) * 4
  }

  lemma StrideBounds(width: int)
    requires 0 <= width <= INT32_MAX - 3
    ensures width <= Stride(width) < width + 4
  {
    assert Wrap32(width + 3) == width + 3;
  }

  /** Bottom-up storage offset of the top-down pixel `(i, j)` of an image `width` by `height`. */
  function PixelIndex(width: int, height: int, i: int, j: int): int
  {
    i + (height - 1 - j) * Stride(width)
  }

  lemma MulAtLeast(s: int, d: int)
    requires s > 0 && d >= 1
    ensures s * d >= s
  {
  }

  /** Euclidean division recovers row and column from `col + row * s`. */
  lemma DivModOfIndex(col: int, row: int, s: int)
    requires s > 0 && 0 <= col < s
    ensures (col + row * s) / s == row
    ensures (col + row * s) % s == col
  {
    var k := col + row * s;
    var q, m := k / s, k % s;
    assert k == s * q + m && 0 <= m < s;
    var d := q - row;
    assert s * d == col - m by {
      assert s * q == s * d + s * row;
    }
    if d > 0 {
      MulAtLeast(s, d);
    } else if d < 0 {
      MulAtLeast(s, -d);
    }
  }

  lemma PixelIndexInBuffer(width: int, height: int, i: int, j: int)
    requires 0 <= width <= INT32_MAX - 3
    requires 0 <= i < width && 0 <= j < height
    ensures 0 <= PixelIndex(width, height, i, j) < Stride(width) * height
    ensures PixelIndex(width, height, i, j) / Stride(width) == height - 1 - j
    ensures PixelIndex(width, height, i, j) % Stride(width) == i
  {
    var s := Stride(width);
    StrideBounds(width);
    DivModOfIndex(i, height - 1 - j, s);
    assert (height - 1 - j) * s <= (height - 1) * s;
    assert 0 <= (height - 1 - j) * s;
  }

  lemma PixelIndexInjective(width: int, height: int, i: int, j: int, i': int, j': int)
    requires 0 <= width <= INT32_MAX - 3
    requires 0 <= i < width && 0 <= j < height
    requires 0 <= i' < width && 0 <= j' < height
    requires PixelIndex(width, height, i, j) == PixelIndex(width, height, i', j')
    ensures i == i' && j == j'
  {
    PixelIndexInBuffer(width, height, i, j);
    PixelIndexInBuffer(width, height, i', j');
  }

  // ---------------------------------------------------------------- inversion

  /** Every byte `b` replaced by `255 - b`. */
  function Inverted(buf: seq<byte>): (r: seq<byte>)
    ensures |r| == |buf|
    ensures forall k :: 0 <= k < |buf| ==> r[k] == 255 - buf[k]
  {
    seq(|buf|, k requires 0 <= k < |buf| => 255 - buf[k])
  }

  lemma InvertedInvolution(buf: seq<byte>)
    ensures Inverted(Inverted(buf)) == buf
  {
  }

  // ------------------------------------------------------- rectangle fill

  /**
   * The offset the rectangle fill computes for pixel `(i, j)`:
   * `i + (height - 1 - j) * stride`, each step in C# `int` arithmetic.
   */
  function StorageIndex(width: int, height: int, i: int, j: int): int
  {
    Wrap32(i + Wrap32((height - 1 - j) * Stride(width)))
  }

  /** On an image whose buffer fits the 32-bit range, the wrapped offset is the exact one. */
  lemma StorageIndexExact(width: int, height: int, i: int, j: int)
    requires 0 <= width <= INT32_MAX - 3 && Stride(width) * height <= INT32_MAX + 1
    requires 0 <= i < width && 0 <= j < height
    ensures StorageIndex(width, height, i, j) == PixelIndex(width, height, i, j)
  {
    PixelIndexInBuffer(width, height, i, j);
    StrideBounds(width);
    var s := Stride(width);
    assert 0 <= (height - 1 - j) * s <= (height - 1) * s;
  }

  /** Pixel `(i, j)` lies in the rectangle `[x1, x2) x [y1, y2)` and passes the fill's clipping test. */
  predicate InRectangle(width: int, height: int, x1: int, y1: int, x2: int, y2: int, i: int, j: int)
  {
    x1 <= i < x2 && y1 <= j < y2 && 0 <= i < width && 0 <= j < height
  }

  /** Pixel `(i, j)` comes before `(ei, ej)` in the fill's row-by-row order. */
  predicate Before(i: int, j: int, ei: int, ej: int)
  {
    j < ej || (j == ej && i < ei)
  }

  /** Offset `k` is painted by a rectangle pixel visited before `(ei, ej)`. */
  ghost predicate PaintedBefore(width: int, height: int, x1: int, y1: int, x2: int, y2: int, ei: int, ej: int, k: int)
  {
    exists i, j :: InRectangle(width, height, x1, y1, x2, y2, i, j) && Before(i, j, ei, ej) &&
      StorageIndex(width, height, i, j) == k
  }

  /** Every rectangle pixel visited before `(ei, ej)` has its offset inside a buffer of `n` bytes. */
  ghost predicate FitsBefore(width: int, height: int, x1: int, y1: int, x2: int, y2: int, ei: int, ej: int, n: int)
  {
    forall i, j :: InRectangle(width, height, x1, y1, x2, y2, i, j) && Before(i, j, ei, ej) ==>
      0 <= StorageIndex(width, height, i, j) < n
  }

  /** The buffer once the fill has visited every rectangle pixel before `(ei, ej)`. */
  ghost function FilledBefore(buf: seq<byte>, width: int, height: int, x1: int, y1: int, x2: int, y2: int,
                              ei: int, ej: int): (r: seq<byte>)
    ensures |r| == |buf|
  {
    seq(|buf|, k requires 0 <= k < |buf| =>
      if PaintedBefore(width, height, x1, y1, x2, y2, ei, ej, k) then 255 else buf[k])
  }

  /** The buffer after the whole clipped fill: every rectangle pixel white (255), the rest unchanged. */
  ghost function Filled(buf: seq<byte>, width: int, height: int, x1: int, y1: int, x2: int, y2: int): (r: seq<byte>)
    ensures |r| == |buf|
  {
    FilledBefore(buf, width, height, x1, y1, x2, y2, x1, y2)
  }

  /** Every rectangle pixel has its offset inside a buffer of `n` bytes: the fill does not throw. */
  ghost predicate Fits(width: int, height: int, x1: int, y1: int, x2: int, y2: int, n: int)
  {
    FitsBefore(width, height, x1, y1, x2, y2, x1, y2, n)
  }

  /** Before the first pixel nothing is painted. */
  lemma FilledBeforeStart(buf: seq<byte>, width: int, height: int, x1: int, y1: int, x2: int, y2: int)
    ensures FilledBefore(buf, width, height, x1, y1, x2, y2, x1, y1) == buf
    ensures FitsBefore(width, height, x1, y1, x2, y2, x1, y1, |buf|)
  {
  }

  /** Visiting pixel `(i, j)` paints its offset when it is a rectangle pixel, and nothing otherwise. */
  lemma FilledBeforeStep(buf: seq<byte>, width: int, height: int, x1: int, y1: int, x2: int, y2: int, i: int, j: int)
    requires InRectangle(width, height, x1, y1, x2, y2, i, j) ==> 0 <= StorageIndex(width, height, i, j) < |buf|
    ensures var cur := FilledBefore(buf, width, height, x1, y1, x2, y2, i, j);
      FilledBefore(buf, width, height, x1, y1, x2, y2, i + 1, j) ==
        if InRectangle(width, height, x1, y1, x2, y2, i, j)
        then cur[StorageIndex(width, height, i, j) := 255] else cur
  {
    var cur := FilledBefore(buf, width, height, x1, y1, x2, y2, i, j);
    var next := FilledBefore(buf, width, height, x1, y1, x2, y2, i + 1, j);
    var inside := InRectangle(width, height, x1, y1, x2, y2, i, j);
    var want := if inside then cur[StorageIndex(width, height, i, j) := 255] else cur;
    forall k | 0 <= k < |buf| ensures next[k] == want[k] {
      if PaintedBefore(width, height, x1, y1, x2, y2, i + 1, j, k) {
        var i', j' :| InRectangle(width, height, x1, y1, x2, y2, i', j') && Before(i', j', i + 1, j) &&
          StorageIndex(width, height, i', j') == k;
        if Before(i', j', i, j) {
          assert PaintedBefore(width, height, x1, y1, x2, y2, i, j, k);
        }
      } else if inside {
        assert !Before(i, j, i, j) && Before(i, j, i + 1, j);
      }
    }
  }

  /** Extending the visited pixels by one, the fit condition grows by that pixel's. */
  lemma FitsBeforeStep(width: int, height: int, x1: int, y1: int, x2: int, y2: int, i: int, j: int, n: int)
    requires FitsBefore(width, height, x1, y1, x2, y2, i, j, n)
    requires InRectangle(width, height, x1, y1, x2, y2, i, j) ==> 0 <= StorageIndex(width, height, i, j) < n
    ensures FitsBefore(width, height, x1, y1, x2, y2, i + 1, j, n)
  {
    forall i', j' | InRectangle(width, height, x1, y1, x2, y2, i', j') && Before(i', j', i + 1, j)
      ensures 0 <= StorageIndex(width, height, i', j') < n
    {
      if !Before(i', j', i, j) {
        assert i' == i && j' == j;
      }
    }
  }

  /** Past the last column of row `j` the fill has visited the same pixels as at the start of row `j + 1`. */
  lemma FilledBeforeRowEnd(buf: seq<byte>, width: int, height: int, x1: int, y1: int, x2: int, y2: int,
                           i: int, j: int, n: int)
    requires i >= x2
    ensures FilledBefore(buf, width, height, x1, y1, x2, y2, i, j) ==
      FilledBefore(buf, width, height, x1, y1, x2, y2, x1, j + 1)
    ensures FitsBefore(width, height, x1, y1, x2, y2, i, j, n) ==
      FitsBefore(width, height, x1, y1, x2, y2, x1, j + 1, n)
  {
    assert forall i', j' :: InRectangle(width, height, x1, y1, x2, y2, i', j') ==>
      (Before(i', j', i, j) <==> Before(i', j', x1, j + 1));
  }

  /** Past the last row the fill has visited every rectangle pixel. */
  lemma FilledBeforeEnd(buf: seq<byte>, width: int, height: int, x1: int, y1: int, x2: int, y2: int, j: int, n: int)
    requires j >= y2
    ensures FilledBefore(buf, width, height, x1, y1, x2, y2, x1, j) == Filled(buf, width, height, x1, y1, x2, y2)
    ensures FitsBefore(width, height, x1, y1, x2, y2, x1, j, n) == Fits(width, height, x1, y1, x2, y2, n)
  {
    assert forall i', j' :: InRectangle(width, height, x1, y1, x2, y2, i', j') ==>
      (Before(i', j', x1, j) <==> Before(i', j', x1, y2));
  }

  /** The offsets of an image buffer of `Stride(width) * height` bytes that fits in 32 bits. */
  predicate ImageBuffer(width: int, height: int, n: int)
  {
    0 <= width <= INT32_MAX - 3 && n == Stride(width) * height && n <= INT32_MAX + 1
  }

  /** On an image buffer every rectangle pixel has its offset in the buffer: the fill never throws. */
  lemma FitsImage(width: int, height: int, x1: int, y1: int, x2: int, y2: int, n: int)
    requires ImageBuffer(width, height, n)
    ensures Fits(width, height, x1, y1, x2, y2, n)
  {
    forall i, j | InRectangle(width, height, x1, y1, x2, y2, i, j)
      ensures 0 <= StorageIndex(width, height, i, j) < n
    {
      StorageIndexExact(width, height, i, j);
      PixelIndexInBuffer(width, height, i, j);
    }
  }

  /**
   * On an image buffer the fill sets to 255 exactly the offsets
   * `i + (height - 1 - j) * stride` of the rectangle's pixels, and leaves
   * every other byte as it was.
   */
  lemma FilledSpec(buf: seq<byte>, width: int, height: int, x1: int, y1: int, x2: int, y2: int, k: int)
    requires ImageBuffer(width, height, |buf|)
    requires 0 <= k < |buf|
    ensures Filled(buf, width, height, x1, y1, x2, y2)[k] ==
      if exists i, j :: InRectangle(width, height, x1, y1, x2, y2, i, j) && PixelIndex(width, height, i, j) == k
      then 255 else buf[k]
  {
    if PaintedBefore(width, height, x1, y1, x2, y2, x1, y2, k) {
      var i, j :| InRectangle(width, height, x1, y1, x2, y2, i, j) && Before(i, j, x1, y2) &&
        StorageIndex(width, height, i, j) == k;
      StorageIndexExact(width, height, i, j);
    }
    if exists i, j :: InRectangle(width, height, x1, y1, x2, y2, i, j) && PixelIndex(width, height, i, j) == k {
      var i, j :| InRectangle(width, height, x1, y1, x2, y2, i, j) && PixelIndex(width, height, i, j) == k;
      StorageIndexExact(width, height, i, j);
      assert Before(i, j, x1, y2);
    }
  }

  /** A painted offset is a pixel inside the rectangle: its column and row are recovered by division. */
  lemma FilledOffsetInRectangle(buf: seq<byte>, width: int, height: int, x1: int, y1: int, x2: int, y2: int, k: int)
    requires ImageBuffer(width, height, |buf|)
    requires 0 <= k < |buf| && Filled(buf, width, height, x1, y1, x2, y2)[k] != buf[k]
    ensures InRectangle(width, height, x1, y1, x2, y2, k % Stride(width), height - 1 - k / Stride(width))
  {
    FilledSpec(buf, width, height, x1, y1, x2, y2, k);
    var i, j :| InRectangle(width, height, x1, y1, x2, y2, i, j) && PixelIndex(width, height, i, j) == k;
    PixelIndexInBuffer(width, height, i, j);
  }

  /** An empty rectangle changes nothing. */
  lemma FilledEmptyRange(buf: seq<byte>, width: int, height: int, x1: int, y1: int, x2: int, y2: int)
    requires x1 >= x2 || y1 >= y2
    ensures Filled(buf, width, height, x1, y1, x2, y2) == buf
  {
  }

  /** Filling the same rectangle twice is filling it once. */
  lemma FilledIdempotent(buf: seq<byte>, width: int, height: int, x1: int, y1: int, x2: int, y2: int)
    ensures var once := Filled(buf, width, height, x1, y1, x2, y2);
      Filled(once, width, height, x1, y1, x2, y2) == once
  {
  }

  // ---------------------------------------------------------- row reversal

  /** The first `rows` stored rows of `rowSize` bytes, last row first (display order). */
  function RowsReversed(buf: seq<byte>, rows: nat, rowSize: nat): (r: seq<byte>)
    requires rows * rowSize <= |buf|
    ensures |r| == rows * rowSize
  {
    if rows == 0 then []
    else
      assert (rows - 1) * rowSize + rowSize == rows * rowSize;
      buf[(rows - 1) * rowSize .. rows * rowSize] + RowsReversed(buf, rows - 1, rowSize)
  }

  /** Byte `c` of display row `r` is byte `c` of stored row `rows - 1 - r`. */
  lemma {:induction false} RowsReversedAt(buf: seq<byte>, rows: nat, rowSize: nat, r: nat, c: nat)
    requires rows * rowSize <= |buf|
    requires r < rows && c < rowSize
    ensures r * rowSize + c < rows * rowSize
    ensures (rows - 1 - r) * rowSize + c < |buf|
    ensures RowsReversed(buf, rows, rowSize)[r * rowSize + c] == buf[(rows - 1 - r) * rowSize + c]
  {
    assert (rows - 1) * rowSize + rowSize == rows * rowSize;
    assert r * rowSize <= (rows - 1) * rowSize;
    if r > 0 {
      assert (r - 1) * rowSize + rowSize == r * rowSize;
      RowsReversedAt(buf, rows - 1, rowSize, r - 1, c);
    }
  }

  /** Reversing the rows of a whole buffer twice restores it. */
  lemma RowsReversedInvolution(buf: seq<byte>, rows: nat, rowSize: nat)
    requires |buf| == rows * rowSize
    ensures RowsReversed(RowsReversed(buf, rows, rowSize), rows, rowSize) == buf
  {
    var twice := RowsReversed(RowsReversed(buf, rows, rowSize), rows, rowSize);
    forall k | 0 <= k < |buf| ensures twice[k] == buf[k] {
      RowsReversedTwiceAt(buf, rows, rowSize, k);
    }
  }

  lemma RowsReversedTwiceAt(buf: seq<byte>, rows: nat, rowSize: nat, k: nat)
    requires |buf| == rows * rowSize && k < |buf|
    ensures RowsReversed(RowsReversed(buf, rows, rowSize), rows, rowSize)[k] == buf[k]
  {
    var r, c := RowColumnOf(rows, rowSize, k);
    RowsReversedTwiceAtRow(buf, rows, rowSize, r, c);
  }

  lemma RowsReversedTwiceAtRow(buf: seq<byte>, rows: nat, rowSize: nat, r: nat, c: nat)
    requires |buf| == rows * rowSize && r < rows && c < rowSize
    ensures r * rowSize + c < |buf|
    ensures RowsReversed(RowsReversed(buf, rows, rowSize), rows, rowSize)[r * rowSize + c] == buf[r * rowSize + c]
  {
    var once := RowsReversed(buf, rows, rowSize);
    var r' := rows - 1 - r;
    MirrorTwice(rows, r);
    RowsReversedMirror(once, rows, rowSize, r, c, r');
    RowsReversedMirror(buf, rows, rowSize, r', c, r);
  }

  /** `RowsReversedAt` with the mirrored row passed in as `m`. */
  lemma RowsReversedMirror(buf: seq<byte>, rows: nat, rowSize: nat, r: nat, c: nat, m: nat)
    requires rows * rowSize <= |buf| && r < rows && c < rowSize && m == rows - 1 - r
    ensures r * rowSize + c < rows * rowSize && m * rowSize + c < |buf|
    ensures RowsReversed(buf, rows, rowSize)[r * rowSize + c] == buf[m * rowSize + c]
  {
    RowsReversedAt(buf, rows, rowSize, r, c);
  }

  lemma MirrorTwice(rows: nat, r: nat)
    requires r < rows
    ensures rows - 1 - (rows - 1 - r) == r
  {
  }

  /** Offset `k` of a buffer of `rows` rows is byte `c` of row `r`. */
  lemma RowColumnOf(rows: nat, rowSize: nat, k: nat) returns (r: nat, c: nat)
    requires k < rows * rowSize
    ensures r < rows && c < rowSize && k == r * rowSize + c
  {
    if rowSize == 0 {
      assert false;
    }
    r, c := k / rowSize, k % rowSize;
    DivModOfIndex(c, r, rowSize);
    if r >= rows {
      MulAtLeastMono(rowSize, rows, r);
    }
  }

  lemma MulAtLeastMono(s: int, a: int, b: int)
    requires s >= 0 && 0 <= a <= b
    ensures s * a <= s * b
  {
  }
}
