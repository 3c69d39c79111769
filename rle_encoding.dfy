/**
 * BI_RLE8 encoder of the editor: each stored row is scanned left to right,
 * runs of three or more equal bytes become encoded packets `count, value`,
 * shorter stretches are gathered in a literal accumulator that is flushed as
 * `1, b` pairs (one or two bytes) or as an absolute packet `0, n, b...`
 * padded to an even length.  Rows are separated by `0, 0` and the stream
 * ends with `0, 1`.
 */
module RleEncoding {
  import opened Bytes
  import opened Wrappers
  import Pixels

  /** `prefix` in front of an optional stream; a failed stream stays failed. */
  function Then(prefix: seq<byte>, rest: Option<seq<byte>>): Option<seq<byte>>
  {
    match rest
    case None => None
    case Some(t) => Some(prefix + t)
  }

  /**
   * The run scan: starting with `r` equal bytes at column `x` of the row that
   * begins at `base`, it extends while `r < 255`, `x + r < s` (the padded
   * stride, not the width) and the next byte equals `v`.  None when the scan
   * reads outside the buffer.
   */
  function RunLength(data: seq<byte>, base: int, x: int, s: int, v: byte, r: nat): (o: Option<nat>)
    requires 1 <= r <= 255
    ensures o.Some? ==> r <= o.value <= 255
    decreases 255 - r
  {
    if r < 255 && x + r < s then
      var k := base + x + r;
      if 0 <= k < |data| then
        if data[k] == v then RunLength(data, base, x, s, v, r + 1) else Some(r)
      else None
    else Some(r)
  }

  /** Each pending literal as an encoded packet of count one. */
  function Pairs(acc: seq<byte>): (r: seq<byte>)
    ensures |r| == 2 * |acc|
  {
    if acc == [] then [] else [1, acc[0]] + Pairs(acc[1..])
  }

  /** The absolute-mode packet; its count byte is the literal count truncated to a byte. */
  function Absolute(acc: seq<byte>): (r: seq<byte>)
    ensures |r| == 2 + |acc| + |acc| % 2 && |r| % 2 == 0
    ensures r[0] == 0 && r[1] == |acc| % 0x100 && r[2..2 + |acc|] == acc
  {
    [0, |acc| % 0x100] + acc + (if |acc| % 2 != 0 then [0] else [])
  }

  /** What a flush of the literal accumulator emits. */
  function Flush(acc: seq<byte>): seq<byte>
  {
    if |acc| == 0 then []
    else if |acc| < 3 then Pairs(acc)
    else Absolute(acc)
  }

  /** Encoding of the rest of one row from column `x`, with literals `acc` pending. */
  function EncodeRow(data: seq<byte>, base: int, x: int, width: int, s: int, acc: seq<byte>): Option<seq<byte>>
    decreases width - x
  {
    if x >= width then Some(Flush(acc))
    else
      var k := base + x;
      if !(0 <= k < |data|) then None
      else
        var v := data[k];
        match RunLength(data, base, x, s, v, 1)
        case None => None
        case Some(r) =>
          if r > 2 then Then(Flush(acc) + [r, v], EncodeRow(data, base, x + r, width, s, []))
          else EncodeRow(data, base, x + 1, width, s, acc + [v])
  }

  /** End-of-line marker after every row except the last. */
  function RowEnd(y: int, height: int): seq<byte>
  {
    if y != height - 1 then [0, 0] else []
  }

  /** Encoding of rows `y ..< height` followed by the end-of-bitmap marker. */
  function EncodeRows(data: seq<byte>, y: int, width: int, height: int, s: int): Option<seq<byte>>
    decreases height - y
  {
    if y >= height then Some([0, 1])
    else
      match EncodeRow(data, y * s, 0, width, s, [])
      case None => None
      case Some(row) => Then(row + RowEnd(y, height), EncodeRows(data, y + 1, width, height, s))
  }

  lemma ThenThen(a: seq<byte>, b: seq<byte>, o: Option<seq<byte>>)
    ensures Then(a, Then(b, o)) == Then(a + b, o)
  {
    if o.Some? {
      assert a + (b + o.value) == (a + b) + o.value;
    }
  }

  lemma EncodeRowsStep(data: seq<byte>, y: int, width: int, height: int, s: int)
    requires y < height && EncodeRow(data, y * s, 0, width, s, []).Some?
    ensures EncodeRows(data, y, width, height, s) ==
      Then(EncodeRow(data, y * s, 0, width, s, []).value + RowEnd(y, height), EncodeRows(data, y + 1, width, height, s))
  {
  }

  /** The whole encoder: None when it reads outside the buffer (an IndexOutOfRangeException). */
  function Encode(data: seq<byte>, width: int, height: int): Option<seq<byte>>
  {
    EncodeRows(data, 0, width, height, Pixels.Stride(width))
  }

  /** Appends the flushed accumulator, as both copies of the flush code in the encoder do. */
  method FlushLiterals(enc: seq<byte>, acc: seq<byte>) returns (out: seq<byte>)
    ensures out == enc + Flush(acc)
  {
    out := enc;
    if |acc| > 0 {
      if |acc| < 3 {
        out := AppendPairs(enc, acc);
      } else {
        out := AppendAbsolute(enc, acc);
      }
    }
  }

  /** Each literal appended as `1, b`. */
  method AppendPairs(enc: seq<byte>, acc: seq<byte>) returns (out: seq<byte>)
    ensures out == enc + Pairs(acc)
  {
    out := enc;
    var i := 0;
    while i < |acc|
      invariant 0 <= i <= |acc|
      invariant out + Pairs(acc[i..]) == enc + Pairs(acc)
    {
      assert acc[i..] == [acc[i]] + acc[i + 1..];
      out := out + [1, acc[i]];
      i := i + 1;
    }
  }

  /** The literals appended as one absolute packet, with its pad byte when the count is odd. */
  method AppendAbsolute(enc: seq<byte>, acc: seq<byte>) returns (out: seq<byte>)
    ensures out == enc + Absolute(acc)
  {
    out := enc + [0, |acc| % 0x100];
    var i := 0;
    while i < |acc|
      invariant 0 <= i <= |acc|
      invariant out == enc + [0, |acc| % 0x100] + acc[..i]
    {
      assert acc[..i + 1] == acc[..i] + [acc[i]];
      out := out + [acc[i]];
      i := i + 1;
    }
    assert acc[..i] == acc;
    if |acc| % 2 != 0 {
      out := out + [0];
    }
  }

  /** The run scan of one position, proved to compute `RunLength`. */
  method ScanRun(data: array<byte>, base: int, x: int, s: int, v: byte) returns (o: Option<nat>)
    ensures o == RunLength(data[..], base, x, s, v, 1)
  {
    var run: nat := 1;
    var scanning := true;
    while scanning
      invariant 1 <= run <= 255
      invariant scanning ==> RunLength(data[..], base, x, s, v, run) == RunLength(data[..], base, x, s, v, 1)
      invariant !scanning ==> RunLength(data[..], base, x, s, v, 1) == Some(run)
      decreases scanning, 255 - run
    {
      if run < 255 && x + run < s {
        var k := base + x + run;
        if k < 0 || k >= data.Length {
          return None;
        }
        if data[k] == v {
          run := run + 1;
        } else {
          scanning := false;
        }
      } else {
        scanning := false;
      }
    }
    o := Some(run);
  }

  /** One row of the encoder appended to `enc`, proved to append `EncodeRow`. */
  method EncodeRowInto(data: array<byte>, base: int, width: int, s: int, enc: seq<byte>) returns (o: Option<seq<byte>>)
    ensures o == Then(enc, EncodeRow(data[..], base, 0, width, s, []))
  {
    var out := enc;
    var acc: seq<byte> := [];
    var x := 0;
    while x < width
      invariant Then(out, EncodeRow(data[..], base, x, width, s, acc)) == Then(enc, EncodeRow(data[..], base, 0, width, s, []))
      decreases width - x
    {
      var a := EncodeStep(data, base, x, s, acc);
      AdvanceUnfolds(data[..], base, x, width, s, acc);
      if a.None? {
        return None;
      }
      ThenThen(out, a.value.emitted(), EncodeRow(data[..], base, a.value.x, width, s, a.value.acc));
      var flushed := FlushLiterals(out, a.value.flush);
      assert flushed + a.value.packet == out + a.value.emitted();
      out := flushed + a.value.packet;
      acc, x := a.value.acc, a.value.x;
    }
    out := FlushLiterals(out, acc);
    o := Some(out);
  }

  /**
   * What one iteration of the row loop does: the literals it flushes and the
   * packet it emits (both empty when the byte joins the literals), the next
   * column and the pending literals after it.
   */
  datatype Advanced = Advanced(flush: seq<byte>, packet: seq<byte>, x: int, acc: seq<byte>)
  {
    /** The bytes the iteration appends to the output. */
    function emitted(): seq<byte>
    {
      Flush(flush) + packet
    }
  }

  /** One iteration of the row loop at column `x`; None when a read leaves the buffer. */
  function Advance(data: seq<byte>, base: int, x: int, s: int, acc: seq<byte>): (a: Option<Advanced>)
    ensures a.Some? ==> a.value.x > x
  {
    var k := base + x;
    if !(0 <= k < |data|) then None
    else
      var v := data[k];
      match RunLength(data, base, x, s, v, 1)
      case None => None
      case Some(r) =>
        if r > 2 then Some(Advanced(acc, [r, v], x + r, []))
        else Some(Advanced([], [], x + 1, acc + [v]))
  }

  /** Inside the row, the encoding of the rest of the row is one iteration followed by the rest. */
  lemma AdvanceUnfolds(data: seq<byte>, base: int, x: int, width: int, s: int, acc: seq<byte>)
    requires x < width
    ensures var a := Advance(data, base, x, s, acc);
      a.None? ==> EncodeRow(data, base, x, width, s, acc) == None
    ensures var a := Advance(data, base, x, s, acc);
      a.Some? ==> (EncodeRow(data, base, x, width, s, acc) ==
                   Then(a.value.emitted(), EncodeRow(data, base, a.value.x, width, s, a.value.acc)))
  {
    var k := base + x;
    if 0 <= k < |data| && RunLength(data, base, x, s, data[k], 1).Some? {
      var v := data[k];
      var r := RunLength(data, base, x, s, v, 1).value;
      if r > 2 {
        assert Advance(data, base, x, s, acc) == Some(Advanced(acc, [r, v], x + r, []));
        assert EncodeRow(data, base, x, width, s, acc) == Then(Flush(acc) + [r, v], EncodeRow(data, base, x + r, width, s, []));
      } else {
        assert Advance(data, base, x, s, acc) == Some(Advanced([], [], x + 1, acc + [v]));
        assert Flush([]) + [] == [];
        assert EncodeRow(data, base, x, width, s, acc) == EncodeRow(data, base, x + 1, width, s, acc + [v]);
        var o := EncodeRow(data, base, x + 1, width, s, acc + [v]);
        if o.Some? { assert [] + o.value == o.value; }
      }
    }
  }

  /** One iteration of the row loop: the byte at `x`, its run scan, and the choice between packet and literal. */
  method EncodeStep(data: array<byte>, base: int, x: int, s: int, acc: seq<byte>) returns (a: Option<Advanced>)
    ensures a == Advance(data[..], base, x, s, acc)
  {
    var k := base + x;
    if k < 0 || k >= data.Length {
      return None;
    }
    var v := data[k];
    var run := ScanRun(data, base, x, s, v);
    if run.None? {
      return None;
    }
    if run.value > 2 {
      a := Some(Advanced(acc, [run.value, v], x + run.value, []));
    } else {
      a := Some(Advanced([], [], x + 1, acc + [v]));
    }
  }

  /** The encoder over the pixel buffer, proved to produce `Encode`. */
  method Encoder(data: array<byte>, width: int, height: int) returns (r: Option<seq<byte>>)
    ensures r == Encode(data[..], width, height)
  {
    var s := Pixels.Stride(width);
    ghost var total := Encode(data[..], width, height);
    var enc: seq<byte> := [];
    var y := 0;
    assert Then(enc, total) == total by {
      if total.Some? { assert [] + total.value == total.value; }
    }
    while y < height
      invariant Then(enc, EncodeRows(data[..], y, width, height, s)) == total
    {
      var row := EncodeRowInto(data, y * s, width, s, enc);
      if row.None? {
        return None;
      }
      ghost var t := EncodeRow(data[..], y * s, 0, width, s, []).value;
      ghost var next := EncodeRows(data[..], y + 1, width, height, s);
      EncodeRowsStep(data[..], y, width, height, s);
      ThenThen(enc, t + RowEnd(y, height), next);
      assert enc + (t + RowEnd(y, height)) == row.value + RowEnd(y, height);
      enc := row.value;
      if y != height - 1 {
        enc := enc + [0, 0];
      }
      assert enc == row.value + RowEnd(y, height);
      y := y + 1;
    }
    enc := enc + [0, 1];
    r := Some(enc);
  }

  // ------------------------------------------------------------ properties

  /**
   * A run scan that starts on `r` bytes equal to `v` inside the row finds a
   * run of equal bytes that stays inside the stride and cannot be extended.
   */
  lemma {:induction false} RunLengthRun(data: seq<byte>, base: int, x: int, s: int, v: byte, r: nat)
    requires 1 <= r <= 255 && 0 <= base && 0 <= x && x + r <= s && base + s <= |data|
    requires forall k :: base + x <= k < base + x + r ==> data[k] == v
    ensures var o := RunLength(data, base, x, s, v, r);
      o.Some? && r <= o.value && x + o.value <= s &&
      (forall k :: base + x <= k < base + x + o.value ==> data[k] == v) &&
      (o.value == 255 || x + o.value == s || data[base + x + o.value] != v)
    decreases 255 - r
  {
    if r < 255 && x + r < s && data[base + x + r] == v {
      RunLengthRun(data, base, x, s, v, r + 1);
    }
  }

  /** Every flush is no longer than twice the literals it flushes. */
  lemma FlushLength(acc: seq<byte>)
    ensures |Flush(acc)| <= 2 * |acc|
    ensures |acc| >= 3 ==> |Flush(acc)| == 2 + |acc| + |acc| % 2
  {
  }

  /**
   * A row whose stride lies inside the buffer always encodes; the encoding of
   * the rest of the row is at most two bytes per remaining stored byte.
   */
  lemma {:induction false} EncodeRowSucceeds(data: seq<byte>, base: int, x: int, width: int, s: int, acc: seq<byte>)
    requires 0 <= base && 0 <= x <= s && width <= s && base + s <= |data|
    ensures var o := EncodeRow(data, base, x, width, s, acc);
      o.Some? && |o.value| <= 2 * (s - x + |acc|)
    decreases width - x
  {
    FlushLength(acc);
    if x < width {
      var v := data[base + x];
      RunLengthRun(data, base, x, s, v, 1);
      var r := RunLength(data, base, x, s, v, 1).value;
      if r > 2 {
        EncodeRowSucceeds(data, base, x + r, width, s, []);
      } else {
        EncodeRowSucceeds(data, base, x + 1, width, s, acc + [v]);
      }
    }
  }

  /** Rows `y ..< height` of a buffer of `s * height` bytes encode, in at most `2 * s + 2` bytes per row plus the end marker. */
  lemma {:induction false} EncodeRowsSucceeds(data: seq<byte>, y: int, width: int, height: int, s: int)
    requires 0 <= y && 0 <= s && width <= s && s * height <= |data|
    ensures var o := EncodeRows(data, y, width, height, s);
      o.Some? && |o.value| <= 2 + (if y < height then (height - y) * (2 * s + 2) else 0)
    decreases height - y
  {
    if y < height {
      RowInside(y, s, height, |data|);
      EncodeRowSucceeds(data, y * s, 0, width, s, []);
      EncodeRowsSucceeds(data, y + 1, width, height, s);
      EncodeRowsStep(data, y, width, height, s);
      var row := EncodeRow(data, y * s, 0, width, s, []).value;
      var rest := EncodeRows(data, y + 1, width, height, s).value;
      var m := 2 * s + 2;
      assert |row + RowEnd(y, height)| <= m;
      assert |rest| <= 2 + (if y + 1 < height then (height - (y + 1)) * m else 0);
      MulPred(height - y, m);
    }
  }

  /** Row `y` of a buffer of `s * height` bytes lies inside it. */
  lemma RowInside(y: int, s: int, height: int, n: int)
    requires 0 <= y < height && 0 <= s && s * height <= n
    ensures y * s + s <= n
  {
    if s > 0 {
      Pixels.MulAtLeastMono(s, y + 1, height);
    }
    assert y * s + s == s * (y + 1);
  }

  lemma MulPred(n: int, m: int)
    ensures n * m == (n - 1) * m + m
  {
  }

  /**
   * The encoder never faults on a buffer holding `height` full strides, and
   * its output is bounded by the buffer size.
   */
  lemma EncodeSucceeds(data: seq<byte>, width: int, height: int)
    requires 0 <= width <= INT32_MAX - 3 && 0 <= height
    requires |data| >= Pixels.Stride(width) * height
    ensures var o := Encode(data, width, height);
      o.Some? && |o.value| <= 2 + height * (2 * Pixels.Stride(width) + 2)
  {
    Pixels.StrideBounds(width);
    EncodeRowsSucceeds(data, 0, width, height, Pixels.Stride(width));
  }

  /** Every encoding ends with the end-of-bitmap marker `0, 1`. */
  lemma {:induction false} EncodeRowsEnds(data: seq<byte>, y: int, width: int, height: int, s: int)
    requires EncodeRows(data, y, width, height, s).Some?
    ensures var e := EncodeRows(data, y, width, height, s).value;
      |e| >= 2 && e[|e| - 2..] == [0, 1]
    decreases height - y
  {
    if y < height {
      EncodeRowsEnds(data, y + 1, width, height, s);
      var row := EncodeRow(data, y * s, 0, width, s, []).value + RowEnd(y, height);
      var rest := EncodeRows(data, y + 1, width, height, s).value;
      assert (row + rest)[|row + rest| - 2..] == rest[|rest| - 2..];
    }
  }

  lemma EncodeEndsWithEndOfBitmap(data: seq<byte>, width: int, height: int)
    requires Encode(data, width, height).Some?
    ensures var e := Encode(data, width, height).value;
      |e| >= 2 && e[|e| - 2..] == [0, 1]
  {
    EncodeRowsEnds(data, 0, width, height, Pixels.Stride(width));
  }

  /**
   * The packets the encoder may emit, before the end-of-bitmap marker: an
   * encoded run `count, value` of count 3 to 255, a single literal `1, b`,
   * the end of a line `0, 0`, and an absolute packet `0, n, b...` of at
   * least three literals, padded with a zero byte to an even length.  A
   * count of 2, a delta and an end of bitmap are not among them.
   */
  ghost predicate Packets(e: seq<byte>)
  {
    PacketsFrom(e, 0)
  }

  /** The bytes of `e` from offset `i` on are a sequence of whole packets. */
  ghost predicate PacketsFrom(e: seq<byte>, i: nat)
    decreases |e| - i
  {
    i >= |e| || (ValidPacket(e, i) && PacketsFrom(e, i + PacketLength(e, i)))
  }

  /** Length of the packet at offset `i`, its literals and pad byte included. */
  function PacketLength(e: seq<byte>, i: nat): (n: nat)
    requires i + 2 <= |e|
    ensures n >= 2
  {
    if e[i] != 0 || e[i + 1] == 0 then 2 else 2 + e[i + 1] as int + e[i + 1] as int % 2
  }

  /** A packet the encoder emits starts at offset `i` and ends inside `e`. */
  ghost predicate ValidPacket(e: seq<byte>, i: nat)
  {
    i + 2 <= |e| && e[i] != 2 && (e[i] == 0 ==> e[i + 1] == 0 || e[i + 1] >= 3) &&
    i + PacketLength(e, i) <= |e| &&
    (e[i] == 0 && e[i + 1] % 2 == 1 ==> e[i + PacketLength(e, i) - 1] == 0)
  }

  /** Packets of `b` stay packets behind any prefix. */
  lemma {:induction false} PacketsShift(a: seq<byte>, b: seq<byte>, j: nat)
    requires PacketsFrom(b, j)
    ensures PacketsFrom(a + b, |a| + j)
    decreases |b| - j
  {
    if j < |b| {
      var ab := a + b;
      var k := |a| + j;
      assert ab[k] == b[j] && ab[k + 1] == b[j + 1];
      assert PacketLength(ab, k) == PacketLength(b, j);
      var len := PacketLength(b, j);
      assert ab[k + len - 1] == b[j + len - 1];
      PacketsShift(a, b, j + len);
    }
  }

  lemma {:induction false} PacketsAppendFrom(a: seq<byte>, b: seq<byte>, i: nat)
    requires i <= |a| && PacketsFrom(a, i) && Packets(b)
    ensures PacketsFrom(a + b, i)
    decreases |a| - i
  {
    if i == |a| {
      PacketsShift(a, b, 0);
    } else {
      var ab := a + b;
      var len := PacketLength(a, i);
      assert ab[i] == a[i] && ab[i + 1] == a[i + 1] && ab[i + len - 1] == a[i + len - 1];
      assert PacketLength(ab, i) == len;
      PacketsAppendFrom(a, b, i + len);
    }
  }

  lemma PacketsAppend(a: seq<byte>, b: seq<byte>)
    requires Packets(a) && Packets(b)
    ensures Packets(a + b)
  {
    PacketsAppendFrom(a, b, 0);
  }

  /** A two-byte packet whose count byte is not 0 or 2: a literal `1, b` or an encoded run. */
  lemma EncodedPacket(c: byte, v: byte)
    requires c != 0 && c != 2
    ensures Packets([c, v])
  {
    assert PacketsFrom([c, v], 2);
  }

  lemma {:induction false} PairsPackets(acc: seq<byte>)
    ensures Packets(Pairs(acc))
    decreases |acc|
  {
    if acc != [] {
      PairsPackets(acc[1..]);
      EncodedPacket(1, acc[0]);
      PacketsAppend([1, acc[0]], Pairs(acc[1..]));
    }
  }

  /** A flush of at most 255 literals is a sequence of packets. */
  lemma FlushPackets(acc: seq<byte>)
    requires |acc| <= 255
    ensures Packets(Flush(acc))
  {
    if 0 < |acc| < 3 {
      PairsPackets(acc);
    } else if |acc| >= 3 {
      var p := Absolute(acc);
      assert PacketLength(p, 0) == |p|;
      assert PacketsFrom(p, |p|);
    }
  }

  /** An encoded run of 3 to 255 between two sequences of packets. */
  lemma RunPackets(before: seq<byte>, r: int, v: byte, after: seq<byte>, whole: seq<byte>)
    requires 3 <= r <= 255 && Packets(before) && Packets(after) && whole == before + [r, v] + after
    ensures Packets(whole)
  {
    var run: seq<byte> := [r, v];
    EncodedPacket(r, v);
    PacketsAppend(run, after);
    PacketsAppend(before, run + after);
    assert whole == before + (run + after);
  }

  /** The rest of a row, when its first column starts a run: the flushed literals, the run, the rest after the run. */
  lemma EncodeRowRun(data: seq<byte>, base: int, x: int, width: int, s: int, acc: seq<byte>, out: seq<byte>, r: nat)
    requires x < width && 0 <= base + x < |data| && EncodeRow(data, base, x, width, s, acc) == Some(out)
    requires RunLength(data, base, x, s, data[base + x], 1) == Some(r) && r > 2
    ensures EncodeRow(data, base, x + r, width, s, []).Some?
    ensures out == Flush(acc) + [r, data[base + x]] + EncodeRow(data, base, x + r, width, s, []).value
  {
  }

  /** The first step of a row that is still inside it: the byte read, its run, and whether it is a literal. */
  lemma EncodeRowFirst(data: seq<byte>, base: int, x: int, width: int, s: int, acc: seq<byte>, out: seq<byte>)
    requires x < width && EncodeRow(data, base, x, width, s, acc) == Some(out)
    ensures 0 <= base + x < |data| && RunLength(data, base, x, s, data[base + x], 1).Some?
    ensures var r := RunLength(data, base, x, s, data[base + x], 1).value;
      r <= 2 ==> EncodeRow(data, base, x + 1, width, s, acc + [data[base + x]]) == Some(out)
  {
  }

  /** The rest of a row whose pending and remaining literals number at most 255 encodes to packets. */
  lemma {:induction false} EncodeRowPackets(data: seq<byte>, base: int, x: int, width: int, s: int, acc: seq<byte>, out: seq<byte>)
    requires |acc| <= 255 && |acc| + width - x <= 255
    requires EncodeRow(data, base, x, width, s, acc) == Some(out)
    ensures Packets(out)
    decreases width - x
  {
    if x >= width {
      FlushPackets(acc);
    } else {
      EncodeRowFirst(data, base, x, width, s, acc, out);
      var v := data[base + x];
      var r := RunLength(data, base, x, s, v, 1).value;
      if r > 2 {
        EncodeRowRun(data, base, x, width, s, acc, out, r);
        var rest := EncodeRow(data, base, x + r, width, s, []).value;
        EncodeRowPackets(data, base, x + r, width, s, [], rest);
        FlushPackets(acc);
        RunPackets(Flush(acc), r, v, rest, out);
      } else {
        EncodeRowPackets(data, base, x + 1, width, s, acc + [v], out);
      }
    }
  }

  /** Rows `y ..< height` of width at most 255 encode to packets followed by the end-of-bitmap marker. */
  lemma {:induction false} EncodeRowsPackets(data: seq<byte>, y: int, width: int, height: int, s: int, out: seq<byte>)
    requires width <= 255 && EncodeRows(data, y, width, height, s) == Some(out)
    ensures |out| >= 2 && out[|out| - 2..] == [0, 1] && Packets(out[..|out| - 2])
    decreases height - y
  {
    if y >= height {
      assert out == [0, 1] && out[..0] == [];
    } else {
      assert EncodeRow(data, y * s, 0, width, s, []).Some?;
      var row := EncodeRow(data, y * s, 0, width, s, []).value;
      EncodeRowsStep(data, y, width, height, s);
      var rest := EncodeRows(data, y + 1, width, height, s).value;
      var end := RowEnd(y, height);
      assert out == row + end + rest;
      EncodeRowsPackets(data, y + 1, width, height, s, rest);
      EncodeRowPackets(data, y * s, 0, width, s, [], row);
      assert Packets(end) by {
        if end != [] {
          assert PacketsFrom(end, 2);
        }
      }
      PacketsAppend(row, end);
      var body := rest[..|rest| - 2];
      PacketsAppend(row + end, body);
      assert out[..|out| - 2] == row + end + body;
      assert out[|out| - 2..] == rest[|rest| - 2..];
    }
  }

  /**
   * On an image at most 255 pixels wide, the encoding is a sequence of
   * packets closed by `0, 1`: every encoded run has a count from 3 to 255
   * and the end-of-bitmap marker occurs only at the end.
   */
  lemma EncodePackets(data: seq<byte>, width: int, height: int)
    requires width <= 255 && Encode(data, width, height).Some?
    ensures var e := Encode(data, width, height).value;
      |e| >= 2 && e[|e| - 2..] == [0, 1] && Packets(e[..|e| - 2])
  {
    EncodeRowsPackets(data, 0, width, height, Pixels.Stride(width), Encode(data, width, height).value);
  }

  /** A run of four equal bytes is one encoded packet. */
  lemma RunExample()
    ensures Encode([10, 10, 10, 10], 4, 1) == Some([4, 10, 0, 1])
  {
    var d: seq<byte> := [10, 10, 10, 10];
    assert Pixels.Stride(4) == 4;
    assert RunLength(d, 0, 0, 4, 10, 1) == Some(4);
    assert EncodeRow(d, 0, 4, 4, 4, []) == Some([]);
    assert Flush([]) + [4, 10] + [] == [4, 10];
    assert EncodeRow(d, 0, 0, 4, 4, []) == Some([4, 10]);
    assert EncodeRows(d, 1, 4, 1, 4) == Some([0, 1]);
    assert EncodeRows(d, 0, 4, 1, 4) == Then([4, 10] + [], Some([0, 1]));
    assert [4, 10] + [] + [0, 1] == [4, 10, 0, 1];
  }

  /** Three distinct bytes become an absolute packet padded to even length. */
  lemma AbsoluteExample()
    ensures Encode([1, 2, 3, 0], 3, 1) == Some([0, 3, 1, 2, 3, 0, 0, 1])
  {
    var d: seq<byte> := [1, 2, 3, 0];
    assert Pixels.Stride(3) == 4;
    assert RunLength(d, 0, 0, 4, 1, 1) == Some(1);
    assert RunLength(d, 0, 1, 4, 2, 1) == Some(1);
    assert RunLength(d, 0, 2, 4, 3, 1) == Some(1);
    assert Absolute([1, 2, 3]) == [0, 3] + [1, 2, 3] + [0];
    assert Flush([1, 2, 3]) == [0, 3, 1, 2, 3, 0];
    assert EncodeRow(d, 0, 3, 3, 4, [1, 2, 3]) == Some([0, 3, 1, 2, 3, 0]);
    assert EncodeRow(d, 0, 2, 3, 4, [1, 2]) == EncodeRow(d, 0, 3, 3, 4, [1, 2] + [3]);
    assert EncodeRow(d, 0, 1, 3, 4, [1]) == EncodeRow(d, 0, 2, 3, 4, [1] + [2]);
    assert EncodeRow(d, 0, 0, 3, 4, []) == EncodeRow(d, 0, 1, 3, 4, [] + [1]);
    assert [] + [1] == [1] && [1] + [2] == [1, 2] && [1, 2] + [3] == [1, 2, 3];
    assert EncodeRow(d, 0, 0, 3, 4, []) == Some([0, 3, 1, 2, 3, 0]);
    assert EncodeRows(d, 1, 3, 1, 4) == Some([0, 1]);
    assert EncodeRows(d, 0, 3, 1, 4) == Then([0, 3, 1, 2, 3, 0] + [], Some([0, 1]));
    assert [0, 3, 1, 2, 3, 0] + [] + [0, 1] == [0, 3, 1, 2, 3, 0, 0, 1];
  }

  /** Two distinct bytes become two pairs of count one. */
  lemma PairsExample()
    ensures Encode([1, 2, 0, 0], 2, 1) == Some([1, 1, 1, 2, 0, 1])
  {
    var d: seq<byte> := [1, 2, 0, 0];
    assert Pixels.Stride(2) == 4;
    assert RunLength(d, 0, 0, 4, 1, 1) == Some(1);
    assert RunLength(d, 0, 1, 4, 2, 1) == Some(1);
    assert [1, 2][1..] == [2] && [2][1..] == [];
    assert Pairs([1, 2]) == [1, 1] + Pairs([2]);
    assert Pairs([2]) == [1, 2] + Pairs([]);
    assert Flush([1, 2]) == [1, 1, 1, 2];
    assert EncodeRow(d, 0, 2, 2, 4, [1, 2]) == Some([1, 1, 1, 2]);
    assert EncodeRow(d, 0, 1, 2, 4, [1]) == EncodeRow(d, 0, 2, 2, 4, [1] + [2]);
    assert EncodeRow(d, 0, 0, 2, 4, []) == EncodeRow(d, 0, 1, 2, 4, [] + [1]);
    assert EncodeRows(d, 1, 2, 1, 4) == Some([0, 1]);
    assert EncodeRows(d, 0, 2, 1, 4) == Then([1, 1, 1, 2] + [], Some([0, 1]));
    assert [1, 1, 1, 2] + [] + [0, 1] == [1, 1, 1, 2, 0, 1];
  }

  /** The run scan reads past the width into the padding of the stride. */
  lemma RunIntoPaddingExample()
    ensures Encode([7, 7, 7, 7], 3, 1) == Some([4, 7, 0, 1])
  {
    var d: seq<byte> := [7, 7, 7, 7];
    assert Pixels.Stride(3) == 4;
    assert RunLength(d, 0, 0, 4, 7, 1) == Some(4);
    assert EncodeRow(d, 0, 4, 3, 4, []) == Some([]);
    assert Flush([]) + [4, 7] + [] == [4, 7];
    assert EncodeRow(d, 0, 0, 3, 4, []) == Some([4, 7]);
    assert EncodeRows(d, 1, 3, 1, 4) == Some([0, 1]);
    assert EncodeRows(d, 0, 3, 1, 4) == Then([4, 7] + [], Some([0, 1]));
    assert [4, 7] + [] + [0, 1] == [4, 7, 0, 1];
  }
}
