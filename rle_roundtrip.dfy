/**
 * Decoding what the encoder produced, into a zeroed buffer of `stride * height`
 * bytes with the decoder bounded by that size, restores every stored pixel of
 * an 8-bit image whose width is at most 255.  Padding bytes of a row come
 * back either as they were or as zero (a run that reaches into the padding
 * restores it; a row that ends at its width leaves the zero padding alone).
 *
 * The proof follows the encoder's recursion: a flush of pending literals, an
 * encoded packet for a run, the end-of-line marker, the end-of-bitmap marker.
 * Each lemma body takes a single path; case splits are handed to lemmas of
 * their own, which keeps every proof obligation small.
 */
module RleRoundTrip {
  import opened Bytes
  import opened Wrappers
  import Pixels
  import opened RleEncoding
  import opened RleDecoding

  // ------------------------------------------------------ sequence helpers

  lemma OverwriteConcat(buf: seq<byte>, p: nat, a: seq<byte>, b: seq<byte>)
    requires p + |a| + |b| <= |buf|
    ensures Overwrite(Overwrite(buf, p, a), p + |a|, b) == Overwrite(buf, p, a + b)
  {
    var m := Overwrite(buf, p, a);
    var l, r := Overwrite(m, p + |a|, b), Overwrite(buf, p, a + b);
    forall k | 0 <= k < |buf| ensures l[k] == r[k] {
      if p <= k < p + |a| {
        assert r[k] == r[p..p + |a + b|][k - p] == (a + b)[k - p] == a[k - p];
        assert m[k] == m[p..p + |a|][k - p];
      } else if p + |a| <= k < p + |a| + |b| {
        assert r[k] == r[p..p + |a + b|][k - p] == (a + b)[k - p] == b[k - p - |a|];
        assert l[k] == l[p + |a|..p + |a| + |b|][k - p - |a|];
      }
    }
  }

  lemma OverwriteNothing(c: Cursor)
    requires 0 <= c.pos <= |c.buf|
    ensures Cursor(Overwrite(c.buf, c.pos, []), c.pos, c.idx) == c
  {
    assert Overwrite(c.buf, c.pos, []) == c.buf;
  }

  /** A slice of `enc` that holds `a + b` holds `a` and then `b`. */
  lemma SliceSplit(enc: seq<byte>, i: nat, a: seq<byte>, b: seq<byte>)
    requires i + |a| + |b| <= |enc| && enc[i .. i + |a| + |b|] == a + b
    ensures enc[i .. i + |a|] == a && enc[i + |a| .. i + |a| + |b|] == b
  {
    assert enc[i .. i + |a|] == enc[i .. i + |a| + |b|][..|a|];
    assert enc[i + |a| .. i + |a| + |b|] == enc[i .. i + |a| + |b|][|a|..];
  }

  /** The two bytes at the head of a slice. */
  lemma SliceHead(enc: seq<byte>, i: nat, a: seq<byte>)
    requires |a| >= 2 && i + |a| <= |enc| && enc[i .. i + |a|] == a
    ensures enc[i] == a[0] && enc[i + 1] == a[1]
  {
    assert enc[i] == enc[i .. i + |a|][0];
    assert enc[i + 1] == enc[i .. i + |a|][1];
  }

  // -------------------------------------------------------- decoder steps
  //
  // Lemmas that relate two decoder states take both cursors as parameters,
  // the second one pinned down by a `requires`, so that callers chain
  // `Run` equalities between plain variables.

  /** One step of the decoding loop that continues. */
  lemma RunGo(enc: seq<byte>, c: Cursor, c': Cursor, stride: int, bound: int)
    requires c.pos < |c.buf| && c.idx < |enc| && Step(enc, c, stride, bound) == Go(c')
    ensures Run(enc, c, stride, bound) == Run(enc, c', stride, bound)
  {
  }

  /** An encoded packet `n, v` below `bound` writes `n` copies of `v`. */
  lemma EncodedPacket(enc: seq<byte>, c: Cursor, stride: int, bound: int, n: nat, v: byte, c': Cursor)
    requires c.idx + 1 < |enc| && enc[c.idx] == n && enc[c.idx + 1] == v && n != 0
    requires 0 <= c.pos && c.pos + n <= bound <= |c.buf|
    requires c' == Cursor(Overwrite(c.buf, c.pos, Constant(n, v)), c.pos + n, c.idx + 2)
    ensures Run(enc, c, stride, bound) == Run(enc, c', stride, bound)
  {
    RepeatWrites(Cursor(c.buf, c.pos, c.idx + 2), n, v, bound);
    RunGo(enc, c, c', stride, bound);
  }

  // ------------------------------------------------------------- flushes

  /** The first pair of count one writes the first literal. */
  lemma PairLayout(enc: seq<byte>, i: nat, acc: seq<byte>)
    requires acc != [] && i + 2 * |acc| <= |enc| && enc[i .. i + 2 * |acc|] == Pairs(acc)
    ensures enc[i] == 1 && enc[i + 1] == acc[0] && enc[i + 2 .. i + 2 + 2 * |acc[1..]|] == Pairs(acc[1..])
  {
    assert Pairs(acc) == [] + [1, acc[0]] + Pairs(acc[1..]);
    PacketLayout(enc, i, [], 1, acc[0], Pairs(acc[1..]));
  }

  lemma PairRest(c: Cursor, acc: seq<byte>, d: Cursor, t: Cursor)
    requires acc != [] && 0 <= c.pos && c.pos + |acc| <= |c.buf|
    requires d == Cursor(Overwrite(Overwrite(c.buf, c.pos, [acc[0]]), c.pos + 1, acc[1..]),
                         c.pos + 1 + |acc[1..]|, c.idx + 2 + 2 * |acc[1..]|)
    requires t == Cursor(Overwrite(c.buf, c.pos, acc), c.pos + |acc|, c.idx + 2 * |acc|)
    ensures d == t
  {
    OverwriteConcat(c.buf, c.pos, [acc[0]], acc[1..]);
    assert [acc[0]] + acc[1..] == acc;
  }

  /** Literal pairs of count one write their bytes in order. */
  lemma {:induction false} PairsDecode(enc: seq<byte>, c: Cursor, acc: seq<byte>, stride: int, bound: int, t: Cursor)
    requires bound == |c.buf| && 0 <= c.pos && c.pos + |acc| <= |c.buf|
    requires c.idx + 2 * |acc| <= |enc| && enc[c.idx .. c.idx + 2 * |acc|] == Pairs(acc)
    requires t == Cursor(Overwrite(c.buf, c.pos, acc), c.pos + |acc|, c.idx + 2 * |acc|)
    ensures Run(enc, c, stride, bound) == Run(enc, t, stride, bound)
    decreases |acc|, 1
  {
    if acc == [] {
      OverwriteNothing(c);
    } else {
      PairsDecodeCons(enc, c, acc, stride, bound, t);
    }
  }

  lemma {:induction false} PairsDecodeCons(enc: seq<byte>, c: Cursor, acc: seq<byte>, stride: int, bound: int, t: Cursor)
    requires acc != [] && bound == |c.buf| && 0 <= c.pos && c.pos + |acc| <= |c.buf|
    requires c.idx + 2 * |acc| <= |enc| && enc[c.idx .. c.idx + 2 * |acc|] == Pairs(acc)
    requires t == Cursor(Overwrite(c.buf, c.pos, acc), c.pos + |acc|, c.idx + 2 * |acc|)
    ensures Run(enc, c, stride, bound) == Run(enc, t, stride, bound)
    decreases |acc|, 0
  {
    var c1 := Cursor(Overwrite(c.buf, c.pos, [acc[0]]), c.pos + 1, c.idx + 2);
    var d := Cursor(Overwrite(c1.buf, c1.pos, acc[1..]), c1.pos + |acc[1..]|, c1.idx + 2 * |acc[1..]|);
    PairLayout(enc, c.idx, acc);
    PairRest(c, acc, d, t);
    assert Constant(1, acc[0]) == [acc[0]];
    EncodedPacket(enc, c, stride, bound, 1, acc[0], c1);
    PairsDecode(enc, c1, acc[1..], stride, bound, d);
  }

  /** Decoding stops at once when the buffer is full. */
  lemma FullBufferStops(enc: seq<byte>, c: Cursor, c': Cursor, stride: int, bound: int)
    requires c.pos >= |c.buf| && c'.pos >= |c'.buf| && c.buf == c'.buf
    ensures Run(enc, c, stride, bound) == Run(enc, c', stride, bound)
  {
  }

  /** The byte layout of an absolute packet. */
  lemma AbsoluteLayout(enc: seq<byte>, i: nat, acc: seq<byte>)
    requires 3 <= |acc| <= 255
    requires i + |Flush(acc)| <= |enc| && enc[i .. i + |Flush(acc)|] == Flush(acc)
    ensures enc[i] == 0 && enc[i + 1] == |acc| && enc[i + 2 .. i + 2 + |acc|] == acc
    ensures |Flush(acc)| == 2 + AbsoluteIterations(|acc|)
  {
    var n := |acc|;
    FlushLength(acc);
    var head: seq<byte> := [0, n];
    var pad: seq<byte> := if n % 2 != 0 then [0] else [];
    assert Flush(acc) == head + (acc + pad);
    SliceSplit(enc, i, head, acc + pad);
    SliceSplit(enc, i + 2, acc, pad);
    SliceHead(enc, i, head);
  }

  /** An absolute packet writes its literals; a pad byte it skips at the end of the buffer does not matter. */
  lemma AbsoluteDecodes(enc: seq<byte>, c: Cursor, acc: seq<byte>, stride: int, bound: int, t: Cursor)
    requires 3 <= |acc| <= 255 && bound == |c.buf| && 0 <= c.pos && c.pos + |acc| <= |c.buf|
    requires c.idx + |Flush(acc)| <= |enc| && enc[c.idx .. c.idx + |Flush(acc)|] == Flush(acc)
    requires t == Cursor(Overwrite(c.buf, c.pos, acc), c.pos + |acc|, c.idx + |Flush(acc)|)
    ensures Run(enc, c, stride, bound) == Run(enc, t, stride, bound)
  {
    var n := |acc|;
    AbsoluteLayout(enc, c.idx, acc);
    var after := Cursor(c.buf, c.pos, c.idx + 2);
    LiteralsWrite(enc, after, 0, AbsoluteIterations(n), n, bound);
    var p := Literals(enc, after, 0, AbsoluteIterations(n), n, bound);
    assert Step(enc, c, stride, bound) == p;
    var c1 := p.c;
    RunGo(enc, c, c1, stride, bound);
    if c1 != t {
      FullBufferStops(enc, c1, t, stride, bound);
    }
  }

  /** A flushed literal accumulator decodes to the literals, whichever form the flush took. */
  lemma FlushDecodes(enc: seq<byte>, c: Cursor, acc: seq<byte>, stride: int, bound: int, t: Cursor)
    requires |acc| <= 255 && bound == |c.buf| && 0 <= c.pos && c.pos + |acc| <= |c.buf|
    requires c.idx + |Flush(acc)| <= |enc| && enc[c.idx .. c.idx + |Flush(acc)|] == Flush(acc)
    requires t == Cursor(Overwrite(c.buf, c.pos, acc), c.pos + |acc|, c.idx + |Flush(acc)|)
    ensures Run(enc, c, stride, bound) == Run(enc, t, stride, bound)
  {
    if |acc| < 3 {
      assert Flush(acc) == Pairs(acc);
      PairsDecode(enc, c, acc, stride, bound, t);
    } else {
      AbsoluteDecodes(enc, c, acc, stride, bound, t);
    }
  }

  // ----------------------------------------------------------------- rows

  /** Where the encoding of a row, resumed at column `x`, leaves the write position. */
  ghost function RowSpan(data: seq<byte>, base: int, x: int, width: int, s: int): int
    decreases width - x
  {
    if x >= width || !(0 <= base + x < |data|) then x
    else
      match RunLength(data, base, x, s, data[base + x], 1)
      case None => x
      case Some(r) =>
        if r > 2 then RowSpan(data, base, x + r, width, s) else RowSpan(data, base, x + 1, width, s)
  }

  lemma {:induction false} RowSpanBounds(data: seq<byte>, base: nat, x: nat, width: int, s: int)
    requires x <= s && width <= s && base + s <= |data|
    ensures x <= RowSpan(data, base, x, width, s) <= s && width <= RowSpan(data, base, x, width, s)
    decreases width - x
  {
    if x < width {
      var v := data[base + x];
      RunLengthRun(data, base, x, s, v, 1);
      var r := RunLength(data, base, x, s, v, 1).value;
      if r > 2 {
        RowSpanBounds(data, base, x + r, width, s);
      } else {
        RowSpanBounds(data, base, x + 1, width, s);
      }
    }
  }

  /** A run of `r` bytes is one stretch of the row span. */
  lemma RunSpan(data: seq<byte>, base: nat, x: nat, width: int, s: int, r: nat, e: int)
    requires x < width <= s && base + s <= |data| && x + r <= s
    requires RunLength(data, base, x, s, data[base + x], 1) == Some(r) && r > 2
    requires e == RowSpan(data, base, x, width, s)
    ensures e == RowSpan(data, base, x + r, width, s) && x + r <= e <= s
  {
    RowSpanBounds(data, base, x + r, width, s);
  }

  /** The literal case of the row encoder, unfolded once. */
  lemma EncodeRowLiteral(data: seq<byte>, base: nat, x: nat, width: int, s: int, acc: seq<byte>, r: nat)
    requires x < width <= s && base + s <= |data|
    requires RunLength(data, base, x, s, data[base + x], 1) == Some(r) && r <= 2
    ensures EncodeRow(data, base, x, width, s, acc) == EncodeRow(data, base, x + 1, width, s, acc + [data[base + x]])
    ensures RowSpan(data, base, x, width, s) == RowSpan(data, base, x + 1, width, s)
  {
  }

  /** The state the decoder reaches once row bytes from `c.pos` up to `base + e` are written. */
  function RowWritten(data: seq<byte>, c: Cursor, base: int, e: int, used: nat): (c': Cursor)
    requires 0 <= c.pos <= base + e <= |data| == |c.buf|
    ensures c'.pos == base + e && c'.idx == c.idx + used && |c'.buf| == |c.buf|
  {
    Cursor(Overwrite(c.buf, c.pos, data[c.pos .. base + e]), base + e, c.idx + used)
  }

  /** The preconditions shared by the row lemmas. */
  ghost predicate RowState(data: seq<byte>, base: nat, x: nat, width: int, s: int, acc: seq<byte>,
                           out: seq<byte>, enc: seq<byte>, c: Cursor)
  {
    1 <= width <= 255 && width <= s && base + s <= |data| == |c.buf| &&
    x <= s && |acc| <= x && (acc != [] ==> x <= width) &&
    c.pos == base + x - |acc| && acc == data[c.pos .. base + x] &&
    EncodeRow(data, base, x, width, s, acc) == Some(out) &&
    c.idx + |out| <= |enc| && enc[c.idx .. c.idx + |out|] == out
  }

  /**
   * Decoding the encoding of the rest of a row writes the row's bytes from the
   * pending literals up to `RowSpan`, which lies between the width and the stride.
   */
  lemma {:induction false} RowDecodes(data: seq<byte>, base: nat, x: nat, width: int, s: int, acc: seq<byte>,
                                      out: seq<byte>, enc: seq<byte>, c: Cursor, stride: int, e: int, t: Cursor)
    requires RowState(data, base, x, width, s, acc, out, enc, c)
    requires e == RowSpan(data, base, x, width, s) && x <= e <= s
    requires t == RowWritten(data, c, base, e, |out|)
    ensures Run(enc, c, stride, |data|) == Run(enc, t, stride, |data|)
    decreases width - x, 1
  {
    if x >= width {
      assert out == Flush(acc) && data[c.pos .. base + e] == acc;
      FlushDecodes(enc, c, acc, stride, |data|, t);
    } else {
      var v := data[base + x];
      RunLengthRun(data, base, x, s, v, 1);
      var r := RunLength(data, base, x, s, v, 1).value;
      if r > 2 {
        RowDecodesRun(data, base, x, width, s, acc, out, enc, c, stride, r, e, t);
      } else {
        RowDecodesLiteral(data, base, x, width, s, acc, out, enc, c, stride, r, e, t);
      }
    }
  }

  lemma {:induction false} RowDecodesLiteral(data: seq<byte>, base: nat, x: nat, width: int, s: int, acc: seq<byte>,
                                             out: seq<byte>, enc: seq<byte>, c: Cursor, stride: int, r: nat,
                                             e: int, t: Cursor)
    requires RowState(data, base, x, width, s, acc, out, enc, c) && x < width
    requires RunLength(data, base, x, s, data[base + x], 1) == Some(r) && r <= 2
    requires e == RowSpan(data, base, x, width, s) && x <= e <= s
    requires t == RowWritten(data, c, base, e, |out|)
    ensures Run(enc, c, stride, |data|) == Run(enc, t, stride, |data|)
    decreases width - x, 0
  {
    LiteralSpan(data, base, x, width, s, r, e);
    var acc' := LiteralStage(data, base, x, width, s, acc, out, enc, c, r);
    RowDecodes(data, base, x + 1, width, s, acc', out, enc, c, stride, e, t);
  }

  /** A byte that starts no run joins the pending literals. */
  lemma LiteralStage(data: seq<byte>, base: nat, x: nat, width: int, s: int, acc: seq<byte>,
                     out: seq<byte>, enc: seq<byte>, c: Cursor, r: nat)
    returns (acc': seq<byte>)
    requires RowState(data, base, x, width, s, acc, out, enc, c) && x < width
    requires RunLength(data, base, x, s, data[base + x], 1) == Some(r) && r <= 2
    ensures RowState(data, base, x + 1, width, s, acc', out, enc, c)
  {
    acc' := acc + [data[base + x]];
    assert acc' == data[c.pos .. base + x + 1];
    EncodeRowLiteral(data, base, x, width, s, acc, r);
  }

  /** A byte that starts no run leaves the row span where it was. */
  lemma LiteralSpan(data: seq<byte>, base: nat, x: nat, width: int, s: int, r: nat, e: int)
    requires x < width <= s && base + s <= |data|
    requires RunLength(data, base, x, s, data[base + x], 1) == Some(r) && r <= 2
    requires e == RowSpan(data, base, x, width, s)
    ensures e == RowSpan(data, base, x + 1, width, s) && x + 1 <= e <= s
  {
    EncodeRowLiteral(data, base, x, width, s, [], r);
    RowSpanBounds(data, base, x + 1, width, s);
  }

  /** The flush and the run packet in front of the rest of a row. */
  lemma FlushThenRun(data: seq<byte>, base: nat, x: nat, acc: seq<byte>, enc: seq<byte>, c: Cursor,
                     stride: int, r: nat, c2: Cursor)
    requires 3 <= r <= 255 && base + x + r <= |data| == |c.buf|
    requires |acc| <= 255 && |acc| <= x && c.pos == base + x - |acc| && acc == data[c.pos .. base + x]
    requires data[base + x .. base + x + r] == Constant(r, data[base + x])
    requires c.idx + |Flush(acc)| + 1 < |enc| && enc[c.idx .. c.idx + |Flush(acc)|] == Flush(acc)
    requires enc[c.idx + |Flush(acc)|] == r && enc[c.idx + |Flush(acc)| + 1] == data[base + x]
    requires c2 == RowWritten(data, c, base, x + r, |Flush(acc)| + 2)
    ensures Run(enc, c, stride, |data|) == Run(enc, c2, stride, |data|)
  {
    var f := Flush(acc);
    var v := data[base + x];
    var c1 := Cursor(Overwrite(c.buf, c.pos, acc), c.pos + |acc|, c.idx + |f|);
    var d := Cursor(Overwrite(c1.buf, c1.pos, Constant(r, v)), c1.pos + r, c1.idx + 2);
    LiteralsThenRun(data, base, x, acc, c, r, |f|, d, c2);
    EncodedPacket(enc, c1, stride, |data|, r, v, d);
    FlushDecodes(enc, c, acc, stride, |data|, c1);
  }

  /** A stretch `f`, two bytes `r, v` and what follows, found back in `enc`: a flush and a run packet, or a row and its marker. */
  lemma PacketLayout(enc: seq<byte>, i: nat, f: seq<byte>, r: byte, v: byte, rest: seq<byte>)
    requires i + |f| + 2 + |rest| <= |enc| && enc[i .. i + |f| + 2 + |rest|] == f + [r, v] + rest
    ensures enc[i .. i + |f|] == f && enc[i + |f|] == r && enc[i + |f| + 1] == v
    ensures enc[i + |f| + 2 .. i + |f| + 2 + |rest|] == rest
  {
    var packet: seq<byte> := [r, v];
    SliceSplit(enc, i, f + packet, rest);
    SliceSplit(enc, i, f, packet);
    SliceHead(enc, i + |f|, packet);
  }

  lemma LiteralsThenRun(data: seq<byte>, base: nat, x: nat, acc: seq<byte>, c: Cursor, r: nat, used: nat,
                        d: Cursor, c2: Cursor)
    requires 3 <= r && base + x + r <= |data| == |c.buf|
    requires |acc| <= x && c.pos == base + x - |acc| && acc == data[c.pos .. base + x]
    requires data[base + x .. base + x + r] == Constant(r, data[base + x])
    requires d == Cursor(Overwrite(Overwrite(c.buf, c.pos, acc), c.pos + |acc|, Constant(r, data[base + x])),
                         c.pos + |acc| + r, c.idx + used + 2)
    requires c2 == RowWritten(data, c, base, x + r, used + 2)
    ensures d == c2
  {
    var run := data[base + x .. base + x + r];
    OverwriteConcat(c.buf, c.pos, acc, run);
    assert acc + run == data[c.pos .. base + x + r];
  }

  /** Writing the row in two stretches is writing it in one. */
  lemma RowWrittenTwice(data: seq<byte>, c: Cursor, base: int, m: int, e: int, used: nat, more: nat,
                        c2: Cursor, c3: Cursor, t: Cursor)
    requires 0 <= c.pos <= base + m <= base + e <= |data| == |c.buf|
    requires c2 == RowWritten(data, c, base, m, used)
    requires c3 == RowWritten(data, c2, base, e, more)
    requires t == RowWritten(data, c, base, e, used + more)
    ensures c3 == t
  {
    OverwriteConcat(c.buf, c.pos, data[c.pos .. base + m], data[base + m .. base + e]);
    assert data[c.pos .. base + m] + data[base + m .. base + e] == data[c.pos .. base + e];
  }

  /** The state after the run packet of a row and everything in front of it. */
  lemma RunStage(data: seq<byte>, base: nat, x: nat, width: int, s: int, acc: seq<byte>,
                 out: seq<byte>, enc: seq<byte>, c: Cursor, r: nat)
    returns (rest: seq<byte>, used: nat, c2: Cursor)
    requires RowState(data, base, x, width, s, acc, out, enc, c) && x < width
    requires RunLength(data, base, x, s, data[base + x], 1) == Some(r) && 2 < r <= 255 && x + r <= s
    ensures RowState(data, base, x + r, width, s, [], rest, enc, c2)
    ensures |out| == used + |rest| && used == |Flush(acc)| + 2
    ensures c2 == RowWritten(data, c, base, x + r, used)
    ensures c.idx + |Flush(acc)| + 1 < |enc| && enc[c.idx .. c.idx + |Flush(acc)|] == Flush(acc)
    ensures enc[c.idx + |Flush(acc)|] == r && enc[c.idx + |Flush(acc)| + 1] == data[base + x]
  {
    EncodeRowRun(data, base, x, width, s, acc, out, r);
    rest := EncodeRow(data, base, x + r, width, s, []).value;
    var f := Flush(acc);
    assert out == f + [r, data[base + x]] + rest;
    PacketLayout(enc, c.idx, f, r, data[base + x], rest);
    used := |f| + 2;
    c2 := RowWritten(data, c, base, x + r, used);
    assert data[c2.pos .. base + x + r] == [];
  }

  lemma {:induction false} RowDecodesRun(data: seq<byte>, base: nat, x: nat, width: int, s: int, acc: seq<byte>,
                                         out: seq<byte>, enc: seq<byte>, c: Cursor, stride: int, r: nat,
                                         e: int, t: Cursor)
    requires RowState(data, base, x, width, s, acc, out, enc, c) && x < width
    requires RunLength(data, base, x, s, data[base + x], 1) == Some(r) && 2 < r <= 255
    requires x + r <= s && data[base + x .. base + x + r] == Constant(r, data[base + x])
    requires e == RowSpan(data, base, x, width, s) && x <= e <= s
    requires t == RowWritten(data, c, base, e, |out|)
    ensures Run(enc, c, stride, |data|) == Run(enc, t, stride, |data|)
    decreases width - x, 0
  {
    RunSpan(data, base, x, width, s, r, e);
    var rest, used, c2 := RunStage(data, base, x, width, s, acc, out, enc, c, r);
    FlushThenRun(data, base, x, acc, enc, c, stride, r, c2);
    var c3 := RowWritten(data, c2, base, e, |rest|);
    RowDecodes(data, base, x + r, width, s, [], rest, enc, c2, stride, e, c3);
    RowWrittenTwice(data, c, base, x + r, e, used, |rest|, c2, c3, t);
  }

  // ------------------------------------------------------ rows and image

  /**
   * The first `n` bytes of `out` restore `data`: every byte inside the width
   * of its row is the original, every padding byte is the original or zero;
   * the bytes from `n` on are still zero.
   */
  ghost predicate RestoredUpTo(out: seq<byte>, data: seq<byte>, width: int, s: int, n: int)
  {
    s > 0 && |out| == |data| && 0 <= n <= |out| &&
    (forall k :: 0 <= k < n ==> (k % s < width ==> out[k] == data[k]) && (out[k] == data[k] || out[k] == 0)) &&
    (forall k :: n <= k < |out| ==> out[k] == 0)
  }

  lemma RowRestored(buf: seq<byte>, data: seq<byte>, width: int, s: int, y: nat, e: int)
    requires 1 <= width <= e <= s && y * s + s <= |data|
    requires RestoredUpTo(buf, data, width, s, y * s)
    ensures RestoredUpTo(Overwrite(buf, y * s, data[y * s .. y * s + e]), data, width, s, y * s + s)
  {
    var seg := data[y * s .. y * s + e];
    var out := Overwrite(buf, y * s, seg);
    forall k | y * s <= k < y * s + s
      ensures (k % s < width ==> out[k] == data[k]) && (out[k] == data[k] || out[k] == 0)
    {
      Pixels.DivModOfIndex(k - y * s, y, s);
      if k < y * s + e {
        assert out[k] == out[y * s .. y * s + e][k - y * s] == seg[k - y * s];
      }
    }
  }

  /** The row after row `y` starts `s` bytes further on. */
  lemma RowOffsets(y: int, s: int, height: int)
    ensures (y + 1) * s == y * s + s && s * (y + 1) == y * s + s && s * (y + 2) == y * s + 2 * s
    ensures y + 1 == height ==> s * height == y * s + s
  {
  }

  /** The only multiple of `s` in `[y * s + e, y * s + e + s)` is the start of row `y + 1`. */
  lemma NextRowStart(s: int, y: nat, e: int, q: int)
    requires s > 0 && 1 <= e <= s && q % s == 0 && y * s + e <= q < y * s + e + s
    ensures q == y * s + s
  {
    var m := q / s;
    assert q == s * m;
    if m <= y {
      Pixels.MulAtLeastMono(s, m, y);
    } else if m >= y + 2 {
      Pixels.MulAtLeastMono(s, y + 2, m);
    }
  }

  /** After a row, `0, 0` moves the write position to the start of the next row. */
  lemma EndOfLineToNextRow(enc: seq<byte>, c: Cursor, s: int, y: nat, e: int, height: int, c': Cursor)
    requires 1 <= e <= s && y + 1 < height && |c.buf| == s * height <= INT32_MAX && c.pos == y * s + e
    requires c.idx + 2 <= |enc| && enc[c.idx] == 0 && enc[c.idx + 1] == 0
    requires c' == Cursor(c.buf, y * s + s, c.idx + 2)
    ensures Run(enc, c, s, |c.buf|) == Run(enc, c', s, |c.buf|)
  {
    Pixels.MulAtLeastMono(s, y + 2, height);
    RowOffsets(y, s, height);
    EndOfLineAligns(enc, c, s, |c.buf|);
    var p := Step(enc, c, s, |c.buf|);
    NextRowStart(s, y, e, p.c.pos);
    assert p == Go(c');
    RunGo(enc, c, c', s, |c.buf|);
  }

  /** The encoding of rows `y ..< height`, unfolded once. */
  lemma EncodeRowsUnfold(data: seq<byte>, y: nat, width: int, height: int, s: int, out: seq<byte>)
    requires y < height && EncodeRows(data, y, width, height, s) == Some(out)
    ensures EncodeRow(data, y * s, 0, width, s, []).Some?
    ensures EncodeRows(data, y + 1, width, height, s).Some?
    ensures out == EncodeRow(data, y * s, 0, width, s, []).value + RowEnd(y, height) +
      EncodeRows(data, y + 1, width, height, s).value
  {
  }

  /** The preconditions shared by the image lemmas. */
  ghost predicate ImageState(data: seq<byte>, y: nat, width: int, height: int, s: int,
                             out: seq<byte>, enc: seq<byte>, c: Cursor)
  {
    1 <= width <= 255 && width <= s && y < height && |data| == s * height == |c.buf| &&
    EncodeRows(data, y, width, height, s) == Some(out) &&
    c.idx + |out| <= |enc| && enc[c.idx .. c.idx + |out|] == out &&
    c.pos == y * s && RestoredUpTo(c.buf, data, width, s, y * s)
  }

  /** The encoding of a row that is not the last, its end-of-line marker and the rows after it. */
  lemma MiddleLayout(data: seq<byte>, y: nat, width: int, height: int, s: int, out: seq<byte>, enc: seq<byte>, i: nat)
    returns (row: seq<byte>, rest: seq<byte>, j: nat)
    requires y < height - 1 && EncodeRows(data, y, width, height, s) == Some(out)
    requires i + |out| <= |enc| && enc[i .. i + |out|] == out
    ensures EncodeRow(data, y * s, 0, width, s, []) == Some(row)
    ensures EncodeRows(data, y + 1, width, height, s) == Some(rest)
    ensures i + |row| <= |enc| && enc[i .. i + |row|] == row && j == i + |row|
    ensures j + 2 + |rest| <= |enc| && enc[j] == 0 && enc[j + 1] == 0 && enc[j + 2 .. j + 2 + |rest|] == rest
  {
    EncodeRowsUnfold(data, y, width, height, s, out);
    row := EncodeRow(data, y * s, 0, width, s, []).value;
    rest := EncodeRows(data, y + 1, width, height, s).value;
    j := i + |row|;
    assert RowEnd(y, height) == [0, 0];
    assert out == row + [0, 0] + rest;
    PacketLayout(enc, i, row, 0, 0, rest);
  }

  /** The encoding of the last row and the end-of-bitmap marker after it. */
  lemma LastLayout(data: seq<byte>, y: nat, width: int, height: int, s: int, out: seq<byte>, enc: seq<byte>, i: nat)
    returns (row: seq<byte>, j: nat)
    requires y == height - 1 && EncodeRows(data, y, width, height, s) == Some(out)
    requires i + |out| <= |enc| && enc[i .. i + |out|] == out
    ensures EncodeRow(data, y * s, 0, width, s, []) == Some(row)
    ensures i + |row| <= |enc| && enc[i .. i + |row|] == row && j == i + |row|
    ensures j + 1 < |enc| && enc[j] == 0 && enc[j + 1] == 1
  {
    EncodeRowsUnfold(data, y, width, height, s, out);
    row := EncodeRow(data, y * s, 0, width, s, []).value;
    j := i + |row|;
    assert EncodeRows(data, y + 1, width, height, s).value == [0, 1] && RowEnd(y, height) == [];
    assert out == row + [0, 1] + [];
    PacketLayout(enc, i, row, 0, 1, []);
  }

  /**
   * The state in which row `y`, whose encoding `row` lies at the read position,
   * is decoded, and the cursor once that row is written.
   */
  lemma RowStage(data: seq<byte>, y: nat, width: int, height: int, s: int, out: seq<byte>, enc: seq<byte>, c: Cursor,
                 row: seq<byte>)
    returns (e: int, c1: Cursor)
    requires ImageState(data, y, width, height, s, out, enc, c)
    requires EncodeRow(data, y * s, 0, width, s, []) == Some(row)
    requires c.idx + |row| <= |enc| && enc[c.idx .. c.idx + |row|] == row
    ensures y * s + s <= |data| && RowState(data, y * s, 0, width, s, [], row, enc, c)
    ensures e == RowSpan(data, y * s, 0, width, s) && 1 <= e <= s
    ensures c1 == RowWritten(data, c, y * s, e, |row|) && c1.pos == y * s + e && c1.idx == c.idx + |row|
    ensures |c1.buf| == |data| && RestoredUpTo(c1.buf, data, width, s, y * s + s)
  {
    Pixels.MulAtLeastMono(s, y + 1, height);
    RowOffsets(y, s, height);
    var base := y * s;
    assert data[c.pos .. base] == [];
    e := RowSpan(data, base, 0, width, s);
    RowSpanBounds(data, base, 0, width, s);
    c1 := RowWritten(data, c, base, e, |row|);
    RowRestored(c.buf, data, width, s, y, e);
  }

  /** Decoding the encoding of rows `y ..< height` finishes and restores them. */
  lemma {:induction false} RowsDecode(data: seq<byte>, y: nat, width: int, height: int, s: int,
                                      out: seq<byte>, enc: seq<byte>, c: Cursor)
    requires ImageState(data, y, width, height, s, out, enc, c) && |data| <= INT32_MAX
    ensures var o := Run(enc, c, s, |data|);
      o.Finished? && RestoredUpTo(o.buf, data, width, s, |data|)
    decreases height - y, 1
  {
    if y < height - 1 {
      RowsDecodeMiddle(data, y, width, height, s, out, enc, c);
    } else {
      RowsDecodeLast(data, y, width, height, s, out, enc, c);
    }
  }

  lemma {:induction false} RowsDecodeMiddle(data: seq<byte>, y: nat, width: int, height: int, s: int,
                                            out: seq<byte>, enc: seq<byte>, c: Cursor)
    requires ImageState(data, y, width, height, s, out, enc, c) && y < height - 1 && |data| <= INT32_MAX
    ensures var o := Run(enc, c, s, |data|);
      o.Finished? && RestoredUpTo(o.buf, data, width, s, |data|)
    decreases height - y, 0
  {
    var rest, c2 := MiddleStage(data, y, width, height, s, out, enc, c);
    RowsDecode(data, y + 1, width, height, s, rest, enc, c2);
  }

  /** A row that is not the last, with its end-of-line marker. */
  lemma MiddleStage(data: seq<byte>, y: nat, width: int, height: int, s: int,
                    out: seq<byte>, enc: seq<byte>, c: Cursor)
    returns (rest: seq<byte>, c2: Cursor)
    requires ImageState(data, y, width, height, s, out, enc, c) && y < height - 1 && |data| <= INT32_MAX
    ensures ImageState(data, y + 1, width, height, s, rest, enc, c2)
    ensures Run(enc, c, s, |data|) == Run(enc, c2, s, |data|)
  {
    var row, j;
    row, rest, j := MiddleLayout(data, y, width, height, s, out, enc, c.idx);
    var e, c1 := RowStage(data, y, width, height, s, out, enc, c, row);
    c2 := Cursor(c1.buf, y * s + s, j + 2);
    NextImageState(data, y, width, height, s, rest, enc, c2);
    RowThenEndOfLine(data, y, width, height, s, row, enc, c, e, c1, c2);
  }

  /** Decoding a row that is not the last and its end-of-line marker. */
  lemma RowThenEndOfLine(data: seq<byte>, y: nat, width: int, height: int, s: int, row: seq<byte>, enc: seq<byte>,
                         c: Cursor, e: int, c1: Cursor, c2: Cursor)
    requires y + 1 < height && |data| == s * height <= INT32_MAX && RowState(data, y * s, 0, width, s, [], row, enc, c)
    requires e == RowSpan(data, y * s, 0, width, s) && 1 <= e <= s
    requires c1 == RowWritten(data, c, y * s, e, |row|) && c1.pos == y * s + e && |c1.buf| == |data|
    requires c1.idx + 2 <= |enc| && enc[c1.idx] == 0 && enc[c1.idx + 1] == 0
    requires c2 == Cursor(c1.buf, y * s + s, c1.idx + 2)
    ensures Run(enc, c, s, |data|) == Run(enc, c2, s, |data|)
  {
    RowDecodes(data, y * s, 0, width, s, [], row, enc, c, s, e, c1);
    EndOfLineToNextRow(enc, c1, s, y, e, height, c2);
  }

  lemma NextImageState(data: seq<byte>, y: nat, width: int, height: int, s: int, rest: seq<byte>, enc: seq<byte>, c2: Cursor)
    requires 1 <= width <= 255 && width <= s && y + 1 < height && |data| == s * height == |c2.buf|
    requires EncodeRows(data, y + 1, width, height, s) == Some(rest)
    requires c2.idx + |rest| <= |enc| && enc[c2.idx .. c2.idx + |rest|] == rest
    requires c2.pos == y * s + s && RestoredUpTo(c2.buf, data, width, s, y * s + s)
    ensures ImageState(data, y + 1, width, height, s, rest, enc, c2)
  {
    RowOffsets(y, s, height);
  }

  lemma RowsDecodeLast(data: seq<byte>, y: nat, width: int, height: int, s: int,
                       out: seq<byte>, enc: seq<byte>, c: Cursor)
    requires ImageState(data, y, width, height, s, out, enc, c) && y == height - 1
    ensures var o := Run(enc, c, s, |data|);
      o.Finished? && RestoredUpTo(o.buf, data, width, s, |data|)
  {
    var c1 := LastStage(data, y, width, height, s, out, enc, c);
    if c1.pos < |c1.buf| {
      EndOfBitmapStops(enc, [], c1, s, |data|);
    }
  }

  /** The last row, followed by the end-of-bitmap marker. */
  lemma LastStage(data: seq<byte>, y: nat, width: int, height: int, s: int,
                  out: seq<byte>, enc: seq<byte>, c: Cursor)
    returns (c1: Cursor)
    requires ImageState(data, y, width, height, s, out, enc, c) && y == height - 1
    ensures Run(enc, c, s, |data|) == Run(enc, c1, s, |data|)
    ensures RestoredUpTo(c1.buf, data, width, s, |data|) && |c1.buf| == |data|
    ensures c1.idx + 1 < |enc| && enc[c1.idx] == 0 && enc[c1.idx + 1] == 1
  {
    var row, j := LastLayout(data, y, width, height, s, out, enc, c.idx);
    var e;
    e, c1 := RowStage(data, y, width, height, s, out, enc, c, row);
    RowOffsets(y, s, height);
    RowDecodes(data, y * s, 0, width, s, [], row, enc, c, s, e, c1);
  }

  /**
   * Round trip of the RLE8 codec: the encoding of a full image of width
   * 1..255 (see `WideRowLost` for why not wider) decodes, into a zeroed buffer bounded by its size, to an image
   * whose every pixel is the original and whose padding bytes are the
   * original or zero.
   */
  lemma RoundTrip(data: seq<byte>, width: int, height: int)
    requires 1 <= width <= 255 && 1 <= height && |data| == Pixels.Stride(width) * height <= INT32_MAX
    ensures Encode(data, width, height).Some?
    ensures var s := Pixels.Stride(width);
      var o := Decode(Encode(data, width, height).value, Zeros(|data|), s, |data|);
      o.Finished? && |o.buf| == |data| &&
      forall k :: 0 <= k < |data| ==>
        (k % s < width ==> o.buf[k] == data[k]) && (o.buf[k] == data[k] || o.buf[k] == 0)
  {
    var s := Pixels.Stride(width);
    Pixels.StrideBounds(width);
    EncodeSucceeds(data, width, height);
    var enc := Encode(data, width, height).value;
    assert enc[0..|enc|] == enc;
    RowsDecode(data, 0, width, height, s, enc, enc, Cursor(Zeros(|data|), 0, 0));
  }

  /**
   * When every padding byte is zero the round trip is exact.  Padding read
   * uncompressed, or inverted in place, need not be zero; a save and reload
   * of a BI_RLE8 file keeps the padding bytes a run reaches and zeroes the
   * others.
   */
  lemma RoundTripExact(data: seq<byte>, width: int, height: int)
    requires 1 <= width <= 255 && 1 <= height && |data| == Pixels.Stride(width) * height <= INT32_MAX
    requires forall k :: 0 <= k < |data| && k % Pixels.Stride(width) >= width ==> data[k] == 0
    ensures Encode(data, width, height).Some?
    ensures Decode(Encode(data, width, height).value, Zeros(|data|), Pixels.Stride(width), |data|) == Finished(data)
  {
    RoundTrip(data, width, height);
    var o := Decode(Encode(data, width, height).value, Zeros(|data|), Pixels.Stride(width), |data|);
    assert o.buf == data;
  }
  // ------------------------------------------------ rows wider than 255

  /** The row `0, 1, ..., 255`: no byte equals its neighbour, so every byte is a literal. */
  function Ramp(): (r: seq<byte>)
    ensures |r| == 256 && forall k :: 0 <= k < 256 ==> r[k] == k
  {
    seq(256, k requires 0 <= k < 256 => k)
  }

  /** From column `x` on, the ramp's row only gathers literals, so it flushes all 256 of them at once. */
  lemma {:induction false} RampLiterals(x: nat)
    requires x <= 256
    ensures EncodeRow(Ramp(), 0, x, 256, 256, Ramp()[..x]) == Some(Flush(Ramp()))
    decreases 256 - x
  {
    var data := Ramp();
    if x < 256 {
      assert RunLength(data, 0, x, 256, data[x], 1) == Some(1);
      assert data[..x] + [data[x]] == data[..x + 1];
      RampLiterals(x + 1);
    } else {
      assert data[..x] == data;
    }
  }

  /** The ramp image of width 256 and height 1 encodes to one absolute packet whose count byte wrapped to 0. */
  lemma RampEncodes()
    ensures Pixels.Stride(256) == 256
    ensures Encode(Ramp(), 256, 1) == Some([0, 0] + Ramp() + [0, 1])
  {
    assert Wrap32(256 + 3) == 259;
    assert TruncDiv(259, 4) == 64;
    RampLiterals(0);
    assert Ramp()[..0] == [];
    assert Flush(Ramp()) == [0, 0] + Ramp();
    assert EncodeRows(Ramp(), 1, 256, 1, 256) == Some([0, 1]);
  }

  /**
   * A row of 256 literals is lost: its absolute packet's count byte wraps to
   * 0, so the decoder reads `0, 0` as an end of line (already at a row
   * start, it does not move) and the first two pixels `0, 1` as the end of
   * the bitmap.  The ramp image of width 256 and height 1 decodes to zeros.
   */
  lemma WideRowLost()
    ensures Pixels.Stride(256) == 256
    ensures Encode(Ramp(), 256, 1) == Some([0, 0] + Ramp() + [0, 1])
    ensures Decode([0, 0] + Ramp() + [0, 1], Zeros(256), 256, 256) == Finished(Zeros(256))
    ensures Zeros(256) != Ramp()
  {
    RampEncodes();
    var enc := [0, 0] + Ramp() + [0, 1];
    var z := Zeros(256);
    assert enc[0] == 0 && enc[1] == 0 && enc[2] == 0 && enc[3] == 1;
    assert TruncRem(0, 256) == 0;
    assert Step(enc, Cursor(z, 0, 0), 256, 256) == Go(Cursor(z, 0, 2));
    assert Step(enc, Cursor(z, 0, 2), 256, 256) == Halt(z);
    assert Run(enc, Cursor(z, 0, 2), 256, 256) == Finished(z);
    assert z[1] != Ramp()[1];
  }
}
