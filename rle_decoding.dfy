/**
 * BI_RLE8 decoder of the editor: a state machine over two cursors, the write
 * position in the pixel buffer and the read position in the stream.  Writes
 * are guarded by `bound` (the stride times the height) and fault outside the
 * array; a read past the end of the stream inside a packet faults; a stream
 * that ends at a packet boundary simply ends decoding.
 */
module RleDecoding {
  import opened Bytes
  import Pixels

  /** Pixel buffer, write position (`currentPos`) and read position (`rleIndex`). */
  datatype Cursor = Cursor(buf: seq<byte>, pos: int, idx: nat)

  /** Result of part of a packet: carry on, end of bitmap, or an exception with the buffer as written so far. */
  datatype Progress = Go(c: Cursor) | Halt(buf: seq<byte>) | Crash(buf: seq<byte>)
  {
    /** The pixel buffer however the packet ended. */
    function Buffer(): seq<byte>
    {
      if Go? then c.buf else buf
    }
  }

  /** Result of a whole decode: it finished, or it threw, leaving the buffer as written so far. */
  datatype Outcome = Finished(buf: seq<byte>) | Faulted(buf: seq<byte>)

  /** The `n` writes of an encoded packet: each one only while `pos < bound`. */
  function Repeat(c: Cursor, n: nat, v: byte, bound: int): (p: Progress)
    ensures p.Go? ==> p.c.idx == c.idx && |p.c.buf| == |c.buf|
    ensures p.Crash? ==> |p.buf| == |c.buf|
    ensures !p.Halt?
    decreases n
  {
    if n == 0 then Go(c)
    else if c.pos < bound then
      if 0 <= c.pos < |c.buf| then Repeat(Cursor(c.buf[c.pos := v], c.pos + 1, c.idx), n - 1, v, bound)
      else Crash(c.buf)
    else Repeat(c, n - 1, v, bound)
  }

  /**
   * Iterations `i ..< total` of an absolute packet of `count` literals, where
   * `total` is `count` plus one pad iteration when `count` is odd.  While
   * `pos < bound` every iteration reads a byte; the pad byte is not written.
   */
  function Literals(enc: seq<byte>, c: Cursor, i: nat, total: nat, count: nat, bound: int): (p: Progress)
    ensures p.Go? ==> p.c.idx >= c.idx && |p.c.buf| == |c.buf|
    ensures p.Crash? ==> |p.buf| == |c.buf|
    ensures !p.Halt?
    decreases total - i
  {
    if i >= total then Go(c)
    else if c.pos < bound then
      if c.idx >= |enc| then Crash(c.buf)
      else
        var value := enc[c.idx];
        if i == count then Literals(enc, Cursor(c.buf, c.pos, c.idx + 1), i + 1, total, count, bound)
        else if 0 <= c.pos < |c.buf| then
          Literals(enc, Cursor(c.buf[c.pos := value], c.pos + 1, c.idx + 1), i + 1, total, count, bound)
        else Crash(c.buf)
    else Literals(enc, c, i + 1, total, count, bound)
  }

  /** Number of iterations of the absolute-mode loop: one more than `count` when it is odd. */
  function AbsoluteIterations(count: nat): nat
  {
    if count % 2 != 0 then count + 1 else count
  }

  /** One packet, starting at a count byte. */
  function Step(enc: seq<byte>, c: Cursor, stride: int, bound: int): (p: Progress)
    requires c.idx < |enc|
    ensures p.Go? ==> p.c.idx > c.idx && |p.c.buf| == |c.buf|
    ensures !p.Go? ==> |p.buf| == |c.buf|
  {
    var count := enc[c.idx];
    if count == 0 then
      if c.idx + 1 >= |enc| then Crash(c.buf)
      else
        var code := enc[c.idx + 1];
        var after := Cursor(c.buf, c.pos, c.idx + 2);
        if code == 0 then
          // end of line: on to the next multiple of the stride, unless already there
          if stride == 0 then Crash(c.buf)
          else
            var remaining := stride - TruncRem(c.pos, stride);
            Go(if remaining != stride then after.(pos := Wrap32(c.pos + remaining)) else after)
        else if code == 1 then Halt(c.buf)
        else if code == 2 then
          // delta: move by dx + dy * stride without writing
          if c.idx + 3 >= |enc| then Crash(c.buf)
          else Go(Cursor(c.buf, Wrap32(c.pos + enc[c.idx + 2] + enc[c.idx + 3] * stride), c.idx + 4))
        else Literals(enc, after, 0, AbsoluteIterations(code), code, bound)
    else if c.idx + 1 >= |enc| then Crash(c.buf)
    else Repeat(Cursor(c.buf, c.pos, c.idx + 2), count, enc[c.idx + 1], bound)
  }

  /** The decoding loop: runs while `pos < |buf|` and unread bytes remain. */
  function Run(enc: seq<byte>, c: Cursor, stride: int, bound: int): (o: Outcome)
    ensures |o.buf| == |c.buf|
    decreases |enc| - c.idx
  {
    if c.pos < |c.buf| && c.idx < |enc| then
      match Step(enc, c, stride, bound)
      case Go(c') => Run(enc, c', stride, bound)
      case Halt(b) => Finished(b)
      case Crash(b) => Faulted(b)
    else Finished(c.buf)
  }

  /** Decoding `enc` over `buf` from offset 0. */
  function Decode(enc: seq<byte>, buf: seq<byte>, stride: int, bound: int): (o: Outcome)
    ensures |o.buf| == |buf|
  {
    Run(enc, Cursor(buf, 0, 0), stride, bound)
  }

  /** How a packet decoded in place ended: decoding continues, stops at end of bitmap, or threw. */
  datatype Signal = Continue | Stop | Fault

  /** The writes of an encoded packet, in place, proved to compute `Repeat`. */
  method RepeatInPlace(pixels: array<byte>, pos: int, idx: nat, n: nat, v: byte, bound: int)
    returns (sig: Signal, pos': int)
    modifies pixels
    ensures var p := Repeat(Cursor(old(pixels[..]), pos, idx), n, v, bound);
      pixels[..] == p.Buffer() && (sig == Continue <==> p.Go?) && (sig == Fault <==> p.Crash?) &&
      (p.Go? ==> pos' == p.c.pos)
  {
    ghost var goal := Repeat(Cursor(pixels[..], pos, idx), n, v, bound);
    pos' := pos;
    var i := 0;
    while i < n
      invariant i <= n
      invariant Repeat(Cursor(pixels[..], pos', idx), n - i, v, bound) == goal
    {
      if pos' < bound {
        if pos' < 0 || pos' >= pixels.Length {
          return Fault, pos';
        }
        pixels[pos'] := v;
        pos' := pos' + 1;
      }
      i := i + 1;
    }
    sig := Continue;
  }

  /** The reads and writes of an absolute packet, in place, proved to compute `Literals`. */
  method LiteralsInPlace(enc: seq<byte>, pixels: array<byte>, pos: int, idx: nat, count: nat, bound: int)
    returns (sig: Signal, pos': int, idx': nat)
    modifies pixels
    ensures var p := Literals(enc, Cursor(old(pixels[..]), pos, idx), 0, AbsoluteIterations(count), count, bound);
      pixels[..] == p.Buffer() && (sig == Continue <==> p.Go?) && (sig == Fault <==> p.Crash?) &&
      (p.Go? ==> pos' == p.c.pos && idx' == p.c.idx)
  {
    var total := AbsoluteIterations(count);
    ghost var goal := Literals(enc, Cursor(pixels[..], pos, idx), 0, total, count, bound);
    pos', idx' := pos, idx;
    var i := 0;
    while i < total
      invariant i <= total
      invariant Literals(enc, Cursor(pixels[..], pos', idx'), i, total, count, bound) == goal
    {
      if pos' < bound {
        if idx' >= |enc| {
          return Fault, pos', idx';
        }
        var value := enc[idx'];
        idx' := idx' + 1;
        if i != count {
          if pos' < 0 || pos' >= pixels.Length {
            return Fault, pos', idx';
          }
          pixels[pos'] := value;
          pos' := pos' + 1;
        }
      }
      i := i + 1;
    }
    sig := Continue;
  }

  /** One packet decoded in place, proved to compute `Step`. */
  method StepInPlace(enc: seq<byte>, pixels: array<byte>, pos: int, idx: nat, stride: int, bound: int)
    returns (sig: Signal, pos': int, idx': nat)
    requires idx < |enc|
    modifies pixels
    ensures var p := Step(enc, Cursor(old(pixels[..]), pos, idx), stride, bound);
      pixels[..] == p.Buffer() && (sig == Continue <==> p.Go?) && (sig == Stop <==> p.Halt?) &&
      (p.Go? ==> pos' == p.c.pos && idx' == p.c.idx)
  {
    pos', idx' := pos, idx;
    var count := enc[idx'];
    idx' := idx' + 1;
    if count == 0 {
      if idx' >= |enc| {
        return Fault, pos', idx';
      }
      var code := enc[idx'];
      idx' := idx' + 1;
      if code == 0 {
        if stride == 0 {
          return Fault, pos', idx';
        }
        var remaining := stride - TruncRem(pos', stride);
        if remaining != stride {
          pos' := Wrap32(pos' + remaining);
        }
        sig := Continue;
      } else if code == 1 {
        sig := Stop;
      } else if code == 2 {
        if idx' + 1 >= |enc| {
          return Fault, pos', idx';
        }
        var dx, dy := enc[idx'], enc[idx' + 1];
        idx' := idx' + 2;
        pos' := Wrap32(pos' + dx + dy * stride);
        sig := Continue;
      } else {
        sig, pos', idx' := LiteralsInPlace(enc, pixels, pos', idx', code, bound);
      }
    } else {
      if idx' >= |enc| {
        return Fault, pos', idx';
      }
      var value := enc[idx'];
      idx' := idx' + 1;
      sig, pos' := RepeatInPlace(pixels, pos', idx', count, value, bound);
    }
  }

  /** The decoder writing into `pixels` in place, proved to compute `Decode`. */
  method Decoder(enc: seq<byte>, pixels: array<byte>, stride: int, bound: int) returns (ok: bool)
    modifies pixels
    ensures var o := Decode(enc, old(pixels[..]), stride, bound);
      ok == o.Finished? && pixels[..] == o.buf
  {
    ghost var result := Decode(enc, pixels[..], stride, bound);
    var pos := 0;
    var idx := 0;
    while pos < pixels.Length && idx < |enc|
      invariant Run(enc, Cursor(pixels[..], pos, idx), stride, bound) == result
      decreases |enc| - idx
    {
      var sig;
      sig, pos, idx := StepInPlace(enc, pixels, pos, idx, stride, bound);
      if sig != Continue {
        return sig == Stop;
      }
    }
    return true;
  }

  // ------------------------------------------------------------ properties

  /** `b` is `a` with nothing changed at or beyond offset `bound`. */
  ghost predicate KeepsFrom(a: seq<byte>, b: seq<byte>, bound: int)
  {
    |a| == |b| && forall k :: 0 <= k < |a| && bound <= k ==> b[k] == a[k]
  }

  lemma {:induction false} RepeatKeeps(c: Cursor, n: nat, v: byte, bound: int)
    ensures KeepsFrom(c.buf, Repeat(c, n, v, bound).Buffer(), bound)
    decreases n
  {
    if n > 0 {
      if c.pos < bound {
        if 0 <= c.pos < |c.buf| {
          RepeatKeeps(Cursor(c.buf[c.pos := v], c.pos + 1, c.idx), n - 1, v, bound);
        }
      } else {
        RepeatKeeps(c, n - 1, v, bound);
      }
    }
  }

  lemma {:induction false} LiteralsKeeps(enc: seq<byte>, c: Cursor, i: nat, total: nat, count: nat, bound: int)
    ensures KeepsFrom(c.buf, Literals(enc, c, i, total, count, bound).Buffer(), bound)
    decreases total - i
  {
    if i < total {
      if c.pos < bound {
        if c.idx < |enc| {
          if i == count {
            LiteralsKeeps(enc, Cursor(c.buf, c.pos, c.idx + 1), i + 1, total, count, bound);
          } else if 0 <= c.pos < |c.buf| {
            LiteralsKeeps(enc, Cursor(c.buf[c.pos := enc[c.idx]], c.pos + 1, c.idx + 1), i + 1, total, count, bound);
          }
        }
      } else {
        LiteralsKeeps(enc, c, i + 1, total, count, bound);
      }
    }
  }

  lemma StepKeeps(enc: seq<byte>, c: Cursor, stride: int, bound: int)
    requires c.idx < |enc|
    ensures KeepsFrom(c.buf, Step(enc, c, stride, bound).Buffer(), bound)
  {
    if enc[c.idx] == 0 {
      if c.idx + 1 < |enc| && enc[c.idx + 1] >= 3 {
        var code := enc[c.idx + 1];
        LiteralsKeeps(enc, Cursor(c.buf, c.pos, c.idx + 2), 0, AbsoluteIterations(code), code, bound);
      }
    } else if c.idx + 1 < |enc| {
      RepeatKeeps(Cursor(c.buf, c.pos, c.idx + 2), enc[c.idx], enc[c.idx + 1], bound);
    }
  }

  lemma {:induction false} RunKeeps(enc: seq<byte>, c: Cursor, stride: int, bound: int)
    ensures KeepsFrom(c.buf, Run(enc, c, stride, bound).buf, bound)
    decreases |enc| - c.idx
  {
    if c.pos < |c.buf| && c.idx < |enc| {
      StepKeeps(enc, c, stride, bound);
      var p := Step(enc, c, stride, bound);
      if p.Go? {
        RunKeeps(enc, p.c, stride, bound);
      }
    }
  }

  /** No write ever lands at or beyond `bound`, whether decoding finishes or faults. */
  lemma DecodeKeepsBeyondBound(enc: seq<byte>, buf: seq<byte>, stride: int, bound: int)
    ensures var o := Decode(enc, buf, stride, bound);
      |o.buf| == |buf| && forall k :: 0 <= k < |buf| && bound <= k ==> o.buf[k] == buf[k]
  {
    RunKeeps(enc, Cursor(buf, 0, 0), stride, bound);
  }

  /**
   * `0, 0` moves to the next multiple of the stride, or stays when already on
   * one; the move is unchecked `int` arithmetic, exact when the target fits.
   */
  lemma EndOfLineAligns(enc: seq<byte>, c: Cursor, stride: int, bound: int)
    requires c.idx + 1 < |enc| && enc[c.idx] == 0 && enc[c.idx + 1] == 0
    requires stride > 0 && c.pos >= 0
    ensures var p := Step(enc, c, stride, bound);
      var next := if c.pos % stride == 0 then c.pos else c.pos + stride - c.pos % stride;
      p.Go? && p.c.buf == c.buf && p.c.idx == c.idx + 2 &&
      next % stride == 0 && c.pos <= next < c.pos + stride &&
      p.c.pos == (if next == c.pos then c.pos else Wrap32(next)) &&
      (next <= INT32_MAX ==> p.c.pos == next)
  {
    var q, m := c.pos / stride, c.pos % stride;
    assert c.pos == stride * q + m;
    if m != 0 {
      assert c.pos + (stride - m) == (q + 1) * stride;
      Pixels.DivModOfIndex(0, q + 1, stride);
    }
  }

  /** `0, 1` ends decoding at once: whatever follows it is never read. */
  lemma EndOfBitmapStops(enc: seq<byte>, rest: seq<byte>, c: Cursor, stride: int, bound: int)
    requires c.pos < |c.buf| && c.idx + 1 < |enc| && enc[c.idx] == 0 && enc[c.idx + 1] == 1
    ensures Run(enc[..c.idx + 2] + rest, c, stride, bound) == Finished(c.buf)
    ensures Run(enc, c, stride, bound) == Finished(c.buf)
  {
    var e := enc[..c.idx + 2] + rest;
    assert e[c.idx] == 0 && e[c.idx + 1] == 1;
  }

  /** A stream that ends in the middle of a packet's header makes the decoder fault. */
  lemma TruncatedPacketFaults(enc: seq<byte>, c: Cursor, stride: int, bound: int)
    requires c.pos < |c.buf| && c.idx + 1 == |enc|
    ensures Run(enc, c, stride, bound).Faulted?
  {
  }

  /**
   * A delta packet `0, 2, dx, dy` writes nothing, consumes four bytes and
   * moves the write position by `dx + dy * stride`, each step in C# `int`
   * arithmetic; exactly so when no step leaves the 32-bit range.
   */
  lemma DeltaMoves(enc: seq<byte>, c: Cursor, stride: int, bound: int)
    requires c.idx + 3 < |enc| && enc[c.idx] == 0 && enc[c.idx + 1] == 2
    ensures var (dx, dy) := (enc[c.idx + 2], enc[c.idx + 3]);
      Step(enc, c, stride, bound) == Go(Cursor(c.buf, Wrap32(c.pos + Wrap32(dx + Wrap32(dy * stride))), c.idx + 4))
    ensures var move := enc[c.idx + 2] + enc[c.idx + 3] * stride;
      -0x8000_0000 <= c.pos + move <= INT32_MAX ==> Step(enc, c, stride, bound) == Go(Cursor(c.buf, c.pos + move, c.idx + 4))
  {
    var dx, dy := enc[c.idx + 2], enc[c.idx + 3];
    assert Step(enc, c, stride, bound) == Go(Cursor(c.buf, Wrap32(c.pos + dx + dy * stride), c.idx + 4));
    WrapChain(c.pos, dx, dy * stride);
  }

  /** The three unchecked additions of a delta give the wrapped exact sum. */
  lemma WrapChain(p: int, a: int, b: int)
    ensures Wrap32(p + Wrap32(a + Wrap32(b))) == Wrap32(p + a + b)
  {
    Wrap32Absorbs(a, b);
    Wrap32Absorbs(p, a + b);
    Wrap32Absorbs(p, a + Wrap32(b));
  }

  /** The stream `0, 2, 3, 1, 0, 1` over an 8-byte buffer of stride 4 moves the cursor and writes nothing. */
  lemma DeltaExample()
    ensures Decode([0, 2, 3, 1, 0, 1], Zeros(8), 4, 8) == Finished(Zeros(8))
  {
    var z := Zeros(8);
    var c := Cursor(z, 0, 0);
    assert Step([0, 2, 3, 1, 0, 1], c, 4, 8) == Go(Cursor(z, 7, 4));
    assert Step([0, 2, 3, 1, 0, 1], Cursor(z, 7, 4), 4, 8) == Halt(z);
  }

  // ------------------------------------------------- writes of whole packets

  /** `n` copies of `v`. */
  function Constant(n: nat, v: byte): (r: seq<byte>)
    ensures |r| == n && forall k :: 0 <= k < n ==> r[k] == v
  {
    seq(n, _ => v)
  }

  lemma OverwriteFirst(buf: seq<byte>, pos: nat, b: seq<byte>)
    requires b != [] && pos + |b| <= |buf|
    ensures Overwrite(buf[pos := b[0]], pos + 1, b[1..]) == Overwrite(buf, pos, b)
  {
    var l, r := Overwrite(buf[pos := b[0]], pos + 1, b[1..]), Overwrite(buf, pos, b);
    forall k | 0 <= k < |buf| ensures l[k] == r[k] {
      if pos < k < pos + |b| {
        assert l[k] == b[1..][k - pos - 1];
      }
    }
  }

  /** An encoded packet that stays below `bound` writes its `n` copies and moves on by `n`. */
  lemma {:induction false} RepeatWrites(c: Cursor, n: nat, v: byte, bound: int)
    requires 0 <= c.pos && c.pos + n <= bound <= |c.buf|
    ensures Repeat(c, n, v, bound) == Go(Cursor(Overwrite(c.buf, c.pos, Constant(n, v)), c.pos + n, c.idx))
    decreases n
  {
    if n == 0 {
      assert Overwrite(c.buf, c.pos, []) == c.buf;
    } else {
      RepeatWrites(Cursor(c.buf[c.pos := v], c.pos + 1, c.idx), n - 1, v, bound);
      assert Constant(n, v)[1..] == Constant(n - 1, v);
      OverwriteFirst(c.buf, c.pos, Constant(n, v));
    }
  }

  /**
   * The literals of an absolute packet that stays below `bound` are written in
   * order; the pad iteration reads one byte, writes nothing and leaves the
   * write position alone, and is skipped only when `pos` has reached `bound`.
   */
  lemma {:induction false} LiteralsWrite(enc: seq<byte>, c: Cursor, i: nat, total: nat, count: nat, bound: int)
    requires i <= count <= total <= count + 1
    requires 0 <= c.pos && c.pos + (count - i) <= bound <= |c.buf|
    requires c.idx + (count - i) <= |enc|
    requires total == count + 1 && c.pos + (count - i) < bound ==> c.idx + (count - i) < |enc|
    ensures var p := Literals(enc, c, i, total, count, bound);
      p.Go? && p.c.buf == Overwrite(c.buf, c.pos, enc[c.idx .. c.idx + (count - i)]) &&
      p.c.pos == c.pos + (count - i) &&
      (total == count || c.pos + (count - i) < bound ==> p.c.idx == c.idx + (total - i))
    decreases total - i, 1
  {
    if i < count {
      LiteralsWriteNext(enc, c, i, total, count, bound);
    } else {
      LiteralsPad(enc, c, i, total, count, bound);
    }
  }

  /** The remaining literals of an absolute packet: write one, then the rest. */
  lemma {:induction false} LiteralsWriteNext(enc: seq<byte>, c: Cursor, i: nat, total: nat, count: nat, bound: int)
    requires i < count <= total <= count + 1
    requires 0 <= c.pos && c.pos + (count - i) <= bound <= |c.buf|
    requires c.idx + (count - i) <= |enc|
    requires total == count + 1 && c.pos + (count - i) < bound ==> c.idx + (count - i) < |enc|
    ensures var p := Literals(enc, c, i, total, count, bound);
      p.Go? && p.c.buf == Overwrite(c.buf, c.pos, enc[c.idx .. c.idx + (count - i)]) &&
      p.c.pos == c.pos + (count - i) &&
      (total == count || c.pos + (count - i) < bound ==> p.c.idx == c.idx + (total - i))
    decreases total - i, 0
  {
    var lits := enc[c.idx .. c.idx + (count - i)];
    var c' := Cursor(c.buf[c.pos := lits[0]], c.pos + 1, c.idx + 1);
    var p := Literals(enc, c', i + 1, total, count, bound);
    assert Literals(enc, c, i, total, count, bound) == p;
    LiteralsWrite(enc, c', i + 1, total, count, bound);
    assert lits[1..] == enc[c'.idx .. c'.idx + (count - (i + 1))];
    OverwriteFirst(c.buf, c.pos, lits);
    assert p.c.buf == Overwrite(c.buf, c.pos, lits);
  }

  /** The pad iteration of an odd absolute packet, if any. */
  lemma LiteralsPad(enc: seq<byte>, c: Cursor, i: nat, total: nat, count: nat, bound: int)
    requires i == count <= total <= count + 1
    requires 0 <= c.pos <= bound <= |c.buf| && c.idx <= |enc|
    requires total == count + 1 && c.pos < bound ==> c.idx < |enc|
    ensures var p := Literals(enc, c, i, total, count, bound);
      p.Go? && p.c.buf == Overwrite(c.buf, c.pos, enc[c.idx .. c.idx]) &&
      p.c.pos == c.pos &&
      (total == count || c.pos < bound ==> p.c.idx == c.idx + (total - i))
  {
    assert enc[c.idx .. c.idx] == [];
    assert Overwrite(c.buf, c.pos, []) == c.buf;
  }

  /** An odd absolute packet consumes its pad byte without writing it or moving the write position. */
  lemma AbsolutePacket(enc: seq<byte>, c: Cursor, stride: int, bound: int)
    requires c.idx + 1 < |enc| && enc[c.idx] == 0 && enc[c.idx + 1] >= 3
    requires c.idx + 2 + AbsoluteIterations(enc[c.idx + 1]) <= |enc|
    requires 0 <= c.pos && c.pos + enc[c.idx + 1] < bound <= |c.buf|
    ensures var n := enc[c.idx + 1];
      Step(enc, c, stride, bound) ==
        Go(Cursor(Overwrite(c.buf, c.pos, enc[c.idx + 2 .. c.idx + 2 + n]), c.pos + n, c.idx + 2 + AbsoluteIterations(n)))
  {
    var n := enc[c.idx + 1];
    LiteralsWrite(enc, Cursor(c.buf, c.pos, c.idx + 2), 0, AbsoluteIterations(n), n, bound);
  }
}
