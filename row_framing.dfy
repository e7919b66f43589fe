/**
 * Scanline framing of the payload (PngEncoder.java:260-276 and 451-461, the
 * same code at PngEncoderStream2.java:286-302 and 560-570).  The encoder cuts
 * the payload into rows of `rowLen` bytes, puts filter type 0 ("None",
 * section 9.2 of the W3C PNG Specification) before each, and pads the last
 * row with zeros.  The decoder walks the inflated rows again, skipping the
 * filter byte of each and copying at most `rowLen` bytes until it has
 * `payloadLength` of them.
 */
module RowFraming {
  import opened ByteOrder
  import opened Results
  import opened Geometry

  /** Filter type 0, "None": the row's bytes stand unchanged. */
  const FilterNone: Byte := 0

  function Min(a: int, b: int): int
  {
    if a <= b then a else b
  }

  /** Payload byte `k`, or the zero padding past the payload's end. */
  function PayloadAt(p: Bytes, k: nat): Byte
  {
    if k < |p| then p[k] else 0
  }

  /** One scanline: the filter byte, then the next `rowLen` payload bytes, zero-padded. */
  function Scanline(p: Bytes, rowLen: nat): (r: Bytes)
    ensures |r| == rowLen + 1
  {
    var n := Min(rowLen, |p|);
    [FilterNone] + p[..n] + Zeros(rowLen - n)
  }

  /** The payload left after one scanline. */
  function Remaining(p: Bytes, rowLen: nat): Bytes
  {
    p[Min(rowLen, |p|)..]
  }

  /**
   * The filtered image data of payload `p`: `rows` scanlines, each the
   * filter byte followed by the next `rowLen` payload bytes, zero-padded.
   */
  function Frame(p: Bytes, rowLen: nat, rows: nat): Bytes
    decreases rows
  {
    if rows == 0 then [] else Scanline(p, rowLen) + Frame(Remaining(p, rowLen), rowLen, rows - 1)
  }

  /** The filtered data holds `rows` scanlines of `rowLen + 1` bytes each. */
  lemma {:induction false} FrameLength(p: Bytes, rowLen: nat, rows: nat)
    ensures |Frame(p, rowLen, rows)| == rows * (rowLen + 1)
    decreases rows
  {
    if rows > 0 {
      FrameLength(Remaining(p, rowLen), rowLen, rows - 1);
      assert rows * (rowLen + 1) == (rows - 1) * (rowLen + 1) + rowLen + 1;
    }
  }

  /**
   * Byte by byte: scanline `i` starts with filter type None, and its byte
   * `j` is payload byte `i * rowLen + j`, or zero past the payload's end.
   */
  lemma {:induction false} FrameAt(p: Bytes, rowLen: nat, rows: nat, i: nat, j: nat)
    requires i < rows && j < rowLen
    ensures i * (rowLen + 1) + rowLen < |Frame(p, rowLen, rows)|
    ensures Frame(p, rowLen, rows)[i * (rowLen + 1)] == FilterNone
    ensures Frame(p, rowLen, rows)[i * (rowLen + 1) + 1 + j] == PayloadAt(p, i * rowLen + j)
  {
    FrameAtOffset(p, rowLen, rows, i, j);
    TimesIsProduct(i, rowLen + 1);
    TimesIsProduct(i, rowLen);
  }

  /** `i` times `w`, counted up by additions. */
  function Times(i: nat, w: nat): nat
  {
    if i == 0 then 0 else Times(i - 1, w) + w
  }

  lemma TimesStep(i: nat, w: nat)
    requires i > 0
    ensures Times(i, w + 1) == w + 1 + Times(i - 1, w + 1) && Times(i, w) == w + Times(i - 1, w)
  {
  }

  lemma {:induction false} TimesIsProduct(i: nat, w: nat)
    ensures Times(i, w) == i * w
  {
    if i > 0 {
      TimesIsProduct(i - 1, w);
      assert i * w == (i - 1) * w + w;
    }
  }

  /**
   * In the filtered data `f` of payload `p`, scanline `i` starts with filter
   * type None and holds payload byte `j` of its row (offsets counted in additions).
   */
  ghost predicate RowByteAt(f: Bytes, p: Bytes, rowLen: nat, i: nat, j: nat)
  {
    j < rowLen && Times(i, rowLen + 1) + rowLen < |f|
    && f[Times(i, rowLen + 1)] == FilterNone
    && f[Times(i, rowLen + 1) + 1 + j] == PayloadAt(p, Times(i, rowLen) + j)
  }

  lemma {:induction false} FrameAtOffset(p: Bytes, rowLen: nat, rows: nat, i: nat, j: nat)
    requires i < rows && j < rowLen
    ensures RowByteAt(Frame(p, rowLen, rows), p, rowLen, i, j)
    decreases i
  {
    FrameSplit(p, rowLen, rows);
    if i == 0 {
      FrameHead(p, rowLen, j, Frame(Remaining(p, rowLen), rowLen, rows - 1));
    } else {
      FrameAtOffset(Remaining(p, rowLen), rowLen, rows - 1, i - 1, j);
      FrameAtNext(Scanline(p, rowLen), Frame(Remaining(p, rowLen), rowLen, rows - 1), p, rowLen, i, j);
    }
  }

  lemma FrameSplit(p: Bytes, rowLen: nat, rows: nat)
    requires 0 < rows
    ensures Frame(p, rowLen, rows) == Scanline(p, rowLen) + Frame(Remaining(p, rowLen), rowLen, rows - 1)
  {
  }

  /** Scanline `i` after a first scanline `head` is scanline `i - 1` of the rest `g`. */
  lemma FrameAtNext(head: Bytes, g: Bytes, p: Bytes, rowLen: nat, i: nat, j: nat)
    requires 0 < i && j < rowLen && |head| == rowLen + 1
    requires RowByteAt(g, Remaining(p, rowLen), rowLen, i - 1, j)
    ensures RowByteAt(head + g, p, rowLen, i, j)
  {
    var a, b := Times(i - 1, rowLen + 1), Times(i - 1, rowLen);
    TimesStep(i, rowLen);
    ShiftedAt(head, g, a);
    ShiftedAt(head, g, a + 1 + j);
    RemainingAt(p, rowLen, b + j, rowLen + b + j);
  }

  /** The first scanline: the filter byte, then the first payload bytes. */
  lemma FrameHead(p: Bytes, rowLen: nat, j: nat, g: Bytes)
    requires j < rowLen
    ensures RowByteAt(Scanline(p, rowLen) + g, p, rowLen, 0, j)
  {
    ScanlineAt(p, rowLen, j);
  }

  lemma ScanlineAt(p: Bytes, rowLen: nat, j: nat)
    requires j < rowLen
    ensures Scanline(p, rowLen)[0] == FilterNone && Scanline(p, rowLen)[1 + j] == PayloadAt(p, j)
  {
  }

  lemma ShiftedAt(head: Bytes, g: Bytes, k: nat)
    requires k < |g|
    ensures (head + g)[|head| + k] == g[k]
  {
  }

  lemma RemainingAt(p: Bytes, rowLen: nat, k: nat, m: nat)
    requires m == rowLen + k
    ensures PayloadAt(Remaining(p, rowLen), k) == PayloadAt(p, m)
  {
  }

  /**
   * What the row loop hands to the deflater, given the payload stream's
   * content `src`: for each of `rows` rows, the filter byte and the next
   * `rowLen` bytes of the stream, then padding for the last row.  A row read
   * that finds the stream at its end fails.  With no rows at all the loop
   * leaves the count of bytes read at -1, so `rowLen + 1` zero bytes follow.
   */
  function RowStream(src: Bytes, rowLen: nat, rows: int): (r: Result<Bytes>)
  {
    if rows <= 0 then Success(Zeros(rowLen + 1))
    else if |src| <= rowLen * (rows - 1) then Failure(InputExhausted)
    else Success(Frame(src, rowLen, rows))
  }

  /**
   * For a payload of L >= 1 bytes and the image of its geometry, every row
   * read succeeds and the deflater receives exactly the framed payload,
   * H scanlines of 3W + 1 bytes.
   */
  lemma {:induction false} RowStreamOfPayload(p: Bytes)
    requires |p| >= 1
    ensures RowStream(p, RowLength(|p|), Height(|p|)) == Success(Frame(p, RowLength(|p|), Height(|p|)))
    ensures |Frame(p, RowLength(|p|), Height(|p|))| == Height(|p|) * (RowLength(|p|) + 1)
  {
    GeometryBounds(|p|);
    FrameLength(p, RowLength(|p|), Height(|p|));
  }

  /** Appending one scanline after full rows extends the framing by that scanline. */
  lemma {:induction false} FrameSnoc(p: Bytes, q: Bytes, rowLen: nat, rows: nat)
    requires |p| == Times(rows, rowLen) && |q| <= rowLen
    ensures Frame(p + q, rowLen, rows + 1) == Frame(p, rowLen, rows) + Scanline(q, rowLen)
    decreases rows
  {
    if rows == 0 {
      assert p + q == q;
      assert Remaining(q, rowLen) == [];
    } else {
      var pq := p + q;
      assert pq[..rowLen] == p[..rowLen];
      assert Remaining(pq, rowLen) == Remaining(p, rowLen) + q;
      FrameSnoc(Remaining(p, rowLen), q, rowLen, rows - 1);
    }
  }

  /** The framing only looks at the first `rows * rowLen` payload bytes. */
  lemma {:induction false} FrameTail(src: Bytes, pos: nat, rowLen: nat, rows: nat)
    requires pos <= |src|
    requires pos == |src| || pos >= Times(rows, rowLen)
    ensures Frame(src[..pos], rowLen, rows) == Frame(src, rowLen, rows)
    decreases rows
  {
    if rows > 0 && pos < |src| {
      var n := Min(rowLen, |src|);
      assert n == rowLen;
      assert src[..pos][..n] == src[..n];
      assert Remaining(src[..pos], rowLen) == Remaining(src, rowLen)[..pos - n];
      FrameTail(Remaining(src, rowLen), pos - n, rowLen, rows - 1);
    } else if rows > 0 {
      assert src[..pos] == src;
    }
  }

  lemma {:induction false} TimesMono(a: nat, b: nat, w: nat)
    requires a <= b
    ensures Times(a, w) <= Times(b, w)
    decreases b
  {
    if a < b {
      TimesMono(a, b - 1, w);
    }
  }

  /**
   * `read(row)` on a byte-array stream over `src` positioned at `pos`: -1 at
   * the end of the stream, otherwise every byte left up to the buffer's
   * length, copied to the front of the buffer.
   */
  method ReadInto(row: array<Byte>, src: Bytes, pos: nat) returns (n: int)
    modifies row
    ensures pos >= |src| ==> n == -1 && row[..] == old(row[..])
    ensures pos < |src| ==> n == Min(row.Length, |src| - pos) && row[..n] == src[pos..pos + n]
    ensures pos < |src| ==> row[n..] == old(row[n..])
  {
    if pos >= |src| {
      return -1;
    }
    n := Min(row.Length, |src| - pos);
    forall k | 0 <= k < n {
      row[k] := src[pos + k];
    }
  }

  /**
   * The row loop of `encodeToPng`: reads each row from the stream into the
   * reused `row` buffer, passes the filter byte and the bytes read on, and
   * after the loop pads the last row to `rowLen` bytes.  The stream is a
   * byte-array stream over `src`, so a read returns every byte left up to
   * the buffer's length, and -1 at the end.
   */
  method ReadRows(src: Bytes, rowLen: nat, rows: int) returns (r: Result<Bytes>)
    ensures r == RowStream(src, rowLen, rows)
  {
    var row := new Byte[rowLen];
    var out: Bytes := [];
    var pos := 0;
    var lastRead := -1;
    var i := 0;
    while i < rows
      invariant 0 <= i && (rows > 0 ==> i <= rows) && (rows <= 0 ==> i == 0)
      invariant RowsRead(src, rowLen, i, pos, lastRead, out)
    {
      var n := ReadInto(row, src, pos);
      if n == -1 {
        RowsExhausted(src, rowLen, rows, i, pos, lastRead, out);
        return Failure(InputExhausted);
      }
      var got := row[..n];
      RowStep(src, rowLen, i, pos, lastRead, out, got);
      out := out + [FilterNone] + got;
      pos := pos + n;
      lastRead := n;
      i := i + 1;
    }
    RowsComplete(src, rowLen, rows, i, pos, lastRead, out);
    r := Success(out + Zeros(rowLen - lastRead));
  }

  /**
   * The invariant of the row loop after `i` rows: `pos` bytes of `src` are
   * read, the last read returned `lastRead` bytes (-1 before the first), and
   * `out`, padded after the last row, is the framing of the bytes read.
   */
  ghost predicate RowsRead(src: Bytes, rowLen: nat, i: nat, pos: int, lastRead: int, out: Bytes)
  {
    0 <= pos <= |src|
    && (i == 0 ==> pos == 0 && out == [] && lastRead == -1)
    && (i > 0 ==>
          0 <= lastRead <= rowLen && pos == Times(i - 1, rowLen) + lastRead
          && Times(i - 1, rowLen) < |src|
          && out + Zeros(rowLen - lastRead) == Frame(src[..pos], rowLen, i)
          && (lastRead < rowLen ==> pos == |src|))
  }

  /** One more row read: the output so far grows by one scanline. */
  lemma RowStep(src: Bytes, rowLen: nat, i: nat, pos: int, lastRead: int, out: Bytes, q: Bytes)
    requires RowsRead(src, rowLen, i, pos, lastRead, out) && pos < |src|
    requires |q| == Min(rowLen, |src| - pos) && q == src[pos..pos + |q|]
    ensures RowsRead(src, rowLen, i + 1, pos + |q|, |q|, out + [FilterNone] + q)
  {
    RowStart(src, rowLen, i, pos, lastRead, out);
    RowAppended(src, rowLen, i, pos, out, q);
  }

  /** Before a read that finds bytes, the rows read so far are all full. */
  lemma RowStart(src: Bytes, rowLen: nat, i: nat, pos: int, lastRead: int, out: Bytes)
    requires RowsRead(src, rowLen, i, pos, lastRead, out) && pos < |src|
    ensures pos == Times(i, rowLen) && out == Frame(src[..pos], rowLen, i)
  {
    if i > 0 {
      assert lastRead == rowLen;
      assert Zeros(rowLen - lastRead) == [];
    }
  }

  lemma RowAppended(src: Bytes, rowLen: nat, i: nat, pos: nat, out: Bytes, q: Bytes)
    requires pos + |q| <= |src| && |q| <= rowLen && q == src[pos..pos + |q|]
    requires pos == Times(i, rowLen) && out == Frame(src[..pos], rowLen, i)
    ensures out + [FilterNone] + q + Zeros(rowLen - |q|) == Frame(src[..pos + |q|], rowLen, i + 1)
  {
    assert src[..pos + |q|] == src[..pos] + q;
    FrameSnoc(src[..pos], q, rowLen, i);
    ScanlineOfShort(q, rowLen);
    Append3(out, [FilterNone], q, Zeros(rowLen - |q|));
  }

  /** A row of at most `rowLen` bytes: the filter byte, the row, and the zero padding. */
  lemma ScanlineOfShort(q: Bytes, rowLen: nat)
    requires |q| <= rowLen
    ensures Scanline(q, rowLen) == [FilterNone] + q + Zeros(rowLen - |q|)
  {
    assert q[..Min(rowLen, |q|)] == q;
  }

  /** The bytes read never run ahead of the full rows. */
  lemma RowsReadPos(src: Bytes, rowLen: nat, i: nat, pos: int, lastRead: int, out: Bytes)
    requires RowsRead(src, rowLen, i, pos, lastRead, out)
    ensures pos <= Times(i, rowLen)
  {
  }

  /** A read that finds the stream at its end, with rows still to read: the stream is too short. */
  lemma RowsExhausted(src: Bytes, rowLen: nat, rows: int, i: nat, pos: int, lastRead: int, out: Bytes)
    requires RowsRead(src, rowLen, i, pos, lastRead, out) && i < rows && pos >= |src|
    ensures RowStream(src, rowLen, rows) == Failure(InputExhausted)
  {
    RowsReadPos(src, rowLen, i, pos, lastRead, out);
    FewerRows(|src|, pos, rowLen, i, rows);
  }

  lemma FewerRows(size: nat, pos: int, rowLen: nat, i: nat, rows: int)
    requires size <= pos <= Times(i, rowLen) && i < rows
    ensures size <= rowLen * (rows - 1)
  {
    TimesMono(i, rows - 1, rowLen);
    TimesIsProduct(rows - 1, rowLen);
  }

  /** After the last row the padded output is the framing of the whole stream. */
  lemma RowsComplete(src: Bytes, rowLen: nat, rows: int, i: nat, pos: int, lastRead: int, out: Bytes)
    requires RowsRead(src, rowLen, i, pos, lastRead, out)
    requires (rows > 0 ==> i == rows) && (rows <= 0 ==> i == 0)
    ensures 0 <= rowLen - lastRead && RowStream(src, rowLen, rows) == Success(out + Zeros(rowLen - lastRead))
  {
    if rows > 0 {
      FrameTail(src, pos, rowLen, rows);
      TimesIsProduct(rows - 1, rowLen);
    } else {
      assert out + Zeros(rowLen + 1) == Zeros(rowLen + 1);
    }
  }

  /** What the deframe loop wrote to the destination, and whether it ran to its end. */
  datatype Deframed = Deframed(written: Bytes, complete: bool)

  /**
   * The deframe loop of `decodeFromPng` (PngEncoder.java:451-461), resumed at
   * offset `off` of the inflated data with `read` payload bytes done, all in
   * Java `int` arithmetic.  Each turn skips the filter byte and writes the
   * smaller of `rowLen` and the bytes still missing; a write that reaches
   * past the data, or has a negative length, throws, and what was written
   * before stays written.
   */
  function DeframeFrom(f: Bytes, off: nat, read: Int32, rowLen: Int32, L: Int32): Deframed
    requires off <= |f|
    decreases |f| - off
  {
    if read >= L then Deframed([], true)
    else
      var n := NextRowLength(read, rowLen, L);
      if n < 0 || off + 1 + n > |f| then Deframed([], false)
      else
        var rest := DeframeFrom(f, off + 1 + n, Add32(read, n), rowLen, L);
        Deframed(f[off + 1..off + 1 + n] + rest.written, rest.complete)
  }

  /** `rowLength`: a full row while one more fits before `L`, else the rest. */
  function NextRowLength(read: Int32, rowLen: Int32, L: Int32): Int32
  {
    if Add32(read, rowLen) < L then rowLen else Sub32(L, read)
  }

  /** `d` with `out` written before it. */
  function Prepend(out: Bytes, d: Deframed): Deframed
  {
    Deframed(out + d.written, d.complete)
  }

  /** One turn of the deframe loop that writes a row. */
  lemma DeframeUnfold(f: Bytes, off: nat, read: Int32, rowLen: Int32, L: Int32, n: int)
    requires off <= |f| && read < L
    requires n == NextRowLength(read, rowLen, L) && 0 <= n && off + 1 + n <= |f|
    ensures DeframeFrom(f, off, read, rowLen, L)
         == Prepend(f[off + 1..off + 1 + n], DeframeFrom(f, off + 1 + n, Add32(read, n), rowLen, L))
  {
  }

  /**
   * The invariant of the deframe loop: `out` followed by what the loop still
   * writes from `off` on is everything it writes.
   */
  ghost predicate Deframing(f: Bytes, off: nat, read: Int32, rowLen: Int32, L: Int32, out: Bytes, total: Deframed)
  {
    off <= |f| && Prepend(out, DeframeFrom(f, off, read, rowLen, L)) == total
  }

  /** Before the loop nothing is written. */
  lemma DeframeStart(f: Bytes, rowLen: Int32, L: Int32)
    ensures Deframing(f, 0, 0, rowLen, L, [], DeframeFrom(f, 0, 0, rowLen, L))
  {
    var total := DeframeFrom(f, 0, 0, rowLen, L);
    assert [] + total.written == total.written;
  }

  /** A turn that writes a row keeps the invariant. */
  lemma DeframeStep(f: Bytes, off: nat, read: Int32, rowLen: Int32, L: Int32, n: int, out: Bytes, total: Deframed)
    requires Deframing(f, off, read, rowLen, L, out, total) && read < L
    requires n == NextRowLength(read, rowLen, L) && 0 <= n && off + 1 + n <= |f|
    ensures Deframing(f, off + 1 + n, Add32(read, n), rowLen, L, out + f[off + 1..off + 1 + n], total)
  {
    DeframeUnfold(f, off, read, rowLen, L, n);
    var rest := DeframeFrom(f, off + 1 + n, Add32(read, n), rowLen, L);
    assert out + (f[off + 1..off + 1 + n] + rest.written) == out + f[off + 1..off + 1 + n] + rest.written;
  }

  /** The turn whose row length is negative or reaches past the data ends everything written so far. */
  lemma DeframeFails(f: Bytes, off: nat, read: Int32, rowLen: Int32, L: Int32, out: Bytes, total: Deframed)
    requires Deframing(f, off, read, rowLen, L, out, total) && read < L
    requires var n := NextRowLength(read, rowLen, L); n < 0 || off + 1 + n > |f|
    ensures total == Deframed(out, false)
  {
    DeframeBroken(f, off, read, rowLen, L);
    assert out + [] == out;
  }

  /** The loop test fails: everything is written. */
  lemma DeframeDone(f: Bytes, off: nat, read: Int32, rowLen: Int32, L: Int32, out: Bytes, total: Deframed)
    requires Deframing(f, off, read, rowLen, L, out, total) && read >= L
    ensures total == Deframed(out, true)
  {
    DeframeEnded(f, off, read, rowLen, L);
    assert out + [] == out;
  }

  /** Without overflow, a row is `rowLen` bytes or the payload bytes still missing, whichever is less. */
  lemma NextRowLengthExact(read: nat, rowLen: nat, L: Int32)
    requires read < L && read + rowLen <= Int32Max
    ensures NextRowLength(read, rowLen, L) == Min(rowLen, L - read)
  {
    assert Add32(read, rowLen) == read + rowLen;
    assert Sub32(L, read) == L - read;
  }

  /**
   * The deframe loop itself, over the inflated data `f`, with the row length
   * `width * 3` and the payload length read from the header.
   */
  method Deframe(f: Bytes, width: Int32, L: Int32) returns (d: Deframed)
    ensures d == DeframeFrom(f, 0, 0, Wrap32(width * 3), L)
  {
    var maxRowLength := Wrap32(width * 3);
    ghost var total := DeframeFrom(f, 0, 0, maxRowLength, L);
    var out: Bytes := [];
    var off: nat := 0;
    var read: Int32 := 0;
    DeframeStart(f, maxRowLength, L);
    while read < L
      invariant Deframing(f, off, read, maxRowLength, L, out, total)
      decreases |f| - off
    {
      var n := NextRowLength(read, maxRowLength, L);
      if n < 0 || off + 1 + n > |f| {
        DeframeFails(f, off, read, maxRowLength, L, out, total);
        return Deframed(out, false);
      }
      DeframeStep(f, off, read, maxRowLength, L, n, out, total);
      out := out + f[off + 1..off + 1 + n];
      read := Add32(read, n);
      off := off + 1 + n;
    }
    DeframeDone(f, off, read, maxRowLength, L, out, total);
    d := Deframed(out, true);
  }

  /**
   * A deframe loop that runs to its end has written exactly the payload
   * bytes still missing: the loop stops at `L`, and with the data inside a
   * Java array no `int` sum in it can wrap.
   */
  lemma {:induction false} DeframeCount(f: Bytes, off: nat, read: Int32, rowLen: Int32, L: Int32)
    requires off <= |f| <= Int32Max && 0 <= read <= off
    ensures CountedFrom(f, off, read, rowLen, L)
    decreases |f| - off
  {
    if read >= L {
      DeframeEnded(f, off, read, rowLen, L);
    } else {
      var n := NextRowLength(read, rowLen, L);
      if n < 0 || off + 1 + n > |f| {
        DeframeBroken(f, off, read, rowLen, L);
      } else {
        NextRowLengthFits(read, rowLen, L, |f|);
        DeframeCount(f, off + 1 + n, read + n, rowLen, L);
        CountStep(f, off, read, rowLen, L, n);
      }
    }
  }

  /** A finished deframe from `read` on wrote exactly the bytes missing up to `L`. */
  ghost predicate Counted(d: Deframed, read: int, L: int)
  {
    d.complete ==> read + |d.written| == (if read < L then L else read)
  }

  /** The deframe loop started at `off` with `read` bytes done is `Counted`. */
  ghost predicate CountedFrom(f: Bytes, off: nat, read: Int32, rowLen: Int32, L: Int32)
  {
    off <= |f| && Counted(DeframeFrom(f, off, read, rowLen, L), read, L)
  }

  /** A row that fits keeps the count: what follows it is counted from `read + n`. */
  lemma CountStep(f: Bytes, off: nat, read: Int32, rowLen: Int32, L: Int32, n: int)
    requires off <= |f| && 0 <= read < L
    requires n == NextRowLength(read, rowLen, L) && 0 <= n && off + 1 + n <= |f| && read + n <= L
    requires CountedFrom(f, off + 1 + n, read + n, rowLen, L)
    ensures CountedFrom(f, off, read, rowLen, L)
  {
    DeframeUnfold(f, off, read, rowLen, L, n);
    assert Add32(read, n) == read + n;
    CountPrepend(read, n, L, f[off + 1..off + 1 + n], DeframeFrom(f, off + 1 + n, read + n, rowLen, L));
  }

  lemma CountPrepend(read: int, n: nat, L: int, seg: Bytes, rest: Deframed)
    requires |seg| == n && read < L && read + n <= L && Counted(rest, read + n, L)
    ensures Counted(Prepend(seg, rest), read, L)
  {
  }

  /** The loop test fails at once: nothing more is written. */
  lemma DeframeEnded(f: Bytes, off: nat, read: Int32, rowLen: Int32, L: Int32)
    requires off <= |f| && read >= L
    ensures DeframeFrom(f, off, read, rowLen, L) == Deframed([], true)
    ensures DeframesTo(f, off, read, rowLen, L, []) && CountedFrom(f, off, read, rowLen, L)
  {
  }

  /** The next row cannot be written: the loop throws. */
  lemma DeframeBroken(f: Bytes, off: nat, read: Int32, rowLen: Int32, L: Int32)
    requires off <= |f| && read < L
    requires var n := NextRowLength(read, rowLen, L); n < 0 || off + 1 + n > |f|
    ensures DeframeFrom(f, off, read, rowLen, L) == Deframed([], false)
    ensures CountedFrom(f, off, read, rowLen, L)
  {
  }

  /** A row that fits in the data never takes the count past `L`, nor wraps it. */
  lemma NextRowLengthFits(read: Int32, rowLen: Int32, L: Int32, bound: nat)
    requires 0 <= read < L && bound <= Int32Max
    requires var n := NextRowLength(read, rowLen, L); 0 <= n && read + n < bound
    ensures var n := NextRowLength(read, rowLen, L); read + n <= L && Add32(read, n) == read + n
  {
    if Add32(read, rowLen) < L {
      assert Add32(read, rowLen) == read + rowLen;
    } else {
      assert Sub32(L, read) == L - read;
    }
  }

  /**
   * The data holds, from offset `off`, `rows` scanlines carrying `q`: each
   * scanline is one filter byte and `rowLen` bytes, the first of which are the
   * next bytes of `q`.
   */
  ghost predicate FramedAt(f: Bytes, off: nat, q: Bytes, rowLen: nat, rows: nat)
    decreases rows
  {
    rows == 0 ||
    (var n := Min(rowLen, |q|);
     off + 1 + rowLen <= |f| && f[off + 1..off + 1 + n] == q[..n]
     && FramedAt(f, off + 1 + rowLen, Remaining(q, rowLen), rowLen, rows - 1))
  }

  /** Data that starts with the framing of `q` holds its scanlines. */
  lemma {:induction false} FramedAtOfFrame(f: Bytes, off: nat, q: Bytes, rowLen: nat, rows: nat)
    requires off <= |f| && Frame(q, rowLen, rows) <= f[off..]
    ensures FramedAt(f, off, q, rowLen, rows)
    decreases rows
  {
    if rows > 0 {
      FramePrefix(f, off, q, rowLen, rows);
      FramedAtOfFrame(f, off + 1 + rowLen, Remaining(q, rowLen), rowLen, rows - 1);
    }
  }

  /**
   * From offset `off` the data holds the scanlines of `q`, the `read` bytes
   * before `q` are done, `q` ends at `L`, and the count after the last of
   * the `rows` rows, hence every `read + rowLen` on the way, fits an `int`.
   */
  ghost predicate ScanlinesFrom(f: Bytes, off: nat, q: Bytes, rowLen: nat, rows: nat, read: nat, L: Int32)
  {
    off <= |f| && FramedAt(f, off, q, rowLen, rows) && |q| <= Times(rows, rowLen)
    && read + |q| == L && read + Times(rows, rowLen) <= Int32Max && rowLen <= Int32Max
  }

  /** The deframe loop started at `off` with `read` bytes done writes `q` and ends. */
  ghost predicate DeframesTo(f: Bytes, off: nat, read: Int32, rowLen: Int32, L: Int32, q: Bytes)
  {
    off <= |f| && DeframeFrom(f, off, read, rowLen, L) == Deframed(q, true)
  }

  /**
   * Deframing undoes framing: wherever the data holds the scanlines of `q`,
   * the loop writes exactly the `L - read` payload bytes of `q` and ends,
   * as long as `read + rowLen` cannot overflow.
   */
  lemma {:induction false} DeframeOfFrame(f: Bytes, off: nat, q: Bytes, rowLen: nat, rows: nat, read: nat, L: Int32)
    requires ScanlinesFrom(f, off, q, rowLen, rows, read, L)
    ensures DeframesTo(f, off, read, rowLen, L, q)
    decreases rows
  {
    if |q| <= rowLen {
      DeframeLastRow(f, off, q, rowLen, rows, read, L);
    } else {
      ScanlinesAfterFirstRow(f, off, q, rowLen, rows, read, L);
      DeframeOfFrame(f, off + 1 + rowLen, q[rowLen..], rowLen, rows - 1, read + rowLen, L);
      DeframeFullRow(f, off, q, rowLen, rows, read, L);
    }
  }

  /** Scanlines of more than one row's payload: the first row is full. */
  lemma FramedAtFirstRow(f: Bytes, off: nat, q: Bytes, rowLen: nat, rows: nat, read: nat, L: Int32)
    requires ScanlinesFrom(f, off, q, rowLen, rows, read, L) && rowLen < |q|
    ensures off + 1 + rowLen <= |f| && f[off + 1..off + 1 + rowLen] == q[..rowLen]
  {
  }

  /** Scanlines of more than one row's payload: the rest follow the first row. */
  lemma ScanlinesAfterFirstRow(f: Bytes, off: nat, q: Bytes, rowLen: nat, rows: nat, read: nat, L: Int32)
    requires ScanlinesFrom(f, off, q, rowLen, rows, read, L) && rowLen < |q|
    ensures rows > 0 && ScanlinesFrom(f, off + 1 + rowLen, q[rowLen..], rowLen, rows - 1, read + rowLen, L)
  {
    assert rows > 0;
    assert Times(rows, rowLen) == Times(rows - 1, rowLen) + rowLen;
    assert Remaining(q, rowLen) == q[rowLen..];
  }

  /** While a row is left, one more row still fits an `int`. */
  lemma RowFitsInt(f: Bytes, off: nat, q: Bytes, rowLen: nat, rows: nat, read: nat, L: Int32)
    requires ScanlinesFrom(f, off, q, rowLen, rows, read, L) && rows > 0
    ensures read + rowLen <= Int32Max
  {
    assert Times(rows, rowLen) == Times(rows - 1, rowLen) + rowLen;
  }

  /** The last row, if any: the loop writes the payload bytes still missing and stops. */
  lemma DeframeLastRow(f: Bytes, off: nat, q: Bytes, rowLen: nat, rows: nat, read: nat, L: Int32)
    requires ScanlinesFrom(f, off, q, rowLen, rows, read, L) && |q| <= rowLen
    ensures DeframesTo(f, off, read, rowLen, L, q)
  {
    var n := |q|;
    if n == 0 {
      DeframeEnded(f, off, read, rowLen, L);
    } else {
      assert rows > 0;
      assert off + 1 + n <= |f| && f[off + 1..off + 1 + n] == q;
      RowFitsInt(f, off, q, rowLen, rows, read, L);
      NextRowLengthExact(read, rowLen, L);
      assert Add32(read, n) == L;
      DeframeEnded(f, off + 1 + n, L, rowLen, L);
      RowThen(f, off, read, rowLen, L, n, q, []);
      assert q + [] == q;
    }
  }

  /** A full row: the loop writes `rowLen` bytes of `q` and goes on with the rest. */
  lemma DeframeFullRow(f: Bytes, off: nat, q: Bytes, rowLen: nat, rows: nat, read: nat, L: Int32)
    requires ScanlinesFrom(f, off, q, rowLen, rows, read, L) && rowLen < |q|
    requires DeframesTo(f, off + 1 + rowLen, read + rowLen, rowLen, L, q[rowLen..])
    ensures DeframesTo(f, off, read, rowLen, L, q)
  {
    FramedAtFirstRow(f, off, q, rowLen, rows, read, L);
    ScanlinesAfterFirstRow(f, off, q, rowLen, rows, read, L);
    RowFitsInt(f, off, q, rowLen, rows, read, L);
    NextRowLengthExact(read, rowLen, L);
    assert Add32(read, rowLen) == read + rowLen;
    RowThen(f, off, read, rowLen, L, rowLen, q[..rowLen], q[rowLen..]);
    assert q[..rowLen] + q[rowLen..] == q;
  }

  /** A turn that writes the row `row` and then, from the next scanline on, `rest`, writes both. */
  lemma RowThen(f: Bytes, off: nat, read: Int32, rowLen: Int32, L: Int32, n: int, row: Bytes, rest: Bytes)
    requires off <= |f| && read < L
    requires n == NextRowLength(read, rowLen, L) && 0 <= n && off + 1 + n <= |f| && f[off + 1..off + 1 + n] == row
    requires DeframesTo(f, off + 1 + n, Add32(read, n), rowLen, L, rest)
    ensures DeframesTo(f, off, read, rowLen, L, row + rest)
  {
    DeframeUnfold(f, off, read, rowLen, L, n);
  }

  /** Where the data holds the scanlines of `q`, the first row's bytes follow the filter byte. */
  lemma FramePrefix(f: Bytes, off: nat, q: Bytes, rowLen: nat, rows: nat)
    requires off <= |f| && Frame(q, rowLen, rows) <= f[off..]
    requires rows > 0
    ensures var n := Min(rowLen, |q|);
      off + 1 + rowLen <= |f| && f[off + 1..off + 1 + n] == q[..n]
      && Frame(Remaining(q, rowLen), rowLen, rows - 1) <= f[off + 1 + rowLen..]
  {
    var n := Min(rowLen, |q|);
    var head := Scanline(q, rowLen);
    var g := Frame(Remaining(q, rowLen), rowLen, rows - 1);
    assert Frame(q, rowLen, rows) == head + g;
    assert head[1..1 + n] == q[..n];
    assert f[off..][..|head|] == head;
    assert f[off..][|head|..] == f[off + 1 + rowLen..];
  }

  /**
   * For a payload of L >= 1 bytes, deframing its framed rows (row length 3W,
   * H rows) gives the payload back, provided 3WH, the largest
   * `payloadRead + maxRowLength` the loop computes, fits a Java int.
   */
  lemma {:induction false} DeframeOfPayload(p: Bytes)
    requires 1 <= |p| && RowLength(|p|) * Height(|p|) <= Int32Max
    ensures DeframeFrom(Frame(p, RowLength(|p|), Height(|p|)), 0, 0, RowLength(|p|), |p|) == Deframed(p, true)
  {
    var w, h := RowLength(|p|), Height(|p|);
    var f := Frame(p, w, h);
    PayloadScanlines(p, w, h, f);
    DeframeOfFrame(f, 0, p, w, h, 0, |p|);
  }

  /** The framed payload holds its scanlines, and the row count stays within an `int`. */
  lemma PayloadScanlines(p: Bytes, w: nat, h: nat, f: Bytes)
    requires 1 <= |p| && w == RowLength(|p|) && h == Height(|p|) && f == Frame(p, w, h)
    requires w * h <= Int32Max
    ensures ScanlinesFrom(f, 0, p, w, h, 0, |p|)
  {
    GeometryBounds(|p|);
    TimesIsProduct(h, w);
    assert Times(h, w) == w * h;
    assert Times(h, w) == Times(h - 1, w) + w;
    assert f[0..] == f;
    FramedAtOfFrame(f, 0, p, w, h);
  }
}
