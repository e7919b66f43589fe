/**
 * `IdatChunkEncoderOutputStream` (PngEncoderStream2.java:328-384): the
 * stream the streaming encoder's deflater writes to.  It buffers what it is
 * given and keeps a running CRC-32 that starts with the type "IDAT"; once
 * the buffer holds more than 512 KiB it writes it out as one IDAT chunk,
 * and `close` writes whatever is left as the last one.
 *
 * The state is first described as a value (`Splitter`, with the chunks
 * written so far), and the class is proved to follow that description.
 */
module IdatSplitter {
  import opened ByteOrder
  import opened Crc32
  import opened Results
  import opened Compression
  import opened PngLayout

  /** `PNG_CHUNK_IDAT_MAX_SIZE`: a buffer longer than this is written out. */
  const IdatMaxSize: nat := 512 * 1024

  /** The CRC-32 register value, the buffered bytes, and the chunks written so far. */
  datatype Splitter = Splitter(checksum: bv32, buffer: Bytes, chunks: seq<IdatChunk>)

  /** A fresh stream: a new `CRC32` (value 0), an empty buffer, nothing written. */
  const Fresh: Splitter := Splitter(0, [], [])

  /** The state the stream can be in between calls. */
  predicate Settled(st: Splitter)
  {
    ChunksSized(st.chunks) && |st.buffer| <= IdatMaxSize
  }

  /**
   * `writeChunk`: the buffer goes out as an IDAT chunk with the register's
   * value in its CRC field, and both are reset.
   */
  function Emit(st: Splitter): (r: Splitter)
    requires ChunksSized(st.chunks) && |st.buffer| <= Int32Max
    ensures Settled(r) && r.buffer == [] && r.checksum == 0
    ensures r.chunks == st.chunks + [IdatChunk(st.buffer, CrcInt(st.checksum))]
  {
    IdatStreamSnocSized(st.chunks, IdatChunk(st.buffer, CrcInt(st.checksum)));
    Splitter(0, [], st.chunks + [IdatChunk(st.buffer, CrcInt(st.checksum))])
  }

  lemma IdatStreamSnocSized(cs: seq<IdatChunk>, c: IdatChunk)
    requires ChunksSized(cs) && |c.data| <= Int32Max
    ensures ChunksSized(cs + [c])
  {
  }

  /**
   * `write(b, off, len)` with `bytes == b[off..off + len]`: on an empty
   * buffer "IDAT" is fed to the CRC first; then the bytes are fed to the CRC
   * and the buffer, and a buffer past 512 KiB is written out.
   */
  function WriteStep(st: Splitter, bytes: Bytes): (r: Splitter)
    requires ChunksSized(st.chunks) && |st.buffer| + |bytes| <= Int32Max
    ensures Settled(r)
  {
    var started := if |st.buffer| == 0 then CrcUpdate(st.checksum, IdatType) else st.checksum;
    var next := Splitter(CrcUpdate(started, bytes), st.buffer + bytes, st.chunks);
    if |next.buffer| > IdatMaxSize then Emit(next) else next
  }

  /** The state after a sequence of writes, and the error that stopped them, if any. */
  datatype Fed = Fed(state: Splitter, error: Option<CodecError>)

  /**
   * The writes `pieces` in order.  A write that would take the buffer past
   * 2^31 - 1 bytes cannot grow its `ByteArrayOutputStream` and throws;
   * the writes after it do not happen.
   */
  function Feed(st: Splitter, pieces: seq<Bytes>): (r: Fed)
    requires Settled(st)
    ensures Settled(r.state)
  {
    if pieces == [] then Fed(st, None)
    else
      var before := Feed(st, pieces[..|pieces| - 1]);
      var last := pieces[|pieces| - 1];
      if before.error.Some? then before
      else if |before.state.buffer| + |last| > Int32Max then Fed(before.state, Some(ArrayTooLarge))
      else Fed(WriteStep(before.state, last), None)
  }

  /** `close`: the rest of the buffer goes out as the last chunk, even when it is empty. */
  function CloseStep(st: Splitter): (r: Splitter)
    requires Settled(st)
    ensures Settled(r) && r.buffer == []
  {
    Emit(st)
  }

  /** One more write, after a run of writes that all went through. */
  lemma FeedNext(pieces: seq<Bytes>, i: nat, before: Splitter)
    requires i < |pieces| && Feed(Fresh, pieces[..i]) == Fed(before, None)
    ensures Feed(Fresh, pieces[..i + 1])
         == if |before.buffer| + |pieces[i]| > Int32Max then Fed(before, Some(ArrayTooLarge))
            else Fed(WriteStep(before, pieces[i]), None)
  {
    assert pieces[..i + 1][..i] == pieces[..i];
  }

  /** Once a write has thrown, later writes change nothing. */
  lemma {:induction false} FeedAfterError(st: Splitter, pieces: seq<Bytes>, n: nat)
    requires Settled(st) && n <= |pieces| && Feed(st, pieces[..n]).error.Some?
    ensures Feed(st, pieces) == Feed(st, pieces[..n])
    decreases |pieces| - n
  {
    if n < |pieces| {
      var longer := pieces[..n + 1];
      assert longer[..n] == pieces[..n];
      FeedAfterError(st, pieces, n + 1);
    } else {
      assert pieces[..n] == pieces;
    }
  }

  // ---- What the splitter keeps --------------------------------------------

  /** Every byte written is in a chunk or in the buffer, in order. */
  lemma {:induction false} FeedLossless(pieces: seq<Bytes>)
    ensures var f := Feed(Fresh, pieces);
      f.error == None ==> IdatData(f.state.chunks) + f.state.buffer == Flatten(pieces)
  {
    if pieces != [] {
      var init := pieces[..|pieces| - 1];
      var last := pieces[|pieces| - 1];
      FeedLossless(init);
      var before := Feed(Fresh, init);
      if before.error == None && |before.state.buffer| + |last| <= Int32Max {
        WriteStepLossless(before.state, last);
      }
    }
  }

  /** One write adds its bytes after everything written before. */
  lemma WriteStepLossless(st: Splitter, bytes: Bytes)
    requires ChunksSized(st.chunks) && |st.buffer| + |bytes| <= Int32Max
    ensures var r := WriteStep(st, bytes);
      IdatData(r.chunks) + r.buffer == IdatData(st.chunks) + st.buffer + bytes
  {
    var grown := st.buffer + bytes;
    if |grown| > IdatMaxSize {
      IdatDataSnoc(st.chunks, IdatChunk(grown, CrcInt(CrcUpdate(if |st.buffer| == 0 then CrcUpdate(st.checksum, IdatType) else st.checksum, bytes))));
      NoMore(IdatData(st.chunks) + grown);
    }
    Assoc(IdatData(st.chunks), st.buffer, bytes);
  }

  /** `close` loses nothing: the chunks then carry everything written, in order. */
  lemma CloseLossless(st: Splitter)
    requires Settled(st)
    ensures IdatData(CloseStep(st).chunks) == IdatData(st.chunks) + st.buffer
  {
    IdatDataSnoc(st.chunks, IdatChunk(st.buffer, CrcInt(st.checksum)));
  }

  // ---- CRC fields -----------------------------------------------------------

  /**
   * A chunk's CRC field is the CRC-32 of "IDAT" and its data, except for a
   * chunk without data, whose field holds the reset register, 0.
   */
  predicate ChunkCrcOk(c: IdatChunk)
    requires |c.data| <= Int32Max
  {
    if c.data == [] then c.crc == 0 else c.crc == CrcField(IdatType, c.data)
  }

  /**
   * The register holds the CRC-32 of "IDAT" and the buffer while the buffer
   * has bytes, and 0 while it is empty; every chunk written has a
   * `ChunkCrcOk` field.
   */
  predicate CrcTracked(st: Splitter)
  {
    ChunksSized(st.chunks)
    && (st.buffer == [] ==> st.checksum == 0)
    && (st.buffer != [] ==> st.checksum == Crc(IdatType + st.buffer))
    && forall i :: 0 <= i < |st.chunks| ==> ChunkCrcOk(st.chunks[i])
  }

  /** Writing out the buffer keeps the CRC fields right. */
  lemma EmitCrc(st: Splitter)
    requires CrcTracked(st) && |st.buffer| <= Int32Max
    ensures CrcTracked(Emit(st))
  {
    var c := IdatChunk(st.buffer, CrcInt(st.checksum));
    assert ChunkCrcOk(c);
    var r := Emit(st);
    forall i | 0 <= i < |r.chunks|
      ensures ChunkCrcOk(r.chunks[i])
    {
      if i < |st.chunks| {
        assert r.chunks[i] == st.chunks[i];
      }
    }
  }

  /** A non-empty write keeps the register and the CRC fields right. */
  lemma WriteStepCrc(st: Splitter, bytes: Bytes)
    requires CrcTracked(st) && |st.buffer| + |bytes| <= Int32Max && bytes != []
    ensures CrcTracked(WriteStep(st, bytes))
  {
    var started := if |st.buffer| == 0 then CrcUpdate(st.checksum, IdatType) else st.checksum;
    assert started == Crc(IdatType + st.buffer) by {
      if |st.buffer| == 0 {
        CrcOfEmpty();
        CrcAppend([], IdatType);
        NoMore(IdatType);
        NoMore(IdatType);
      }
    }
    CrcAppend(IdatType + st.buffer, bytes);
    Assoc(IdatType, st.buffer, bytes);
    var next := Splitter(CrcUpdate(started, bytes), st.buffer + bytes, st.chunks);
    assert CrcTracked(next);
    if |next.buffer| > IdatMaxSize {
      EmitCrc(next);
    }
  }

  /** Writes of non-empty pieces keep every CRC field right. */
  lemma {:induction false} FeedCrc(pieces: seq<Bytes>)
    requires forall i :: 0 <= i < |pieces| ==> pieces[i] != []
    ensures CrcTracked(Feed(Fresh, pieces).state)
  {
    if pieces != [] {
      var init := pieces[..|pieces| - 1];
      var last := pieces[|pieces| - 1];
      FeedCrc(init);
      var before := Feed(Fresh, init);
      if before.error == None && |before.state.buffer| + |last| <= Int32Max {
        WriteStepCrc(before.state, last);
      }
    }
  }

  /**
   * `close` on an empty buffer writes a chunk without data whose CRC field
   * is 0, while the CRC-32 of "IDAT" alone is 0x35AF061E: the last chunk
   * of such a stream does not carry a valid CRC.
   */
  lemma EmptyCloseChunk(st: Splitter)
    requires CrcTracked(st) && Settled(st) && st.buffer == []
    ensures CloseStep(st).chunks[|CloseStep(st).chunks| - 1] == IdatChunk([], 0)
    ensures CrcField(IdatType, []) != 0
  {
    IdatCrcOfNothing();
  }

  /** The CRC field an IDAT chunk without data should carry. */
  lemma IdatCrcOfNothing()
    ensures CrcField(IdatType, []) == 0x35AF_061E
  {
    NoMore(IdatType);
    CrcOfIdatType();
  }

  /**
   * A zero-length write on an empty buffer still feeds "IDAT" to the
   * register without filling the buffer, so the next write feeds it again:
   * the register then holds the CRC-32 of "IDAT" twice, then the bytes.
   */
  lemma ZeroLengthWrite(st: Splitter, bytes: Bytes)
    requires Settled(st) && st.buffer == [] && st.checksum == 0 && 0 < |bytes| <= IdatMaxSize
    ensures var once := WriteStep(st, []);
      once.buffer == [] && once.checksum == Crc(IdatType)
      && WriteStep(once, bytes).checksum == Crc(IdatType + IdatType + bytes)
  {
    var t := IdatType;
    NoMore(t);
    StartFromZero(st.checksum, t);
    WriteStepSmall(st, []);
    var once := WriteStep(st, []);
    assert once.checksum == Crc(t);
    WriteStepSmall(once, bytes);
    CrcAppend(t, t + bytes);
    Assoc(t, t, bytes);
  }

  /**
   * A write that leaves at most 512 KiB buffered sends nothing out.  The
   * register takes "IDAT" and then the bytes when the buffer was empty,
   * and only the bytes otherwise.
   */
  lemma WriteStepSmall(st: Splitter, bytes: Bytes)
    requires ChunksSized(st.chunks) && |st.buffer| + |bytes| <= IdatMaxSize
    ensures WriteStep(st, bytes).chunks == st.chunks
    ensures WriteStep(st, bytes).buffer == st.buffer + bytes
    ensures |st.buffer| == 0 ==> WriteStep(st, bytes).checksum == CrcUpdate(st.checksum, IdatType + bytes)
    ensures |st.buffer| > 0 ==> WriteStep(st, bytes).checksum == CrcUpdate(st.checksum, bytes)
  {
    CrcUpdateAppend(st.checksum, IdatType, bytes);
  }

  /** A fresh register fed `a` holds the CRC-32 of `a`. */
  lemma StartFromZero(k: bv32, a: Bytes)
    requires k == 0
    ensures CrcUpdate(k, a) == Crc(a)
  {
    CrcOfEmpty();
    CrcAppend([], a);
    NoMore(a);
  }

  // ---- Chunk sizes ----------------------------------------------------------

  /** Chunks written by `write` hold more than 512 KiB and at most one write more. */
  predicate WriteSized(cs: seq<IdatChunk>)
  {
    forall i :: 0 <= i < |cs| ==> IdatMaxSize < |cs[i].data| <= IdatMaxSize + DeflateBufferSize
  }

  /**
   * With writes of at most 512 bytes, as `DeflaterOutputStream` makes them,
   * every chunk `write` sends out holds between 512 KiB + 1 and
   * 512 KiB + 512 bytes, and the buffer never holds more than 512 KiB.
   */
  lemma {:induction false} FeedSizes(pieces: seq<Bytes>)
    requires forall i :: 0 <= i < |pieces| ==> |pieces[i]| <= DeflateBufferSize
    ensures var f := Feed(Fresh, pieces);
      f.error == None && WriteSized(f.state.chunks) && |f.state.buffer| <= IdatMaxSize
  {
    if pieces != [] {
      var init := pieces[..|pieces| - 1];
      FeedSizes(init);
      var before := Feed(Fresh, init);
      var last := pieces[|pieces| - 1];
      var r := WriteStep(before.state, last);
      forall i | 0 <= i < |r.chunks|
        ensures IdatMaxSize < |r.chunks[i].data| <= IdatMaxSize + DeflateBufferSize
      {
        if i < |before.state.chunks| {
          assert r.chunks[i] == before.state.chunks[i];
        }
      }
    }
  }

  // ---- The stream object ----------------------------------------------------

  /**
   * The stream object.  `out` is what reached the underlying stream (which
   * held `base` before); the ghost fields record every byte written to this
   * stream and the chunks sent out.
   */
  class IdatChunkEncoderOutputStream {
    var checksum: bv32
    var buffer: Bytes
    var out: Bytes
    ghost const base: Bytes
    ghost var written: Bytes
    ghost var chunks: seq<IdatChunk>

    /** The state as a value. */
    ghost function State(): Splitter
      reads this
    {
      Splitter(checksum, buffer, chunks)
    }

    /**
     * The underlying stream holds `base` and the chunks sent out, and the
     * chunks and the buffer hold everything written, in order.
     */
    ghost predicate Framed()
      reads this
    {
      ChunksSized(chunks) && out == base + IdatStream(chunks) && IdatData(chunks) + buffer == written
    }

    ghost predicate Valid()
      reads this
    {
      Framed() && |buffer| <= IdatMaxSize
    }

    constructor (dest: Bytes)
      ensures Valid() && State() == Fresh && out == dest && base == dest && written == []
    {
      checksum := 0;
      buffer := [];
      out := dest;
      base := dest;
      written := [];
      chunks := [];
      new;
      assert IdatStream([]) == [] && IdatData([]) == [];
      NoMore(dest);
    }

    /**
     * `write(b, off, len)`.  A buffer that cannot grow by `len` bytes
     * throws, after the register took the bytes but before the buffer did.
     */
    method Write(b: Bytes, off: nat, len: nat) returns (error: Option<CodecError>)
      requires Valid() && off + len <= |b|
      modifies this
      ensures error == None <==> |old(buffer)| + len <= Int32Max
      ensures error.Some? ==> error == Some(ArrayTooLarge) && out == old(out) && buffer == old(buffer) && chunks == old(chunks)
      ensures error == None ==> State() == WriteStep(old(State()), b[off..off + len])
      ensures error == None ==> Valid() && written == old(written) + b[off..off + len]
    {
      if buffer == [] {
        checksum := CrcUpdate(checksum, IdatType);
      }
      var bytes := b[off..off + len];
      checksum := CrcUpdate(checksum, bytes);
      if |buffer| + len > Int32Max {
        return Some(ArrayTooLarge);
      }
      buffer := buffer + bytes;
      written := written + bytes;
      Assoc(IdatData(chunks), old(buffer), bytes);
      if |buffer| > IdatMaxSize {
        WriteChunk();
      }
      error := None;
    }

    /** `write(b)`: all of `b`. */
    method WriteAll(b: Bytes) returns (error: Option<CodecError>)
      requires Valid()
      modifies this
      ensures error == None <==> |old(buffer)| + |b| <= Int32Max
      ensures error.Some? ==> error == Some(ArrayTooLarge) && out == old(out) && buffer == old(buffer) && chunks == old(chunks)
      ensures error == None ==> State() == WriteStep(old(State()), b)
      ensures error == None ==> Valid() && written == old(written) + b
    {
      error := Write(b, 0, |b|);
      assert b[0..|b|] == b;
    }

    /**
     * `writeChunk`: the patched IDAT head, the buffered bytes and the
     * patched CRC go to the underlying stream; register and buffer are reset.
     */
    method WriteChunk()
      requires Framed() && |buffer| <= Int32Max
      modifies this
      ensures Valid() && State() == Emit(old(State()))
      ensures out == old(out) + RawChunkBytes(IdatType, old(buffer), CrcInt(old(checksum)))
      ensures written == old(written)
    {
      var begin := IdatBegin(|buffer|);
      var end := IdatEnd(CrcInt(checksum));
      var chunk := IdatChunk(buffer, CrcInt(checksum));
      IdatStreamSnoc(chunks, chunk);
      IdatDataSnoc(chunks, chunk);
      Append3(out, begin, buffer, end);
      Assoc(base, IdatStream(chunks), RawChunkBytes(IdatType, buffer, CrcInt(checksum)));
      NoMore(IdatData(chunks) + buffer);
      out := out + begin;
      out := out + buffer;
      out := out + end;
      chunks := chunks + [chunk];
      checksum := 0;
      buffer := [];
    }

    /** `close`: the last chunk, even an empty one. */
    method Close()
      requires Valid()
      modifies this
      ensures Valid() && buffer == [] && State() == CloseStep(old(State()))
      ensures out == old(out) + RawChunkBytes(IdatType, old(buffer), CrcInt(old(checksum)))
      ensures written == old(written)
    {
      WriteChunk();
    }

    /** `write(int)`: not implemented, it always throws. */
    method WriteByte(b: int) returns (error: Option<CodecError>)
      ensures error == Some(NotImplemented)
    {
      error := Some(NotImplemented);
    }
  }
}
