/**
 * Reading a PNG datastream the way both decoders do: from an input stream
 * that behaves like a `ByteArrayInputStream` over the bytes `s`, whose
 * position only moves forward.  `skip(n)` stops at the end; `read(buf)` fills
 * what is left and leaves the rest of the fresh (zeroed) buffer alone, and
 * at the end reads nothing.  `readChunk` (PngEncoder.java:467-483, the same
 * at PngEncoderStream2.java:580-596) and the IDAT loop of `decodeFromPng`
 * (PngEncoder.java:431-438) are modelled on that stream.
 */
module PngReader {
  import opened ByteOrder
  import opened Results
  import opened PngLayout

  /** The stream position after skipping (or reading) `n` bytes from `pos`. */
  function Skip(s: Bytes, pos: nat, n: nat): (r: nat)
    requires pos <= |s|
    ensures pos <= r <= |s|
    ensures r == pos + n || r == |s|
  {
    if pos + n <= |s| then pos + n else |s|
  }

  /** The content of `new byte[n]` after `read` at `pos`: what is left, then zeros. */
  function Field(s: Bytes, pos: nat, n: nat): (r: Bytes)
    requires pos <= |s|
    ensures |r| == n
    ensures pos + n <= |s| ==> r == s[pos..pos + n]
  {
    var end := Skip(s, pos, n);
    s[pos..end] + Zeros(n - (end - pos))
  }

  /** A field whose last byte is not zero was read in full. */
  lemma FieldInFull(s: Bytes, pos: nat, n: nat)
    requires pos <= |s| && n > 0
    ensures Field(s, pos, n)[n - 1] != 0 ==> pos + n <= |s|
  {
  }

  /** The `Chunk` record `readChunk` returns: size, type, data and the (unchecked) checksum. */
  datatype Chunk = Chunk(size: Int32, kind: Bytes, data: Bytes, checksum: Int32)

  /** A chunk read, and the stream position after it. */
  datatype ChunkAt = ChunkAt(chunk: Chunk, next: nat)

  /**
   * `readChunk`: four bytes of size, four of type, `size` of data, four of
   * checksum, each read into a fresh array.  A size with the top bit set
   * makes `new byte[chunkSize]` throw.  Short reads are not detected; the
   * checksum is not compared with anything.
   */
  function ReadChunk(s: Bytes, pos: nat): (r: Result<ChunkAt>)
    requires pos <= |s|
    ensures r.Failure? <==> ToIntBE(Field(s, pos, 4), 0) < 0
    ensures r.Failure? ==> r.error == NegativeChunkLength
    ensures r.Success? ==> pos <= r.value.next <= |s|
    ensures r.Success? ==> |r.value.chunk.data| == r.value.chunk.size
    ensures r.Success? && r.value.chunk.kind == IdatType ==> r.value.next >= pos + 8
  {
    var size := ToIntBE(Field(s, pos, 4), 0);
    var p1 := Skip(s, pos, 4);
    var kind := Field(s, p1, 4);
    var p2 := Skip(s, p1, 4);
    if size < 0 then Failure(NegativeChunkLength)
    else
      var data := Field(s, p2, size);
      var p3 := Skip(s, p2, size);
      var checksum := ToIntBE(Field(s, p3, 4), 0);
      FieldInFull(s, p1, 4);
      Success(ChunkAt(Chunk(size, kind, data, checksum), Skip(s, p3, 4)))
  }

  /**
   * The IDAT loop from `pos` on, with `acc` already collected: while the
   * chunk read is an IDAT chunk its data is appended; the first other chunk
   * (at the end of the stream, an all-zero one) ends the loop.  The
   * collecting `ByteArrayOutputStream` cannot grow past 2^31 - 1 bytes.
   */
  function CollectFrom(s: Bytes, pos: nat, acc: Bytes): (r: Result<Bytes>)
    requires pos <= |s|
    ensures r.Success? ==> acc <= r.value
    ensures r.Success? && |acc| <= Int32Max ==> |r.value| <= Int32Max
    decreases |s| - pos
  {
    match ReadChunk(s, pos)
    case Failure(e) => Failure(e)
    case Success(ca) =>
      if ca.chunk.kind != IdatType then Success(acc)
      else if |acc| + ca.chunk.size > Int32Max then Failure(ArrayTooLarge)
      else CollectFrom(s, ca.next, acc + ca.chunk.data)
  }

  /** The IDAT loop of `decodeFromPng` (PngEncoder.java:431-438, PngEncoderStream2.java:540-547). */
  method CollectIdat(s: Bytes, pos: nat) returns (r: Result<Bytes>)
    requires pos <= |s|
    ensures r == CollectFrom(s, pos, [])
  {
    var acc: Bytes := [];
    var p := pos;
    var next := ReadChunk(s, p);
    while next.Success? && next.value.chunk.kind == IdatType
      invariant p <= |s| && next == ReadChunk(s, p)
      invariant CollectFrom(s, p, acc) == CollectFrom(s, pos, [])
      decreases |s| - p
    {
      var c := next.value.chunk;
      if |acc| + c.size > Int32Max {
        return Failure(ArrayTooLarge);
      }
      acc := acc + c.data;
      p := next.value.next;
      next := ReadChunk(s, p);
    }
    if next.Failure? {
      return Failure(next.error);
    }
    r := Success(acc);
  }

  /**
   * `readChunk` inverts the chunk layout: a chunk laid out at `|pre|` is
   * read back with its size, type, data and checksum, and the stream is
   * left just after it.
   */
  lemma {:induction false} ReadChunkOfRaw(pre: Bytes, kind: Bytes, data: Bytes, crc: Int32, post: Bytes)
    requires |kind| == 4 && |data| <= Int32Max
    ensures var s := pre + RawChunkBytes(kind, data, crc) + post;
      ReadChunk(s, |pre|) == Success(ChunkAt(Chunk(|data|, kind, data, crc), |pre| + |data| + 12))
  {
    var x := RawChunkBytes(kind, data, crc);
    var n := |data|;
    RawChunkParts(kind, data, crc);
    Inner(pre, x, post, 0, 4);
    Inner(pre, x, post, 4, 8);
    Inner(pre, x, post, 8, 8 + n);
    Inner(pre, x, post, 8 + n, 12 + n);
    ReadChunkOfFields(pre + x + post, |pre|, kind, data, crc);
  }

  /** A chunk whose four fields all lie inside the stream reads back as written. */
  lemma ReadChunkOfFields(s: Bytes, pos: nat, kind: Bytes, data: Bytes, crc: Int32)
    requires |kind| == 4 && |data| <= Int32Max && pos + 12 + |data| <= |s|
    requires s[pos..pos + 4] == IntBytesBE(|data|) && s[pos + 4..pos + 8] == kind
    requires s[pos + 8..pos + 8 + |data|] == data && s[pos + 8 + |data|..pos + 12 + |data|] == IntBytesBE(crc)
    ensures ReadChunk(s, pos) == Success(ChunkAt(Chunk(|data|, kind, data, crc), pos + |data| + 12))
  {
    var n := |data|;
    assert Skip(s, pos, 4) == pos + 4 && Field(s, pos, 4) == IntBytesBE(n);
    assert Skip(s, pos + 4, 4) == pos + 8 && Field(s, pos + 4, 4) == kind;
    assert Skip(s, pos + 8, n) == pos + 8 + n && Field(s, pos + 8, n) == data;
    assert Skip(s, pos + 8 + n, 4) == pos + 12 + n && Field(s, pos + 8 + n, 4) == IntBytesBE(crc);
    IntOfBytes(n);
    IntOfBytes(crc);
  }

  lemma Inner(pre: Bytes, x: Bytes, post: Bytes, i: nat, j: nat)
    requires i <= j <= |x|
    ensures (pre + x + post)[|pre| + i..|pre| + j] == x[i..j]
  {
  }

  /** Reading back the four bytes written for `v` gives `v`. */
  lemma IntOfBytes(v: Int32)
    ensures ToIntBE(IntBytesBE(v), 0) == v
  {
    ToIntBEOfIntBytes(v, [], []);
    assert [] + IntBytesBE(v) + [] == IntBytesBE(v);
  }

  lemma RawChunkParts(kind: Bytes, data: Bytes, crc: Int32)
    requires |kind| == 4 && |data| <= Int32Max
    ensures var x := RawChunkBytes(kind, data, crc); var n := |data|;
      x[0..4] == IntBytesBE(n) && x[4..8] == kind && x[8..8 + n] == data && x[8 + n..12 + n] == IntBytesBE(crc)
  {
  }

  /**
   * The IDAT loop gathers the data of consecutive IDAT chunks in order and
   * stops at the IEND chunk that follows them, whatever the CRC fields hold.
   */
  lemma {:induction false} CollectOfIdatStream(pre: Bytes, cs: seq<IdatChunk>, post: Bytes, acc: Bytes)
    requires ChunksSized(cs) && |acc| + |IdatData(cs)| <= Int32Max
    ensures CollectFrom(pre + IdatStream(cs) + (IendChunk + post), |pre|, acc) == Success(acc + IdatData(cs))
    decreases |cs|
  {
    var t := IendChunk + post;
    var s := pre + IdatStream(cs) + t;
    if cs == [] {
      CollectAtIend(pre, post, acc);
    } else {
      var c := cs[0];
      var x := RawChunkBytes(IdatType, c.data, c.crc);
      var more := IdatData(cs[1..]);
      assert IdatData(cs) == c.data + more;
      assert IdatStream(cs) == x + IdatStream(cs[1..]);
      assert ChunksSized(cs[1..]);
      CollectOfIdatStream(pre + x, cs[1..], post, acc + c.data);
      CollectCons(pre, c, IdatStream(cs[1..]), t, acc, more);
      Assoc(acc, c.data, more);
    }
  }

  /** A first IDAT chunk adds its data, and the loop goes on after it. */
  lemma CollectCons(pre: Bytes, c: IdatChunk, rest: Bytes, t: Bytes, acc: Bytes, more: Bytes)
    requires |c.data| <= Int32Max && |acc| + |c.data| <= Int32Max
    requires var x := RawChunkBytes(IdatType, c.data, c.crc);
      CollectFrom(pre + x + rest + t, |pre + x|, acc + c.data) == Success(acc + c.data + more)
    ensures var x := RawChunkBytes(IdatType, c.data, c.crc);
      CollectFrom(pre + (x + rest) + t, |pre|, acc) == Success(acc + c.data + more)
  {
    var x := RawChunkBytes(IdatType, c.data, c.crc);
    var s := pre + (x + rest) + t;
    Regroup(pre, x, rest, t);
    ReadChunkOfRaw(pre, IdatType, c.data, c.crc, rest + t);
    CollectStep(s, |pre|, acc);
  }

  /** The IDAT loop stops at an IEND chunk and collects nothing more. */
  lemma CollectAtIend(pre: Bytes, post: Bytes, acc: Bytes)
    ensures CollectFrom(pre + IdatStream([]) + (IendChunk + post), |pre|, acc) == Success(acc + IdatData([]))
  {
    var s := pre + IdatStream([]) + (IendChunk + post);
    assert s == pre + IendChunk + post;
    IendChunkRaw();
    ReadChunkOfRaw(pre, IendType, [], IendCrcField, post);
    CollectStop(s, |pre|, acc);
    assert acc + IdatData([]) == acc;
  }

  /** One turn of the IDAT loop that appends a chunk's data. */
  lemma CollectStep(s: Bytes, pos: nat, acc: Bytes)
    requires pos <= |s| && ReadChunk(s, pos).Success?
    requires ReadChunk(s, pos).value.chunk.kind == IdatType
    requires |acc| + ReadChunk(s, pos).value.chunk.size <= Int32Max
    ensures var ca := ReadChunk(s, pos).value;
      CollectFrom(s, pos, acc) == CollectFrom(s, ca.next, acc + ca.chunk.data)
  {
  }

  /** The IDAT loop ends at a chunk of another type. */
  lemma CollectStop(s: Bytes, pos: nat, acc: Bytes)
    requires pos <= |s| && ReadChunk(s, pos).Success?
    requires ReadChunk(s, pos).value.chunk.kind != IdatType
    ensures CollectFrom(s, pos, acc) == Success(acc)
  {
  }
}
