/**
 * The two encoders and the decoder together: an image either encoder
 * writes for a correctly declared payload decodes to that payload, with no
 * error, as long as the zlib codec is lossless and every intermediate array
 * fits in a Java array.
 */
module RoundTrip {
  import opened ByteOrder
  import opened Results
  import opened Geometry
  import opened Compression
  import opened RowFraming
  import opened PngLayout
  import opened PngReader
  import opened PngDecoder
  import opened PngEncoder
  import opened PngEncoderStream2

  /**
   * The JVM limits the round trip needs: the payload length is an `int`,
   * and the scanline stream and its compressed form fit in arrays.  (The
   * first follows from the second; `payloadRead + maxRowLength` in the
   * deframe loop is at most 3WH, below the scanline stream's length, so it
   * cannot overflow either.)
   */
  predicate FitsArrays(c: Compressor, p: Bytes)
  {
    |p| <= Int32Max && |FilteredPayload(p)| <= Int32Max && |c.deflate(FilteredPayload(p))| <= Int32Max
  }

  /** `decodeFromPng(encodeToPng(p)) == p` for PngEncoder.java. */
  lemma DecodeOfEncode(c: Compressor, p: Bytes)
    requires Lossless(c) && FitsArrays(c, p)
    ensures EncodeSpec(c, p, |p|).error == None
    ensures DecodeSpec(c, EncodeSpec(c, p, |p|).written) == Outcome(p, None)
  {
    var L: Int32 := |p|;
    var f := FilteredPayload(p);
    var comp := c.deflate(f);
    FilteredOfPayload(p);
    var hd := EncodedHeader(L);
    var chunk := ChunkBytes(IdatType, comp);
    var s := EncodeSpec(c, p, L).written;
    assert s == hd + chunk + IendChunk;
    var cs := [IdatChunk(comp, CrcField(IdatType, comp))];
    SingleIdat(comp, CrcField(IdatType, comp));
    DecodeChunks(c, hd, cs, f);
    assert Inflated(c, s) == Success(f);
    EncodedHeaderLayout(L);
    Assoc(hd, chunk, IendChunk);
    DecodeHeader(ImageWidth(L), ImageHeight(L), CrcField(IhdrType, IhdrData(ImageWidth(L), ImageHeight(L))),
                 L, CrcField(TextType, TextData(L)), chunk + IendChunk);
    DeframePayload(p, f, HeaderWidth(s));
  }

  /**
   * `decodeFromPng(encodeToPng(p)) == p` for PngEncoderStream2.java: the
   * decoder gathers the data of all the IDAT chunks, the empty last one
   * included, and ignores the CRC fields, so the split and the tEXt
   * checksum over 16 bytes do not matter to it.
   */
  lemma StreamDecodeOfEncode(c: Compressor, p: Bytes)
    requires Lossless(c) && WritesCover(c) && FitsArrays(c, p)
    ensures StreamEncodeSpec(c, p, |p|).error == None
    ensures DecodeSpec(c, StreamEncodeSpec(c, p, |p|).written) == Outcome(p, None)
  {
    var L: Int32 := |p|;
    var f := FilteredPayload(p);
    FilteredOfPayload(p);
    var pieces := c.writes(f);
    StreamChunksWellFormed(pieces);
    var cs := StreamChunks(pieces);
    var hd := StreamHeader(L);
    var s := StreamEncodeSpec(c, p, L).written;
    assert s == hd + IdatStream(cs) + IendChunk;
    DecodeChunks(c, hd, cs, f);
    StreamHeaderLayout(L);
    Assoc(hd, IdatStream(cs), IendChunk);
    DecodeHeader(ImageWidth(L), ImageHeight(L), CrcField(IhdrType, IhdrData(ImageWidth(L), ImageHeight(L))),
                 L, Stream2TextCrc(L), IdatStream(cs) + IendChunk);
    DeframePayload(p, f, HeaderWidth(s));
  }

  /** A list of one IDAT chunk lays out that chunk and carries its data. */
  lemma SingleIdat(data: Bytes, crc: Int32)
    requires |data| <= Int32Max
    ensures ChunksSized([IdatChunk(data, crc)])
    ensures IdatStream([IdatChunk(data, crc)]) == RawChunkBytes(IdatType, data, crc)
    ensures IdatData([IdatChunk(data, crc)]) == data
  {
    var cs := [IdatChunk(data, crc)];
    assert cs[1..] == [];
    assert RawChunkBytes(IdatType, data, crc) + [] == RawChunkBytes(IdatType, data, crc);
    assert data + [] == data;
  }

  /**
   * After the 66 header bytes, IDAT chunks whose data together deflate `f`,
   * then IEND: the decoder gathers and inflates them back to `f`.
   */
  lemma DecodeChunks(c: Compressor, hd: Bytes, cs: seq<IdatChunk>, f: Bytes)
    requires Lossless(c) && |hd| == ChunksOffset && ChunksSized(cs)
    requires IdatData(cs) == c.deflate(f) && |IdatData(cs)| <= Int32Max && |f| <= Int32Max
    ensures Inflated(c, hd + IdatStream(cs) + IendChunk) == Success(f)
  {
    var s := hd + IdatStream(cs) + IendChunk;
    NoMore(IendChunk);
    CollectOfIdatStream(hd, cs, [], []);
    NoMore(IdatData(cs));
    InflatedOf(c, s, IdatData(cs), f);
  }

  /** The decoder's gathering and inflating, once the IDAT loop's result is known. */
  lemma InflatedOf(c: Compressor, s: Bytes, compressed: Bytes, f: Bytes)
    requires |s| >= ChunksOffset && CollectFrom(s, ChunksOffset, []) == Success(compressed)
    requires c.inflate(compressed) == Some(f) && |f| <= Int32Max
    ensures Inflated(c, s) == Success(f)
  {
    assert Skip(s, 0, ChunksOffset) == ChunksOffset;
  }

  /**
   * The deframe loop over the scanlines of `p` writes `p` and completes,
   * whenever the scanlines fit in an array.
   */
  lemma DeframePayload(p: Bytes, f: Bytes, width: Int32)
    requires f == FilteredPayload(p) && |p| <= Int32Max && |f| <= Int32Max
    requires width == ImageWidth(|p|)
    ensures DeframeFrom(f, 0, 0, Wrap32(width * 3), |p|) == Deframed(p, true)
  {
    if |p| == 0 {
      assert DeframeFrom(f, 0, 0, Wrap32(width * 3), 0) == Deframed([], true);
    } else {
      RowsWithinScanlines(p);
      assert Wrap32(width * 3) == RowLength(|p|);
      DeframeOfPayload(p);
    }
  }

  /**
   * The payload bytes of the rows, 3WH, and the bytes of one row, 3W, are
   * fewer than the scanline bytes, H(3W + 1).
   */
  lemma RowsWithinScanlines(p: Bytes)
    requires |p| >= 1
    ensures RowLength(|p|) * Height(|p|) <= |FilteredPayload(p)|
    ensures RowLength(|p|) < |FilteredPayload(p)|
  {
    var w, h := RowLength(|p|), Height(|p|);
    RowStreamOfPayload(p);
    GeometryBounds(|p|);
    FewerThanScanlines(w, h);
  }

  lemma FewerThanScanlines(w: nat, h: nat)
    requires h >= 1
    ensures w * h <= h * (w + 1) && w < h * (w + 1)
  {
    assert h * (w + 1) == h * w + h;
    assert h * w == (h - 1) * w + w;
  }
}
