/**
 * `encodeToPng(InputStream, int, OutputStream)` of
 * PngEncoderStream2.java:240-314: the same header and scanline stream as
 * PngEncoder.java, except that the tEXt checksum also covers the still-zero
 * CRC field, but the deflater writes through an
 * `IdatChunkEncoderOutputStream`, so the compressed data goes out as a run
 * of IDAT chunks of a little over 512 KiB each, then a last one from `close`.
 */
module PngEncoderStream2 {
  import opened ByteOrder
  import opened Results
  import opened Geometry
  import opened Compression
  import opened RowFraming
  import opened PngLayout
  import opened PngEncoder
  import opened IdatSplitter

  /** The signature and the IHDR, sRGB and tEXt chunks of the streaming encoder. */
  function StreamHeader(L: Int32): (r: Bytes)
    ensures |r| == 66
  {
    Signature + ChunkBytes(IhdrType, IhdrData(ImageWidth(L), ImageHeight(L))) + SrgbChunk
      + RawChunkBytes(TextType, TextData(L), Stream2TextCrc(L))
  }

  /**
   * What the splitter leaves after `hd` for the deflater's writes `pieces`:
   * the chunks it sent out and, when every write went through, the last
   * chunk from `close` and IEND.
   */
  function Chunked(hd: Bytes, pieces: seq<Bytes>): Outcome
  {
    var fed := Feed(Fresh, pieces);
    if fed.error.Some? then Outcome(hd + IdatStream(fed.state.chunks), fed.error)
    else Outcome(hd + IdatStream(CloseStep(fed.state).chunks) + IendChunk, None)
  }

  /**
   * What the streaming encoder leaves on the destination.  The deflater's
   * output is taken to reach the splitter when the deflater finishes, so a
   * failed row read leaves only the header.
   */
  function StreamEncodeSpec(c: Compressor, src: Bytes, L: Int32): Outcome
  {
    var hd := StreamHeader(L);
    match Filtered(src, L)
    case Failure(e) => Outcome(hd, Some(e))
    case Success(rows) => Chunked(hd, c.writes(rows))
  }

  /** The streaming encoder, writing to the destination piece by piece. */
  method EncodeToPngStream2(c: Compressor, src: Bytes, L: Int32) returns (o: Outcome)
    ensures o == StreamEncodeSpec(c, src, L)
  {
    var out := WriteHeader(L);
    var w := ImageWidth(L);
    var rows := ReadRows(src, BytesPerPixel * w, ImageHeight(L));
    if rows.Failure? {
      return Outcome(out, Some(rows.error));
    }
    o := WriteChunks(out, c.writes(rows.value));
  }

  /** The signature, then the patched IHDR, sRGB, and the patched tEXt. */
  method WriteHeader(L: Int32) returns (out: Bytes)
    ensures out == StreamHeader(L)
  {
    out := Signature;
    var ihdr := IhdrBytes(ImageWidth(L), ImageHeight(L));
    out := out + ihdr;
    out := out + SrgbChunk;
    var text := TextBytesStream2(L);
    out := out + text;
  }

  /**
   * The deflater's writes through a fresh `IdatChunkEncoderOutputStream`
   * over the destination holding `hd`, then `close` and IEND.
   */
  method WriteChunks(hd: Bytes, pieces: seq<Bytes>) returns (o: Outcome)
    ensures o == Chunked(hd, pieces)
  {
    var pngStream := new IdatChunkEncoderOutputStream(hd);
    var i := 0;
    while i < |pieces|
      invariant i <= |pieces|
      invariant pngStream.Valid() && pngStream.base == hd
      invariant Feed(Fresh, pieces[..i]) == Fed(pngStream.State(), None)
    {
      var piece := pieces[i];
      ghost var before := pngStream.State();
      FeedNext(pieces, i, before);
      assert piece[0..|piece|] == piece;
      var error := pngStream.Write(piece, 0, |piece|);
      if error.Some? {
        ChunkedAfterError(hd, pieces, i, before);
        return Outcome(pngStream.out, error);
      }
      i := i + 1;
    }
    ChunkedComplete(hd, pieces, pngStream.State());
    pngStream.Close();
    o := Outcome(pngStream.out + IendChunk, None);
  }

  /** The outcome when write `i` throws: the chunks sent out before it. */
  lemma ChunkedAfterError(hd: Bytes, pieces: seq<Bytes>, i: nat, before: Splitter)
    requires i < |pieces| && Feed(Fresh, pieces[..i + 1]) == Fed(before, Some(ArrayTooLarge))
    ensures Chunked(hd, pieces) == Outcome(hd + IdatStream(before.chunks), Some(ArrayTooLarge))
  {
    FeedAfterError(Fresh, pieces, i + 1);
  }

  /** The outcome when every write goes through. */
  lemma ChunkedComplete(hd: Bytes, pieces: seq<Bytes>, st: Splitter)
    requires Feed(Fresh, pieces[..|pieces|]) == Fed(st, None)
    ensures Chunked(hd, pieces) == Outcome(hd + IdatStream(CloseStep(st).chunks) + IendChunk, None)
  {
    assert pieces[..|pieces|] == pieces;
  }

  /** The IDAT chunks written when every write goes through, the one from `close` last. */
  function StreamChunks(pieces: seq<Bytes>): (cs: seq<IdatChunk>)
    ensures ChunksSized(cs)
  {
    CloseStep(Feed(Fresh, pieces).state).chunks
  }

  /**
   * What the streaming encoder writes: after a failed row read, the header
   * and nothing more; otherwise, for writes as `DeflaterOutputStream` makes
   * them, the header, the IDAT chunks of `StreamChunks`, and IEND.
   */
  lemma StreamEncodeShape(c: Compressor, src: Bytes, L: Int32)
    requires WritesCover(c)
    ensures var o := StreamEncodeSpec(c, src, L);
      o.error.Some? ==> Filtered(src, L).Failure? && o == Outcome(StreamHeader(L), Some(Filtered(src, L).error))
    ensures var o := StreamEncodeSpec(c, src, L);
      o.error == None ==>
        (Filtered(src, L).Success?
         && o.written == StreamHeader(L) + IdatStream(StreamChunks(c.writes(Filtered(src, L).value))) + IendChunk)
  {
    if Filtered(src, L).Success? {
      StreamChunksWellFormed(c.writes(Filtered(src, L).value));
    }
  }

  /**
   * For writes of 1 to 512 bytes none throws, and the chunks carry all the
   * bytes written, in order; every chunk's CRC field is the CRC-32 of "IDAT"
   * and its data, except for a last chunk without data, whose field is 0;
   * and every chunk but the last holds between 512 KiB + 1 and
   * 512 KiB + 512 bytes.
   */
  lemma StreamChunksWellFormed(pieces: seq<Bytes>)
    requires PiecesSized(pieces)
    ensures Feed(Fresh, pieces).error == None
    ensures var cs := StreamChunks(pieces);
      |cs| >= 1 && IdatData(cs) == Flatten(pieces)
      && (forall i :: 0 <= i < |cs| ==> ChunkCrcOk(cs[i]))
      && WriteSized(cs[..|cs| - 1])
  {
    FeedSizes(pieces);
    FeedLossless(pieces);
    FeedCrc(pieces);
    var st := Feed(Fresh, pieces).state;
    CloseLossless(st);
    EmitCrc(st);
    var cs := StreamChunks(pieces);
    assert cs[..|cs| - 1] == st.chunks;
  }

  /** The header the streaming encoder writes is the one the decoder reads. */
  lemma StreamHeaderLayout(L: Int32)
    ensures StreamHeader(L)
         == HeaderBytes(ImageWidth(L), ImageHeight(L), CrcField(IhdrType, IhdrData(ImageWidth(L), ImageHeight(L))),
                        L, Stream2TextCrc(L))
  {
  }
}
