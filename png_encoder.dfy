/**
 * `encodeToPng(InputStream, int, OutputStream)` of PngEncoder.java:212-309:
 * the signature, the IHDR, sRGB and tEXt chunks, one IDAT chunk holding the
 * whole deflated scanline stream, and IEND.  The payload stream is a
 * byte-array stream over `src`, and `L` is the length the caller declares
 * for it.
 */
module PngEncoder {
  import opened ByteOrder
  import opened Crc32
  import opened Results
  import opened Geometry
  import opened Compression
  import opened RowFraming
  import opened PngLayout

  /** IHDR, sRGB and tEXt for a payload of declared length `L`, each with its CRC. */
  function EncodedHeader(L: Int32): (r: Bytes)
    ensures |r| == 66
  {
    Signature + ChunkBytes(IhdrType, IhdrData(ImageWidth(L), ImageHeight(L))) + SrgbChunk
      + ChunkBytes(TextType, TextData(L))
  }

  /** The scanline stream the row loop hands to the deflater. */
  function Filtered(src: Bytes, L: Int32): Result<Bytes>
  {
    RowStream(src, BytesPerPixel * ImageWidth(L), ImageHeight(L))
  }

  /**
   * What `encodeToPng` leaves on the destination: the header, then (when
   * every row read finds data and the compressed bytes fit an array) one
   * IDAT chunk with all of them and the IEND chunk.  The deflater writes to
   * an in-memory buffer, so a failed row read leaves only the header behind.
   */
  function EncodeSpec(c: Compressor, src: Bytes, L: Int32): Outcome
  {
    var hd := EncodedHeader(L);
    match Filtered(src, L)
    case Failure(e) => Outcome(hd, Some(e))
    case Success(rows) =>
      var comp := c.deflate(rows);
      if |comp| > Int32Max then Outcome(hd, Some(ArrayTooLarge))
      else Outcome(hd + ChunkBytes(IdatType, comp) + IendChunk, None)
  }

  /** The encoder, writing to the destination piece by piece. */
  method EncodeToPng(c: Compressor, src: Bytes, L: Int32) returns (o: Outcome)
    ensures o == EncodeSpec(c, src, L)
  {
    var out := Signature;
    var w := ImageWidth(L);
    var h := ImageHeight(L);
    var ihdr := IhdrBytes(w, h);
    out := out + ihdr;
    out := out + SrgbChunk;
    var text := TextBytes(L);
    out := out + text;
    assert out == EncodedHeader(L);
    var rows := ReadRows(src, BytesPerPixel * w, h);
    if rows.Failure? {
      return Outcome(out, Some(rows.error));
    }
    var comp := c.deflate(rows.value);
    if |comp| > Int32Max {
      return Outcome(out, Some(ArrayTooLarge));
    }
    var begin := IdatBegin(|comp|);
    var crc := CrcUpdate(CrcUpdate(0, IdatType), comp);
    var end := IdatEnd(CrcInt(crc));
    IdatChunkOfParts(comp, crc);
    Append3(out, begin, comp, end);
    out := out + begin;
    out := out + comp;
    out := out + end;
    out := out + IendChunk;
    o := Outcome(out, None);
  }

  /**
   * The IDAT chunk assembled from the patched head, the data, and the CRC
   * that a fresh `CRC32` gives after "IDAT" and the data is well-formed.
   */
  lemma IdatChunkOfParts(comp: Bytes, crc: bv32)
    requires |comp| <= Int32Max && crc == CrcUpdate(CrcUpdate(0, IdatType), comp)
    ensures IntBytesBE(|comp|) + IdatType + comp + IntBytesBE(CrcInt(crc)) == ChunkBytes(IdatType, comp)
  {
    CrcOfEmpty();
    CrcAppend([], IdatType);
    assert [] + IdatType == IdatType;
    CrcAppend(IdatType, comp);
  }

  /**
   * Every chunk the encoder writes is well-formed, with the CRC of its type
   * and data in its CRC field: after the signature come IHDR, sRGB, tEXt,
   * exactly one IDAT with all the compressed data, and IEND.  An encoding
   * that fails leaves the three header chunks and nothing more.
   */
  lemma EncodeWellFormed(c: Compressor, src: Bytes, L: Int32)
    ensures var o := EncodeSpec(c, src, L);
      o.error.Some? ==> o.written == EncodedHeader(L)
    ensures var o := EncodeSpec(c, src, L);
      o.error == None ==>
        (Filtered(src, L).Success? && |c.deflate(Filtered(src, L).value)| <= Int32Max
         && o.written
            == Signature
               + ChunkBytes(IhdrType, IhdrData(ImageWidth(L), ImageHeight(L)))
               + ChunkBytes(SrgbType, [0])
               + ChunkBytes(TextType, TextData(L))
               + ChunkBytes(IdatType, c.deflate(Filtered(src, L).value))
               + ChunkBytes(IendType, []))
  {
    SrgbChunkWellFormed();
    IendChunkWellFormed();
  }

  /**
   * The header the encoder writes is the one the decoder reads: width,
   * height and payload length in the places `HeaderBytes` gives them.
   */
  lemma EncodedHeaderLayout(L: Int32)
    ensures EncodedHeader(L)
         == HeaderBytes(ImageWidth(L), ImageHeight(L), CrcField(IhdrType, IhdrData(ImageWidth(L), ImageHeight(L))),
                        L, CrcField(TextType, TextData(L)))
  {
  }

  /**
   * With the declared length equal to the stream's, every row read finds
   * data, and the scanline stream is the framed payload (for an empty
   * payload, the single stray zero byte of an image without rows).
   */
  lemma FilteredOfPayload(p: Bytes)
    requires |p| <= Int32Max
    ensures Filtered(p, |p|) == Success(FilteredPayload(p))
  {
    if |p| >= 1 {
      RowStreamOfPayload(p);
    }
  }

  /** The scanline stream of a correctly declared payload. */
  function FilteredPayload(p: Bytes): Bytes
  {
    if |p| == 0 then Zeros(1) else Frame(p, RowLength(|p|), Height(|p|))
  }
}
