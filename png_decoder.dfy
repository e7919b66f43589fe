/**
 * `decodeFromPng` (PngEncoder.java:388-465, and the three-argument variant
 * at PngEncoderStream2.java:497-577).  The decoder does not parse the
 * header chunks: it skips to fixed offsets, reads the image width from IHDR
 * and the "N3RD" identifier and payload length from tEXt, gathers the data
 * of the IDAT chunks that follow, inflates it and copies the payload bytes
 * out of the scanlines.  CRC fields are read and ignored.
 */
module PngDecoder {
  import opened ByteOrder
  import opened Results
  import opened Compression
  import opened PngLayout
  import opened PngReader
  import opened RowFraming

  /** Offset of the IHDR width field: signature, IHDR length and type. */
  const WidthOffset: nat := 16
  /** Offset of the tEXt identifier: the width, the rest of IHDR, sRGB, the tEXt length and type. */
  const MagicOffset: nat := 54
  /** Offset of the tEXt payload length field. */
  const LengthOffset: nat := 58
  /** Offset of the first chunk after tEXt. */
  const ChunksOffset: nat := 66

  /** The image width as the decoder reads it. */
  function HeaderWidth(s: Bytes): Int32
  {
    ToIntBE(Field(s, Skip(s, 0, WidthOffset), 4), 0)
  }

  /** The four bytes the decoder compares with "N3RD". */
  function MagicField(s: Bytes): (r: Bytes)
    ensures |r| == 4
  {
    Field(s, Skip(s, 0, MagicOffset), 4)
  }

  /** The payload length as the decoder reads it. */
  function PayloadLength(s: Bytes): Int32
  {
    ToIntBE(Field(s, Skip(s, 0, LengthOffset), 4), 0)
  }

  /**
   * The compressed data gathered from the IDAT chunks after the header,
   * inflated: the filtered scanlines, or the error that stopped the decoder
   * before it wrote anything.
   */
  function Inflated(c: Compressor, s: Bytes): (r: Result<Bytes>)
    ensures r.Success? ==> |r.value| <= Int32Max
  {
    match CollectFrom(s, Skip(s, 0, ChunksOffset), [])
    case Failure(e) => Failure(e)
    case Success(compressed) =>
      match c.inflate(compressed)
      case None => Failure(CorruptCompressedData)
      case Some(f) => if |f| > Int32Max then Failure(ArrayTooLarge) else Success(f)
  }

  /** What the deframe loop leaves on the destination stream. */
  function Emitted(d: Deframed): Outcome
  {
    Outcome(d.written, if d.complete then None else Some(RowOutOfBounds))
  }

  /**
   * The decoder's effect on its destination stream, given the datastream
   * `s`: nothing unless the identifier matches and the IDAT data is gathered
   * and inflated; then the payload bytes of each row in turn, up to the row
   * that reaches past the inflated data, if any.
   */
  function DecodeSpec(c: Compressor, s: Bytes): Outcome
  {
    if MagicField(s) != Magic then Outcome([], Some(BadMagic))
    else
      match Inflated(c, s)
      case Failure(e) => Outcome([], Some(e))
      case Success(f) => Emitted(DeframeFrom(f, 0, 0, Wrap32(HeaderWidth(s) * 3), PayloadLength(s)))
  }

  /** Skipping twice from `pos` is skipping the sum. */
  lemma SkipSkip(s: Bytes, pos: nat, a: nat, b: nat)
    requires pos <= |s|
    ensures Skip(s, Skip(s, pos, a), b) == Skip(s, pos, a + b)
  {
  }

  /**
   * The decoder of PngEncoder.java:388-465.  The destination is closed
   * after a decode that ends without an error.
   */
  method DecodeFromPng(c: Compressor, s: Bytes) returns (o: Outcome, destClosed: bool)
    ensures o == DecodeSpec(c, s)
    ensures destClosed <==> o.error == None
  {
    o := Decode(c, s);
    destClosed := o.error == None;
  }

  /**
   * The variant of PngEncoderStream2.java:497-577: the same decoding, and
   * the destination is closed only when `closeDestStream` asks for it.
   */
  method DecodeFromPngStream2(c: Compressor, s: Bytes, closeDestStream: bool) returns (o: Outcome, destClosed: bool)
    ensures o == DecodeSpec(c, s)
    ensures destClosed <==> closeDestStream && o.error == None
  {
    o := Decode(c, s);
    destClosed := closeDestStream && o.error == None;
  }

  /** The decoding shared by both variants, as the statements run. */
  method Decode(c: Compressor, s: Bytes) returns (o: Outcome)
    ensures o == DecodeSpec(c, s)
  {
    var imageWidth, magic, payloadLength, pos := ReadHeader(s);
    if magic != Magic {
      return Outcome([], Some(BadMagic));
    }
    var filtered := GatherAndInflate(c, s, pos);
    if filtered.Failure? {
      return Outcome([], Some(filtered.error));
    }
    var d := Deframe(filtered.value, imageWidth, payloadLength);
    o := Emitted(d);
  }

  /**
   * The header reads: skip the signature and the IHDR length and type, read
   * the width, skip the rest of IHDR and all of sRGB and the tEXt length and
   * type, read the identifier and the payload length, skip the tEXt CRC.
   */
  method ReadHeader(s: Bytes) returns (imageWidth: Int32, magic: Bytes, payloadLength: Int32, pos: nat)
    ensures imageWidth == HeaderWidth(s) && magic == MagicField(s) && payloadLength == PayloadLength(s)
    ensures pos == Skip(s, 0, ChunksOffset)
  {
    pos := Skip(s, 0, 8);
    pos := Skip(s, pos, 8);
    SkipSkip(s, 0, 8, 8);
    assert pos == Skip(s, 0, WidthOffset);
    imageWidth := ToIntBE(Field(s, pos, 4), 0);
    pos := Skip(s, pos, 4);
    SkipSkip(s, 0, 16, 4);
    pos := Skip(s, pos, 4 + 1 + 1 + 1 + 1 + 1 + 4);
    SkipSkip(s, 0, 20, 13);
    pos := Skip(s, pos, 13);
    SkipSkip(s, 0, 33, 13);
    pos := Skip(s, pos, 8);
    SkipSkip(s, 0, 46, 8);
    assert pos == Skip(s, 0, MagicOffset);
    magic := Field(s, pos, 4);
    pos := Skip(s, pos, 4);
    SkipSkip(s, 0, 54, 4);
    assert pos == Skip(s, 0, LengthOffset);
    payloadLength := ToIntBE(Field(s, pos, 4), 0);
    pos := Skip(s, pos, 4);
    SkipSkip(s, 0, 58, 4);
    pos := Skip(s, pos, 4);
    SkipSkip(s, 0, 62, 4);
  }

  /** The IDAT loop, then the inflater over everything it gathered. */
  method GatherAndInflate(c: Compressor, s: Bytes, pos: nat) returns (r: Result<Bytes>)
    requires pos == Skip(s, 0, ChunksOffset)
    ensures r == Inflated(c, s)
  {
    var collected := CollectIdat(s, pos);
    if collected.Failure? {
      return Failure(collected.error);
    }
    var inflated := c.inflate(collected.value);
    if inflated.None? {
      return Failure(CorruptCompressedData);
    }
    if |inflated.value| > Int32Max {
      return Failure(ArrayTooLarge);
    }
    r := Success(inflated.value);
  }

  /**
   * The identifier check: the decoder fails with `BadMagic`, having written
   * nothing, exactly when the stream is shorter than 58 bytes or bytes
   * 54..57 are not "N3RD".
   */
  lemma DecodeRejects(c: Compressor, s: Bytes)
    ensures DecodeSpec(c, s).error == Some(BadMagic)
        <==> |s| < LengthOffset || s[MagicOffset..LengthOffset] != Magic
    ensures DecodeSpec(c, s).error == Some(BadMagic) ==> DecodeSpec(c, s).written == []
  {
    MagicMismatch(s);
    InflatedNeverBadMagic(c, s);
    if MagicField(s) == Magic {
      var inflated := Inflated(c, s);
      if inflated.Failure? {
        assert DecodeSpec(c, s) == Outcome([], Some(inflated.error));
      } else {
        var width := Wrap32(HeaderWidth(s) * 3);
        assert DecodeSpec(c, s) == Emitted(DeframeFrom(inflated.value, 0, 0, width, PayloadLength(s)));
      }
    }
  }

  /** The identifier read differs from "N3RD" when the stream is too short or holds other bytes there. */
  lemma MagicMismatch(s: Bytes)
    ensures MagicField(s) != Magic <==> |s| < LengthOffset || s[MagicOffset..LengthOffset] != Magic
  {
    if |s| < LengthOffset {
      assert MagicField(s)[3] == 0 by {
        FieldInFull(s, Skip(s, 0, MagicOffset), 4);
      }
      assert Magic[3] != 0;
    }
  }

  lemma InflatedNeverBadMagic(c: Compressor, s: Bytes)
    ensures Inflated(c, s).Failure? ==> Inflated(c, s).error != BadMagic
  {
    var collected := CollectFrom(s, Skip(s, 0, ChunksOffset), []);
    CollectNeverBadMagic(s, Skip(s, 0, ChunksOffset), []);
    if collected.Failure? {
      assert Inflated(c, s) == Failure(collected.error);
    } else if c.inflate(collected.value).None? {
      assert Inflated(c, s) == Failure(CorruptCompressedData);
    }
  }

  /** Gathering the IDAT data never fails with `BadMagic`. */
  lemma {:induction false} CollectNeverBadMagic(s: Bytes, pos: nat, acc: Bytes)
    requires pos <= |s|
    ensures CollectFrom(s, pos, acc).Failure? ==> CollectFrom(s, pos, acc).error != BadMagic
    decreases |s| - pos
  {
    var r := ReadChunk(s, pos);
    if r.Success? && r.value.chunk.kind == IdatType && |acc| + r.value.chunk.size <= Int32Max {
      CollectNeverBadMagic(s, r.value.next, acc + r.value.chunk.data);
    }
  }

  /**
   * A decode that ends without an error has written exactly as many bytes
   * as the tEXt chunk's payload length says (none for a length of zero or
   * less).
   */
  lemma DecodeWritesPayloadLength(c: Compressor, s: Bytes)
    ensures var o := DecodeSpec(c, s);
      o.error == None ==> |o.written| == (if PayloadLength(s) > 0 then PayloadLength(s) else 0)
  {
    if MagicField(s) == Magic && Inflated(c, s).Success? {
      var f, w, L := Inflated(c, s).value, Wrap32(HeaderWidth(s) * 3), PayloadLength(s);
      DecodeOfInflated(c, s);
      DeframeCount(f, 0, 0, w, L);
      assert Counted(DeframeFrom(f, 0, 0, w, L), 0, L);
    } else {
      DecodeStopsEarly(c, s);
    }
  }

  lemma DecodeOfInflated(c: Compressor, s: Bytes)
    requires MagicField(s) == Magic && Inflated(c, s).Success?
    ensures DecodeSpec(c, s) == Emitted(DeframeFrom(Inflated(c, s).value, 0, 0, Wrap32(HeaderWidth(s) * 3), PayloadLength(s)))
  {
  }

  lemma DecodeStopsEarly(c: Compressor, s: Bytes)
    requires !(MagicField(s) == Magic && Inflated(c, s).Success?)
    ensures DecodeSpec(c, s).error != None
  {
  }

  /** The fields the decoder reads sit where it reads them. */
  lemma HeaderLayout(w: Int32, h: Int32, ihdrCrc: Int32, l: Int32, textCrc: Int32)
    ensures var hd := HeaderBytes(w, h, ihdrCrc, l, textCrc);
      hd[WidthOffset..WidthOffset + 4] == IntBytesBE(w)
      && hd[MagicOffset..LengthOffset] == Magic
      && hd[LengthOffset..LengthOffset + 4] == IntBytesBE(l)
  {
    var ihdr := RawChunkBytes(IhdrType, IhdrData(w, h), ihdrCrc);
    var text := RawChunkBytes(TextType, TextData(l), textCrc);
    var front := Signature + ihdr + SrgbChunk;
    assert ihdr[8..12] == IntBytesBE(w);
    assert text[8..12] == Magic && text[12..16] == IntBytesBE(l);
    assert |front| == 46;
    Within(Signature, ihdr, SrgbChunk, 8, 12);
    Within(front, text, [], 8, 12);
    Within(front, text, [], 12, 16);
  }

  lemma Within(pre: Bytes, x: Bytes, post: Bytes, i: nat, j: nat)
    requires i <= j <= |x|
    ensures (pre + x + post)[|pre| + i..|pre| + j] == x[i..j]
  {
  }

  /**
   * Whatever the CRC fields hold and whatever follows the header, the
   * decoder reads back the width and payload length the encoder wrote,
   * accepts the identifier, and starts on the chunks at offset 66.
   */
  lemma DecodeHeader(w: Int32, h: Int32, ihdrCrc: Int32, l: Int32, textCrc: Int32, rest: Bytes)
    ensures var s := HeaderBytes(w, h, ihdrCrc, l, textCrc) + rest;
      HeaderWidth(s) == w && MagicField(s) == Magic && PayloadLength(s) == l
      && Skip(s, 0, ChunksOffset) == ChunksOffset
  {
    var hd := HeaderBytes(w, h, ihdrCrc, l, textCrc);
    var s := hd + rest;
    HeaderLayout(w, h, ihdrCrc, l, textCrc);
    assert s[WidthOffset..WidthOffset + 4] == IntBytesBE(w);
    assert s[MagicOffset..LengthOffset] == Magic;
    assert s[LengthOffset..LengthOffset + 4] == IntBytesBE(l);
    IntOfBytes(w);
    IntOfBytes(l);
  }
}
