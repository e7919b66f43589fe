/**
 * The PNG datastream pieces the encoders write (sections 5.2, 5.3 and 11.2
 * of the W3C PNG Specification, 2nd edition): the signature, chunks laid
 * out as length, type, data and CRC, and the byte templates of
 * PngEncoder.java:98-148 (the same at PngEncoderStream2.java:106-156) that
 * the encoders clone and patch.
 */
module PngLayout {
  import opened ByteOrder
  import opened Crc32

  /** The PNG signature (section 5.2). */
  const Signature: Bytes := [0x89, 0x50, 0x4E, 0x47, 0x0D, 0x0A, 0x1A, 0x0A]

  const IhdrType: Bytes := [0x49, 0x48, 0x44, 0x52]
  const SrgbType: Bytes := [0x73, 0x52, 0x47, 0x42]
  const TextType: Bytes := [0x74, 0x45, 0x58, 0x74]
  const IdatType: Bytes := [0x49, 0x44, 0x41, 0x54]
  const IendType: Bytes := [0x49, 0x45, 0x4E, 0x44]

  /** "N3RD", the tEXt data that marks an image made by these encoders. */
  const Magic: Bytes := [0x4E, 0x33, 0x52, 0x44]

  /** IHDR with length 13, type, zero width and height, depth 8, colour type 2, and a zero CRC field. */
  const IhdrTemplate: Bytes :=
    [0x00, 0x00, 0x00, 0x0D, 0x49, 0x48, 0x44, 0x52,
     0x00, 0x00, 0x00, 0x00, 0x00, 0x00, 0x00, 0x00,
     0x08, 0x02, 0x00, 0x00, 0x00, 0x00, 0x00, 0x00, 0x00]

  /** The sRGB chunk, complete with its CRC (rendering intent 0). */
  const SrgbChunk: Bytes :=
    [0x00, 0x00, 0x00, 0x01, 0x73, 0x52, 0x47, 0x42, 0x00, 0xAE, 0xCE, 0x1C, 0xE9]

  /** tEXt with length 8, type, and zeros for magic, payload length and CRC. */
  const TextTemplate: Bytes :=
    [0x00, 0x00, 0x00, 0x08, 0x74, 0x45, 0x58, 0x74,
     0x00, 0x00, 0x00, 0x00, 0x00, 0x00, 0x00, 0x00, 0x00, 0x00, 0x00, 0x00]

  /** The IEND chunk, complete with its CRC. */
  const IendChunk: Bytes := [0x00, 0x00, 0x00, 0x00, 0x49, 0x45, 0x4E, 0x44, 0xAE, 0x42, 0x60, 0x82]

  /** The CRC of a chunk as the `int` that `(int) crc32.getValue()` gives. */
  function CrcField(typ: Bytes, data: Bytes): Int32
  {
    CrcInt(Crc(typ + data))
  }

  /**
   * A chunk whose CRC field holds `crc` (section 5.3): the data length as a
   * big-endian 32-bit integer, the type, the data, the CRC field.
   */
  function RawChunkBytes(typ: Bytes, data: Bytes, crc: Int32): (r: Bytes)
    requires |data| <= Int32Max
    ensures |r| == |typ| + |data| + 8
  {
    IntBytesBE(|data|) + typ + data + IntBytesBE(crc)
  }

  /** A well-formed chunk: its CRC field is the CRC-32 of its type and data. */
  function ChunkBytes(typ: Bytes, data: Bytes): (r: Bytes)
    requires |data| <= Int32Max
    ensures |r| == |typ| + |data| + 8
  {
    RawChunkBytes(typ, data, CrcField(typ, data))
  }

  /** The 13 IHDR data bytes: width, height, bit depth 8, colour type 2 (truecolour), methods 0. */
  function IhdrData(w: Int32, h: Int32): Bytes
  {
    IntBytesBE(w) + IntBytesBE(h) + IhdrTail
  }

  /** The 8 tEXt data bytes: the magic and the payload length. */
  function TextData(length: Int32): Bytes
  {
    Magic + IntBytesBE(length)
  }

  /** `calculateChunkChecksum(chunk, offset, length)`: the CRC-32 of a slice, as an int. */
  function ChunkChecksum(chunk: Bytes, off: nat, len: nat): Int32
    requires off + len <= |chunk|
  {
    CrcInt(Crc(chunk[off..off + len]))
  }

  /** `System.arraycopy(src, 0, a, off, |src|)`. */
  method CopyInto(a: array<Byte>, off: nat, src: Bytes)
    requires off + |src| <= a.Length
    modifies a
    ensures a[..] == Overwrite(old(a[..]), off, src)
  {
    forall k | 0 <= k < |src| {
      a[off + k] := src[k];
    }
    assert a[..] == old(a[..off]) + src + old(a[off + |src|..]);
  }

  /**
   * The IHDR chunk as `encodeToPng` builds it (PngEncoder.java:225-231):
   * the template with width and height patched in and the CRC over bytes
   * 4..20, type and data, which makes it a well-formed 25-byte chunk.
   */
  method IhdrBytes(w: Int32, h: Int32) returns (r: Bytes)
    ensures r == ChunkBytes(IhdrType, IhdrData(w, h))
    ensures |r| == 25
  {
    var a := CloneBytes(IhdrTemplate);
    WriteIntBE(a, 8, w);
    WriteIntBE(a, 12, h);
    IhdrPatched(w, h);
    var crc := ChunkChecksum(a[..], 4, 17);
    PatchCrc(IntBytesBE(13), IhdrType, IhdrData(w, h), crc);
    WriteIntBE(a, 21, crc);
    r := a[..];
  }

  const IhdrTail: Bytes := [0x08, 0x02, 0x00, 0x00, 0x00]

  /** The template with width and height written is the chunk with a zero CRC field. */
  lemma IhdrPatched(w: Int32, h: Int32)
    ensures Overwrite(Overwrite(IhdrTemplate, 8, IntBytesBE(w)), 12, IntBytesBE(h))
         == IntBytesBE(13) + (IhdrType + IhdrData(w, h)) + IntBytesBE(0)
  {
    var z := IntBytesBE(0);
    var head := IntBytesBE(13) + IhdrType;
    IhdrTemplateParts();
    Patched(head, z, z + IhdrTail + z, IntBytesBE(w));
    assert head + IntBytesBE(w) + (z + IhdrTail + z) == (head + IntBytesBE(w)) + z + (IhdrTail + z);
    Patched(head + IntBytesBE(w), z, IhdrTail + z, IntBytesBE(h));
  }

  lemma IhdrTemplateParts()
    ensures var z := IntBytesBE(0);
      IhdrTemplate == IntBytesBE(13) + IhdrType + z + (z + IhdrTail + z)
  {
    IntBytesOfByte(13);
    IntBytesOfByte(0);
  }

  /**
   * A chunk with a zero CRC field whose checksum over type and data is
   * computed and written into that field becomes a well-formed chunk.
   */
  lemma PatchCrc(len: Bytes, typ: Bytes, data: Bytes, crc: Int32)
    requires |len| == 4 && |typ| == 4 && |data| <= Int32Max && len == IntBytesBE(|data|)
    requires crc == ChunkChecksum(len + (typ + data) + IntBytesBE(0), 4, |typ| + |data|)
    ensures Overwrite(len + (typ + data) + IntBytesBE(0), 4 + |typ| + |data|, IntBytesBE(crc))
         == ChunkBytes(typ, data)
  {
    ChecksumOfMiddle(len, typ + data, IntBytesBE(0));
    Patched(len + (typ + data), IntBytesBE(0), [], IntBytesBE(crc));
    assert len + (typ + data) + IntBytesBE(crc) + [] == len + typ + data + IntBytesBE(crc);
  }

  /** The checksum over the middle part `b` of `a + b + c` is the CRC-32 of `b`. */
  lemma ChecksumOfMiddle(a: Bytes, b: Bytes, c: Bytes)
    ensures ChunkChecksum(a + b + c, |a|, |b|) == CrcInt(Crc(b))
  {
    assert (a + b + c)[|a|..|a| + |b|] == b;
  }

  /**
   * The tEXt chunk as `encodeToPng` builds it (PngEncoder.java:239-245):
   * the magic and the payload length patched in, and the CRC over the 12
   * bytes of type and data, which makes it a well-formed 20-byte chunk.
   */
  method TextBytes(length: Int32) returns (r: Bytes)
    ensures r == ChunkBytes(TextType, TextData(length))
    ensures |r| == 20
  {
    var a := CloneBytes(TextTemplate);
    CopyInto(a, 8, Magic);
    WriteIntBE(a, 12, length);
    TextPatched(length);
    var crc := ChunkChecksum(a[..], 4, 12);
    PatchCrc(IntBytesBE(8), TextType, TextData(length), crc);
    WriteIntBE(a, 16, crc);
    r := a[..];
  }

  /** The template with magic and payload length written is the chunk with a zero CRC field. */
  lemma TextPatched(length: Int32)
    ensures Overwrite(Overwrite(TextTemplate, 8, Magic), 12, IntBytesBE(length))
         == IntBytesBE(8) + (TextType + TextData(length)) + IntBytesBE(0)
  {
    var z := IntBytesBE(0);
    var head := IntBytesBE(8) + TextType;
    TextTemplateParts();
    Patched(head, z, z + z, Magic);
    assert head + Magic + (z + z) == (head + Magic) + z + z;
    Patched(head + Magic, z, z, IntBytesBE(length));
  }

  lemma TextTemplateParts()
    ensures var z := IntBytesBE(0);
      TextTemplate == IntBytesBE(8) + TextType + z + (z + z)
  {
    IntBytesOfByte(8);
    IntBytesOfByte(0);
  }

  /** A chunk whose type and data have a known CRC-32 `c`. */
  lemma ChunkWithCrc(typ: Bytes, data: Bytes, c: bv32)
    requires |data| <= Int32Max && Crc(typ + data) == c
    ensures ChunkBytes(typ, data) == IntBytesBE(|data|) + typ + data + BE32(c as int)
  {
    IntBytesOfWrapped(c as int);
  }

  /** The fixed sRGB chunk carries the right CRC. */
  lemma SrgbChunkWellFormed()
    ensures SrgbChunk == ChunkBytes(SrgbType, [0x00])
  {
    assert SrgbType + [0x00] == [0x73, 0x52, 0x47, 0x42, 0x00];
    CrcOfSrgbChunk();
    ChunkWithCrc(SrgbType, [0x00], 0xAECE_1CE9);
    SrgbChunkParts();
  }

  lemma SrgbChunkParts()
    ensures SrgbChunk == IntBytesBE(1) + SrgbType + [0x00] + BE32(0xAECE_1CE9)
  {
    IntBytesOfByte(1);
  }

  /** The fixed IEND chunk carries the right CRC. */
  lemma IendChunkWellFormed()
    ensures IendChunk == ChunkBytes(IendType, [])
  {
    assert IendType + [] == [0x49, 0x45, 0x4E, 0x44];
    CrcOfIendType();
    ChunkWithCrc(IendType, [], 0xAE42_6082);
    IendChunkParts();
  }

  /** The CRC field of the fixed IEND chunk, 0xAE426082, as a Java int. */
  const IendCrcField: Int32 := 0xAE42_6082 - 0x1_0000_0000

  /** The fixed IEND chunk, laid out with its CRC field as a constant. */
  lemma IendChunkRaw()
    ensures IendChunk == RawChunkBytes(IendType, [], IendCrcField)
  {
    IntBytesOfByte(0);
    assert IntBytesBE(IendCrcField) == BE32(0xAE42_6082);
  }

  lemma IendChunkParts()
    ensures IendChunk == IntBytesBE(0) + IendType + [] + BE32(0xAE42_6082)
  {
    IntBytesOfByte(0);
  }

  /**
   * The tEXt chunk as the streaming encoder builds it
   * (PngEncoderStream2.java:267-273): the same patches, but the checksum is
   * taken over 16 bytes from offset 4, so it covers the still-zero CRC
   * field after type and data.
   */
  method TextBytesStream2(length: Int32) returns (r: Bytes)
    ensures r == RawChunkBytes(TextType, TextData(length), Stream2TextCrc(length))
    ensures |r| == 20
  {
    var a := CloneBytes(TextTemplate);
    CopyInto(a, 8, Magic);
    WriteIntBE(a, 12, length);
    TextPatched(length);
    var crc := ChunkChecksum(a[..], 4, 16);
    Stream2TextPatch(length, crc);
    WriteIntBE(a, 16, crc);
    r := a[..];
  }

  /** The value the streaming encoder puts in the tEXt CRC field. */
  function Stream2TextCrc(length: Int32): Int32
  {
    CrcInt(Crc(TextType + TextData(length) + IntBytesBE(0)))
  }

  /**
   * The streaming encoder's tEXt CRC field is not the CRC of section 5.5 of
   * the PNG specification: for a payload of length 0 it holds the CRC-32 of
   * the 16 bytes through the zero CRC field, 0x26CAFF09, where the CRC-32 of
   * type and data is 0xB5A3A549.
   */
  lemma Stream2TextCrcDiffers()
    ensures Stream2TextCrc(0) == 0x26CA_FF09
    ensures CrcField(TextType, TextData(0)) == 0xB5A3_A549 - 0x1_0000_0000
  {
    var a := TextType + TextData(0);
    assert a == [0x74, 0x45, 0x58, 0x74, 0x4E, 0x33, 0x52, 0x44, 0x00, 0x00, 0x00, 0x00];
    assert IntBytesBE(0) == [0x00, 0x00, 0x00, 0x00];
    CrcOfEmptyText(a, IntBytesBE(0));
  }

  lemma Stream2TextPatch(length: Int32, crc: Int32)
    requires crc == ChunkChecksum(IntBytesBE(8) + (TextType + TextData(length)) + IntBytesBE(0), 4, 16)
    ensures crc == Stream2TextCrc(length)
    ensures Overwrite(IntBytesBE(8) + (TextType + TextData(length)) + IntBytesBE(0), 16, IntBytesBE(crc))
         == RawChunkBytes(TextType, TextData(length), crc)
  {
    var a, b, z := IntBytesBE(8), TextType + TextData(length), IntBytesBE(0);
    ChecksumOfMiddle(a, b + z, []);
    assert a + (b + z) + [] == a + b + z;
    Patched(a + b, z, [], IntBytesBE(crc));
    assert a + b + z + [] == a + b + z;
    assert a + b + IntBytesBE(crc) + [] == a + TextType + TextData(length) + IntBytesBE(crc);
  }

  /**
   * The header both encoders write, with whatever CRC fields they computed:
   * the signature, IHDR with width `w` and height `h`, sRGB, and tEXt with
   * the identifier and payload length `l`.
   */
  function HeaderBytes(w: Int32, h: Int32, ihdrCrc: Int32, l: Int32, textCrc: Int32): (r: Bytes)
    ensures |r| == 66
  {
    Signature + RawChunkBytes(IhdrType, IhdrData(w, h), ihdrCrc) + SrgbChunk
      + RawChunkBytes(TextType, TextData(l), textCrc)
  }

  /** `PNG_CHUNK_IDAT_BEGIN`: a length field to patch, then the type "IDAT". */
  const IdatBeginTemplate: Bytes := [0x00, 0x00, 0x00, 0x00, 0x49, 0x44, 0x41, 0x54]

  /** `PNG_CHUNK_IDAT_END`: a CRC field to patch. */
  const IdatEndTemplate: Bytes := [0x00, 0x00, 0x00, 0x00]

  /**
   * The head of an IDAT chunk as both encoders build it (PngEncoder.java:284-288,
   * PngEncoderStream2.java:359-361): the template with the data size patched in.
   */
  method IdatBegin(size: Int32) returns (r: Bytes)
    ensures r == IntBytesBE(size) + IdatType
  {
    var a := CloneBytes(IdatBeginTemplate);
    WriteIntBE(a, 0, size);
    r := a[..];
    Patched([], IntBytesBE(0), IdatType, IntBytesBE(size));
  }

  /** The tail of an IDAT chunk: the template with the CRC patched in (PngEncoder.java:298-302). */
  method IdatEnd(crc: Int32) returns (r: Bytes)
    ensures r == IntBytesBE(crc)
  {
    var a := CloneBytes(IdatEndTemplate);
    WriteIntBE(a, 0, crc);
    r := a[..];
    Patched([], IntBytesBE(0), [], IntBytesBE(crc));
  }

  /** An IDAT chunk as written: its data and the value put in its CRC field. */
  datatype IdatChunk = IdatChunk(data: Bytes, crc: Int32)

  /** Every chunk's data fits a Java array, so its length field is exact. */
  predicate ChunksSized(cs: seq<IdatChunk>)
  {
    forall i :: 0 <= i < |cs| ==> |cs[i].data| <= Int32Max
  }

  /** The IDAT chunks laid out one after the other. */
  function IdatStream(cs: seq<IdatChunk>): Bytes
    requires ChunksSized(cs)
  {
    if cs == [] then []
    else RawChunkBytes(IdatType, cs[0].data, cs[0].crc) + IdatStream(cs[1..])
  }

  /** The data fields of the chunks, joined in order. */
  function IdatData(cs: seq<IdatChunk>): Bytes
  {
    if cs == [] then [] else cs[0].data + IdatData(cs[1..])
  }

  lemma {:induction false} IdatStreamSnoc(cs: seq<IdatChunk>, c: IdatChunk)
    requires ChunksSized(cs) && |c.data| <= Int32Max
    ensures ChunksSized(cs + [c])
    ensures IdatStream(cs + [c]) == IdatStream(cs) + RawChunkBytes(IdatType, c.data, c.crc)
  {
    if cs != [] {
      assert (cs + [c])[1..] == cs[1..] + [c];
      IdatStreamSnoc(cs[1..], c);
    }
  }

  lemma {:induction false} IdatDataSnoc(cs: seq<IdatChunk>, c: IdatChunk)
    ensures IdatData(cs + [c]) == IdatData(cs) + c.data
  {
    if cs == [] {
      assert [c][1..] == [];
    } else {
      assert (cs + [c])[1..] == cs[1..] + [c];
      IdatDataSnoc(cs[1..], c);
    }
  }
}
