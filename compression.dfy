/**
 * The zlib codec of `java.util.zip` (a `Deflater` at level 1 with the
 * FILTERED strategy behind a `DeflaterOutputStream`, and an
 * `InflaterOutputStream` for decoding; RFC 1950 and RFC 1951) is foreign
 * code.  It enters the model as a value: what deflate makes of a byte
 * string, what inflate makes of one (nothing when the data is corrupt), and
 * how `DeflaterOutputStream` cuts the compressed bytes into the
 * `write(buf, 0, len)` calls it makes on the stream below it.
 */
module Compression {
  import opened ByteOrder
  import opened Results

  /** `DeflaterOutputStream`'s default buffer: no write to the stream below is longer. */
  const DeflateBufferSize: nat := 512

  datatype Compressor = Compressor(
    deflate: Bytes -> Bytes,
    inflate: Bytes -> Option<Bytes>,
    writes: Bytes -> seq<Bytes>)

  /** Inflating what was deflated gives the input back (the zlib round trip). */
  ghost predicate Lossless(c: Compressor)
  {
    forall s: Bytes :: c.inflate(c.deflate(s)) == Some(s)
  }

  /**
   * The writes of `DeflaterOutputStream` carry the compressed bytes in order,
   * and each is non-empty and at most one buffer long (`deflate()` writes
   * only when the deflater produced something).
   */
  ghost predicate WritesCover(c: Compressor)
  {
    forall s: Bytes :: Flatten(c.writes(s)) == c.deflate(s) && PiecesSized(c.writes(s))
  }

  predicate PiecesSized(ps: seq<Bytes>)
  {
    forall i :: 0 <= i < |ps| ==> 0 < |ps[i]| <= DeflateBufferSize
  }

  /** The cut of `s` into consecutive buffers of at most 512 bytes. */
  function Pieces(s: Bytes): (ps: seq<Bytes>)
    ensures PiecesSized(ps)
    decreases |s|
  {
    if s == [] then []
    else
      var n := if |s| <= DeflateBufferSize then |s| else DeflateBufferSize;
      [s[..n]] + Pieces(s[n..])
  }

  lemma {:induction false} FlattenPieces(s: Bytes)
    ensures Flatten(Pieces(s)) == s
    decreases |s|
  {
    if s != [] {
      var n := if |s| <= DeflateBufferSize then |s| else DeflateBufferSize;
      FlattenPieces(s[n..]);
      FlattenAppend([s[..n]], Pieces(s[n..]));
      assert Flatten([s[..n]]) == s[..n] by {
        assert [s[..n]][..0] == [];
      }
      assert s[..n] + s[n..] == s;
    }
  }

  /** A stored (uncompressed) codec: it shows that the two assumptions can hold together. */
  function Stored(): Compressor
  {
    Compressor(s => s, s => Some(s), Pieces)
  }

  lemma StoredIsLossless()
    ensures Lossless(Stored()) && WritesCover(Stored())
  {
    forall s: Bytes
      ensures Flatten(Stored().writes(s)) == Stored().deflate(s)
    {
      FlattenPieces(s);
    }
  }
}
