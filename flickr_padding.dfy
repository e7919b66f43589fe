/**
 * The padding FlickrTransferManager.java puts around the codec: an upload
 * prepends 17 * 17 * 3 zero bytes to the file before encoding it
 * (lines 178-188), and a download decodes the image and writes out what
 * follows those bytes (lines 154-157).
 */
module FlickrPadding {
  import opened ByteOrder
  import opened Results
  import opened Compression
  import opened PngDecoder
  import opened PngEncoder
  import opened RoundTrip

  /** `FLICKR_MIN_IMAGE_BYTES`: enough bytes for an image of at least 17 by 17 pixels. */
  const FlickrMinImageBytes: nat := 17 * 17 * 3

  /** The payload an upload encodes: the zero padding, then the file. */
  function Padded(file: Bytes): (r: Bytes)
    ensures |r| == FlickrMinImageBytes + |file|
  {
    Zeros(FlickrMinImageBytes) + file
  }

  /**
   * What a download writes: the decoded bytes after the padding.  Fewer
   * decoded bytes than the padding make `write(b, off, len)` throw on its
   * negative length.
   */
  function Stripped(decoded: Bytes): (r: Option<Bytes>)
    ensures r.Some? <==> |decoded| >= FlickrMinImageBytes
    ensures r.Some? ==> decoded == decoded[..FlickrMinImageBytes] + r.value
  {
    if |decoded| < FlickrMinImageBytes then None else Some(decoded[FlickrMinImageBytes..])
  }

  /** Stripping undoes padding. */
  lemma StripOfPad(file: Bytes)
    ensures Stripped(Padded(file)) == Some(file)
  {
    assert Padded(file)[FlickrMinImageBytes..] == file;
  }

  /**
   * A file uploaded and downloaded again comes back unchanged, as long as
   * the zlib codec is lossless and every intermediate array fits.
   */
  lemma DownloadOfUpload(c: Compressor, file: Bytes)
    requires Lossless(c) && FitsArrays(c, Padded(file))
    ensures var image := EncodeSpec(c, Padded(file), |Padded(file)|);
      image.error == None && DecodeSpec(c, image.written).error == None
      && Stripped(DecodeSpec(c, image.written).written) == Some(file)
  {
    DecodeOfEncode(c, Padded(file));
    StripOfPad(file);
  }
}
