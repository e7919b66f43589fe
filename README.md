# PNG steganographic codec of the Syncany Flickr plugin, in Dafny

The Flickr storage plugin stores arbitrary files as PNG images. `PngEncoder`
writes a payload of `L` bytes as a 24-bit truecolour image. The image is about
`sqrt(L/3)` pixels wide. Each pixel row is preceded by filter byte 0, the last
row is zero-padded, and the whole is deflated into one IDAT chunk. A tEXt chunk
carries the identifier "N3RD" and the payload length. `decodeFromPng` jumps to
fixed header offsets and checks the identifier. It then gathers and inflates the
IDAT data and copies the payload bytes back out of the rows.

`PngEncoderStream2` is a streaming variant with three differences:

- Its deflater writes through an `IdatChunkEncoderOutputStream`.
- That stream cuts the compressed data into IDAT chunks of a little over 512 KiB.
- Its tEXt checksum covers 16 bytes instead of 12.

`FlickrTransferManager` pads every upload with 867 zero bytes and strips them
again on download.

The project models these pieces:

- `ByteOrder`: bytes, Java `int` arithmetic, `writeIntBE` and `toIntBE`.
- `Crc32`: the CRC-32 of chunks and `java.util.zip.CRC32`.
- `Results`: the exceptions as error values.
- `Geometry`: image width and height.
- `Compression`: the zlib codec as a parameter.
- `RowFraming`: the row loop of the encoder and the deframe loop of the decoder.
- `PngLayout`: signature, chunk layout, and the byte templates with their patching.
- `PngReader`: `readChunk` and the IDAT loop over a byte-array input stream.
- `PngDecoder`: both `decodeFromPng` variants.
- `PngEncoder`: the one-IDAT encoder.
- `IdatSplitter`: `IdatChunkEncoderOutputStream`, as a value-level state machine
  and as a class proved to follow it.
- `PngEncoderStream2`: the streaming encoder.
- `RoundTrip`: decode after encode, for both encoders.
- `FlickrPadding`: the upload padding and the download stripping.

Every error the code throws is an error value. The one-IDAT encoder's outcome
keeps the bytes it had already written to the destination when it failed. The
streaming encoder's failed outcome keeps only the header; see "Left out" for the
IDAT chunks it may already have flushed.

Source paths below are relative to the repository root. Throughout:

- `P` is `src/main/java/org/syncany/plugins/flickr/PngEncoder.java`.
- `S` is `src/main/java/org/syncany/plugins/flickr/util/PngEncoderStream2.java`.
- `F` is `src/main/java/org/syncany/plugins/flickr/FlickrTransferManager.java`.

Where the code and the code's own comments disagree, the model follows the code:

- `writeIntBE` and `toIntBE` are documented as little endian but are big endian.
- The streaming encoder's tEXt CRC also covers the zero CRC field. This is shown at
  `PngLayout.Stream2TextCrcDiffers`.

## Model

| member | source | states |
|---|---|---|
| ByteOrder.ToIntBE | src/main/java/org/syncany/plugins/flickr/PngEncoder.java:513-518 | the int read has the four bytes, most significant first, as its 32-bit pattern, and is negative exactly when the first byte is 0x80 or more |
| ByteOrder.WriteIntBE | src/main/java/org/syncany/plugins/flickr/PngEncoder.java:503-508 | the array afterwards is the old one with exactly the four bytes at the offset replaced by the big-endian pattern of the value; every other byte is unchanged |
| ByteOrder.ToIntBEOfIntBytes | src/main/java/org/syncany/plugins/flickr/util/PngEncoderStream2.java:615-630 | `toIntBE` at the offset reads back every int `writeIntBE` stored there, whatever surrounds the four bytes |
| ByteOrder.IntBytesOfToIntBE | src/main/java/org/syncany/plugins/flickr/util/PngEncoderStream2.java:625-630 | converse round trip: writing back the int read from four bytes restores those bytes |
| ByteOrder.IntBytesOfWrapped | src/main/java/org/syncany/plugins/flickr/PngEncoder.java:299-301 | `(int) crc32.getValue()` written with `writeIntBE` gives the four big-endian bytes of the unsigned CRC |
| ByteOrder.Add32Sub32Wrap | src/main/java/org/syncany/plugins/flickr/PngEncoder.java:456-459 | the `int` sums of the deframe loop wrap exactly like Java two's-complement arithmetic |
| Crc32.CrcAppend | src/main/java/org/syncany/plugins/flickr/PngEncoder.java:294-296 | feeding `b` to a `CRC32` that holds the CRC of `a` gives the CRC of `a + b`: incremental updates equal one CRC over everything |
| Crc32.CrcUpdateAppend | src/main/java/org/syncany/plugins/flickr/util/PngEncoderStream2.java:341-345 | two `CRC32.update` calls in a row equal one update with both byte strings, whatever the register held |
| Crc32.CrcOfEmpty | src/main/java/org/syncany/plugins/flickr/util/PngEncoderStream2.java:371 | a fresh or reset `CRC32` holds 0, the CRC of no bytes |
| Crc32.CrcOfEmptyText | src/main/java/org/syncany/plugins/flickr/util/PngEncoderStream2.java:272 | for payload length 0 the CRC of tEXt type and data is 0xB5A3A549; with the four zero CRC bytes added it is 0x26CAFF09 |
| Geometry.WidthFrom | src/main/java/org/syncany/plugins/flickr/PngEncoder.java:221 | the width is the least `w` with `3*w*w >= L`, which is ceil(sqrt(L/3)) |
| Geometry.WidthIsLeast | src/main/java/org/syncany/plugins/flickr/PngEncoder.java:221 | no width below the computed one holds the payload |
| Geometry.GeometryBounds | src/main/java/org/syncany/plugins/flickr/PngEncoder.java:221-223 | L = 0 gives a 0 by 0 image; for L >= 1 the rows hold the payload (`3WH >= L`), and `3W(H-1) < L`, so the last row is not wasted; also `H <= W <= L` |
| PngLayout.CopyInto | src/main/java/org/syncany/plugins/flickr/PngEncoder.java:241 | `System.arraycopy` into the template replaces exactly the target bytes |
| PngLayout.IhdrBytes | src/main/java/org/syncany/plugins/flickr/PngEncoder.java:225-231 | the cloned and patched IHDR template is the well-formed 25-byte chunk with the width and height and with the CRC-32 of type and data |
| PngLayout.PatchCrc | src/main/java/org/syncany/plugins/flickr/PngEncoder.java:315-320 | `calculateChunkChecksum` over type and data, written into the zero CRC field, makes a well-formed chunk |
| PngLayout.ChecksumOfMiddle | src/main/java/org/syncany/plugins/flickr/PngEncoder.java:315-320 | the checksum of a slice is the CRC-32 of exactly those bytes |
| PngLayout.TextBytes | src/main/java/org/syncany/plugins/flickr/PngEncoder.java:239-245 | the patched tEXt template is the well-formed 20-byte chunk with "N3RD" and the payload length |
| PngLayout.TextBytesStream2 | src/main/java/org/syncany/plugins/flickr/util/PngEncoderStream2.java:266-273 | the streaming encoder's tEXt is the same layout, but its CRC field is the checksum of 16 bytes, which include the zero CRC field |
| PngLayout.Stream2TextPatch | src/main/java/org/syncany/plugins/flickr/util/PngEncoderStream2.java:272-273 | the 16-byte checksum is the CRC of type, data and four zero bytes, and patching it in gives the raw chunk with that field |
| PngLayout.Stream2TextCrcDiffers | src/main/java/org/syncany/plugins/flickr/util/PngEncoderStream2.java:89 | the 16-byte tEXt CRC is not the PNG chunk CRC: for length 0 it is 0x26CAFF09, not 0xB5A3A549 |
| PngLayout.SrgbChunkWellFormed | src/main/java/org/syncany/plugins/flickr/PngEncoder.java:116-121 | the fixed sRGB chunk carries the CRC of its type and data |
| PngLayout.IendChunkWellFormed | src/main/java/org/syncany/plugins/flickr/PngEncoder.java:144-148 | the fixed IEND chunk carries the CRC of its type |
| PngLayout.IdatBegin | src/main/java/org/syncany/plugins/flickr/PngEncoder.java:284-288 | the patched IDAT head is the big-endian data size followed by "IDAT" |
| PngLayout.IdatEnd | src/main/java/org/syncany/plugins/flickr/PngEncoder.java:298-301 | the patched IDAT tail is the big-endian CRC |
| PngLayout.IdatStreamSnoc | src/main/java/org/syncany/plugins/flickr/util/PngEncoderStream2.java:367-369 | writing one more chunk appends its layout to the chunks written before |
| RowFraming.FrameLength | src/main/java/org/syncany/plugins/flickr/PngEncoder.java:260-276 | the filtered data is `rows` scanlines of `rowLen + 1` bytes |
| RowFraming.FrameAt | src/main/java/org/syncany/plugins/flickr/PngEncoder.java:264-272 | scanline `i` starts with filter byte 0, and its byte `j` is payload byte `i*rowLen + j`, or zero past the end |
| RowFraming.ReadInto | src/main/java/org/syncany/plugins/flickr/PngEncoder.java:265 | `read(row)` on a byte-array stream returns -1 at the end and otherwise copies every byte left, up to the buffer's length, to the front of the buffer; the bytes past the count are left as they were |
| RowFraming.ReadRows | src/main/java/org/syncany/plugins/flickr/PngEncoder.java:260-276 | the row loop hands the deflater `RowStream`: H scanlines of the stream's bytes, zero-padded, or fails with "Unable to read" when a read finds the stream at its end; with no rows, `rowLen + 1` zero bytes |
| RowFraming.RowStreamOfPayload | src/main/java/org/syncany/plugins/flickr/PngEncoder.java:264-269 | for a correctly declared length, every row read succeeds and the deflater gets exactly the framed payload |
| RowFraming.NextRowLengthExact | src/main/java/org/syncany/plugins/flickr/PngEncoder.java:456 | without overflow, each deframed row is `min(maxRowLength, payloadLength - payloadRead)` bytes |
| RowFraming.Deframe | src/main/java/org/syncany/plugins/flickr/PngEncoder.java:450-461 | the deframe loop writes what `DeframeFrom` says: each row's bytes after its filter byte; a row past the data ends the loop with the earlier rows written and an error |
| RowFraming.DeframeCount | src/main/java/org/syncany/plugins/flickr/PngEncoder.java:453-461 | a deframe loop that completes writes exactly `payloadLength` bytes (none for a length of 0 or less) |
| RowFraming.DeframeOfPayload | src/main/java/org/syncany/plugins/flickr/PngEncoder.java:451-461 | deframing the framed rows of a non-empty payload gives the payload back, with no error, whenever 3WH (the largest `payloadRead + maxRowLength` the loop computes) fits an `int` |
| PngReader.Field | src/main/java/org/syncany/plugins/flickr/PngEncoder.java:398-399 | reading into `new byte[n]` gives the next `n` bytes when they are there, otherwise the bytes left followed by zeros |
| PngReader.ReadChunk | src/main/java/org/syncany/plugins/flickr/PngEncoder.java:467-483 | `readChunk` fails exactly when the size field is negative (`new byte[size]` throws); otherwise the data has `size` bytes and the position only moves forward |
| PngReader.ReadChunkOfRaw | src/main/java/org/syncany/plugins/flickr/PngEncoder.java:467-483 | `readChunk` inverts the chunk layout: size, type, data and checksum come back as written, and the stream stops just after the chunk |
| PngReader.CollectFrom | src/main/java/org/syncany/plugins/flickr/PngEncoder.java:431-438 | the IDAT loop only appends to what it has gathered, and never past 2^31 - 1 bytes |
| PngReader.CollectIdat | src/main/java/org/syncany/plugins/flickr/PngEncoder.java:431-438 | the IDAT loop as statements computes `CollectFrom` |
| PngReader.CollectOfIdatStream | src/main/java/org/syncany/plugins/flickr/PngEncoder.java:435-438 | over consecutive IDAT chunks and then IEND, the loop gathers the chunks' data in order and stops, whatever the CRC fields hold |
| PngDecoder.ReadHeader | src/main/java/org/syncany/plugins/flickr/PngEncoder.java:390-429 | the skips and reads take the width from offset 16, the identifier from offset 54 and the payload length from offset 58, and leave the stream at offset 66 |
| PngDecoder.GatherAndInflate | src/main/java/org/syncany/plugins/flickr/PngEncoder.java:431-450 | gathering and inflating give the filtered rows, or the error from a chunk size, the inflater, or an array limit |
| PngDecoder.Decode | src/main/java/org/syncany/plugins/flickr/PngEncoder.java:388-461 | the decoder's statements produce `DecodeSpec`: nothing written before the identifier check and the inflate, then the payload rows |
| PngDecoder.DecodeFromPng | src/main/java/org/syncany/plugins/flickr/PngEncoder.java:388-465 | decodes as `DecodeSpec`; the destination is closed exactly when the decode finished without an error |
| PngDecoder.DecodeFromPngStream2 | src/main/java/org/syncany/plugins/flickr/util/PngEncoderStream2.java:497-577 | decodes the same way; the destination is closed only when `closeDestStream` is set and the decode finished |
| PngDecoder.DecodeRejects | src/main/java/org/syncany/plugins/flickr/PngEncoder.java:416-422 | the decoder fails with the bad-identifier error exactly when bytes 54..57 are missing or are not "N3RD", and it has then written nothing |
| PngDecoder.DecodeWritesPayloadLength | src/main/java/org/syncany/plugins/flickr/PngEncoder.java:453-461 | a decode without an error writes exactly as many bytes as the tEXt payload length says, and none when it is 0 or less |
| PngDecoder.DecodeHeader | src/main/java/org/syncany/plugins/flickr/PngEncoder.java:396-429 | on any header laid out by the encoders, the decoder reads back the width and payload length written, accepts the identifier and goes on at offset 66, whatever the CRC fields hold |
| PngEncoder.IdatChunkOfParts | src/main/java/org/syncany/plugins/flickr/PngEncoder.java:284-302 | head, data, and the CRC that a fresh `CRC32` gives after "IDAT" and the data make a well-formed IDAT chunk |
| PngEncoder.EncodeToPng | src/main/java/org/syncany/plugins/flickr/PngEncoder.java:212-308 | the encoder's statements produce `EncodeSpec` |
| PngEncoder.EncodeWellFormed | src/main/java/org/syncany/plugins/flickr/PngEncoder.java:217-305 | a successful encode writes the signature, then IHDR, sRGB, tEXt, exactly one IDAT with all the compressed rows, and IEND, each chunk with its correct CRC; a failed one leaves only the signature and the three header chunks |
| PngEncoder.EncodedHeaderLayout | src/main/java/org/syncany/plugins/flickr/PngEncoder.java:217-247 | the header written is the layout the decoder reads: width, height and payload length where it looks for them |
| PngEncoder.FilteredOfPayload | src/main/java/org/syncany/plugins/flickr/PngEncoder.java:260-276 | for a correctly declared length, the row loop succeeds with the framed payload, or with one zero byte for an empty payload |
| IdatSplitter.Emit | src/main/java/org/syncany/plugins/flickr/util/PngEncoderStream2.java:358-373 | `writeChunk` appends one chunk holding the buffer and the register's value, and resets the register to 0 and the buffer to empty |
| IdatSplitter.WriteStep | src/main/java/org/syncany/plugins/flickr/util/PngEncoderStream2.java:340-351 | after any write the buffer holds at most 512 KiB |
| IdatSplitter.CloseStep | src/main/java/org/syncany/plugins/flickr/util/PngEncoderStream2.java:354-356 | `close` leaves the buffer empty |
| IdatSplitter.FeedAfterError | src/main/java/org/syncany/plugins/flickr/util/PngEncoderStream2.java:345-346 | once a write has thrown, later writes change nothing |
| IdatSplitter.WriteStepLossless | src/main/java/org/syncany/plugins/flickr/util/PngEncoderStream2.java:345-350 | one write appends its bytes after everything written before, across the chunks and the buffer |
| IdatSplitter.FeedLossless | src/main/java/org/syncany/plugins/flickr/util/PngEncoderStream2.java:340-351 | after any writes, the chunks' data followed by the buffer is every byte written, in order |
| IdatSplitter.CloseLossless | src/main/java/org/syncany/plugins/flickr/util/PngEncoderStream2.java:354-356 | after `close`, the chunks alone hold every byte written, in order |
| IdatSplitter.EmitCrc | src/main/java/org/syncany/plugins/flickr/util/PngEncoderStream2.java:358-373 | `writeChunk` keeps every chunk's CRC field right |
| IdatSplitter.WriteStepCrc | src/main/java/org/syncany/plugins/flickr/util/PngEncoderStream2.java:341-345 | a non-empty write keeps the register equal to the CRC of "IDAT" and the buffer |
| IdatSplitter.FeedCrc | src/main/java/org/syncany/plugins/flickr/util/PngEncoderStream2.java:340-351 | with non-empty writes, every chunk's CRC field is the CRC-32 of "IDAT" and its data, and the register tracks the buffer |
| IdatSplitter.EmptyCloseChunk | src/main/java/org/syncany/plugins/flickr/util/PngEncoderStream2.java:354-356 | `close` on an empty buffer writes a chunk without data and with CRC field 0, although the CRC of "IDAT" alone is not 0 |
| IdatSplitter.IdatCrcOfNothing | src/main/java/org/syncany/plugins/flickr/util/PngEncoderStream2.java:341-342 | the CRC of "IDAT" alone is 0x35AF061E |
| IdatSplitter.ZeroLengthWrite | src/main/java/org/syncany/plugins/flickr/util/PngEncoderStream2.java:341-343 | a zero-length write on an empty buffer feeds "IDAT" to the register without filling the buffer, so the next write's chunk gets the CRC of "IDAT" twice |
| IdatSplitter.WriteStepSmall | src/main/java/org/syncany/plugins/flickr/util/PngEncoderStream2.java:348-350 | a write that leaves at most 512 KiB buffered sends nothing out and appends its bytes to the buffer; the register takes "IDAT" then the bytes on an empty buffer, and only the bytes otherwise |
| IdatSplitter.FeedSizes | src/main/java/org/syncany/plugins/flickr/util/PngEncoderStream2.java:348-350 | with writes of at most 512 bytes, none throws, every chunk `write` sends out holds between 512 KiB + 1 and 512 KiB + 512 bytes, and the buffer stays at or below 512 KiB |
| IdatSplitter.IdatChunkEncoderOutputStream.constructor | src/main/java/org/syncany/plugins/flickr/util/PngEncoderStream2.java:333-337 | a new stream has a zero register and an empty buffer, and has written nothing |
| IdatSplitter.IdatChunkEncoderOutputStream.Write | src/main/java/org/syncany/plugins/flickr/util/PngEncoderStream2.java:340-351 | `write(b, off, len)` moves the state as `WriteStep` does and keeps the stream's invariant, or throws, without output, when the buffer cannot grow |
| IdatSplitter.IdatChunkEncoderOutputStream.WriteAll | src/main/java/org/syncany/plugins/flickr/util/PngEncoderStream2.java:376-378 | `write(b)` is `write(b, 0, b.length)`: the same step on success, and on failure nothing sent out, buffer and chunks unchanged |
| IdatSplitter.IdatChunkEncoderOutputStream.WriteChunk | src/main/java/org/syncany/plugins/flickr/util/PngEncoderStream2.java:358-373 | writes the size, "IDAT", the buffer and the register's value to the stream below, and resets register and buffer |
| IdatSplitter.IdatChunkEncoderOutputStream.Close | src/main/java/org/syncany/plugins/flickr/util/PngEncoderStream2.java:354-356 | writes the last chunk, even an empty one |
| IdatSplitter.IdatChunkEncoderOutputStream.WriteByte | src/main/java/org/syncany/plugins/flickr/util/PngEncoderStream2.java:381-383 | `write(int)` always throws "Not implemented" |
| PngEncoderStream2.WriteHeader | src/main/java/org/syncany/plugins/flickr/util/PngEncoderStream2.java:245-274 | writes the signature, IHDR, sRGB, and the tEXt with the 16-byte checksum |
| PngEncoderStream2.WriteChunks | src/main/java/org/syncany/plugins/flickr/util/PngEncoderStream2.java:281-310 | the deflater's writes through a fresh splitter, then `close` and IEND, produce `Chunked` |
| PngEncoderStream2.EncodeToPngStream2 | src/main/java/org/syncany/plugins/flickr/util/PngEncoderStream2.java:240-314 | the streaming encoder's statements produce `StreamEncodeSpec` |
| PngEncoderStream2.StreamEncodeShape | src/main/java/org/syncany/plugins/flickr/util/PngEncoderStream2.java:240-310 | a failed streaming encode leaves only the header; a successful one writes the header, the splitter's IDAT chunks, and IEND |
| PngEncoderStream2.StreamChunksWellFormed | src/main/java/org/syncany/plugins/flickr/util/PngEncoderStream2.java:328-384 | for the deflater's writes, no write throws, and the chunks carry all the compressed bytes in order; each CRC is right except the 0 of an empty last chunk, and every chunk but the last holds more than 512 KiB |
| PngEncoderStream2.StreamHeaderLayout | src/main/java/org/syncany/plugins/flickr/util/PngEncoderStream2.java:245-274 | the streaming header is the layout the decoder reads |
| RoundTrip.DeframePayload | src/main/java/org/syncany/plugins/flickr/PngEncoder.java:451-461 | with the width read from the header, the deframe loop over the framed payload writes the payload and completes, for every payload whose framed rows fit a Java array |
| RoundTrip.DecodeOfEncode | src/main/java/org/syncany/plugins/flickr/PngEncoder.java:388-465 | decoding what `encodeToPng` wrote for a correctly declared payload gives the payload back, with no error, whenever the payload, its framed rows and their compressed form fit Java arrays (`RoundTrip.FitsArrays`) |
| RoundTrip.StreamDecodeOfEncode | src/main/java/org/syncany/plugins/flickr/util/PngEncoderStream2.java:497-577 | decoding what the streaming encoder wrote gives the payload back, whatever the split into chunks and the tEXt checksum, whenever the payload, its framed rows and their compressed form fit Java arrays |
| FlickrPadding.Padded | src/main/java/org/syncany/plugins/flickr/FlickrTransferManager.java:178-184 | an upload encodes 17*17*3 zero bytes followed by the file |
| FlickrPadding.Stripped | src/main/java/org/syncany/plugins/flickr/FlickrTransferManager.java:154-157 | a download writes the decoded bytes after the padding, and fails when there are fewer decoded bytes than the padding |
| FlickrPadding.StripOfPad | src/main/java/org/syncany/plugins/flickr/FlickrTransferManager.java:56 | stripping undoes the padding |
| FlickrPadding.DownloadOfUpload | src/main/java/org/syncany/plugins/flickr/FlickrTransferManager.java:154-188 | a file uploaded and downloaded again comes back unchanged, whenever the padded file, its framed rows and their compressed form fit Java arrays |

## Left out

- The zlib codec (`Deflater` and `InflaterOutputStream`) is a parameter of the model, `Compression.Compressor`.
  - Round trips assume it is lossless (`Compression.Lossless`).
  - The streaming results assume that `DeflaterOutputStream` writes the compressed bytes in order, in pieces of 1 to 512 bytes (`Compression.WritesCover`).
  - `Compression.Stored` shows that the two assumptions can hold together. The deflate format itself is not modelled.
- The deflater's output is taken to reach its sink when it finishes. The interleaving of compressed output with row reads is not modelled.
- PngEncoderStream2.EncodeToPngStream2: when a row read fails, the outcome holds only the header. The IDAT chunks the deflater may already have flushed through the splitter before the failure are not modelled.
- PngEncoderStream2.StreamEncodeShape: states the same header-only failure, so it is weaker than the code in the same way.
- The double arithmetic of the image width and height (P:221-223) is replaced by an exact integer characterisation. The least `w` with `3*w*w >= L` is what `ceil(sqrt(L/3))` computes for the lengths a Java `int` can hold. Rounding of `double` is not modelled.
- Geometry.ImageHeight: states no contract of its own. It encodes the cast of NaN to 0 and of negative infinity to `Integer.MIN_VALUE`; a negative height makes the row loop run no turn.
- Input streams are modelled as a `ByteArrayInputStream` over a byte sequence:
  - `read` returns every byte left up to the buffer length;
  - `skip` stops at the end.
  Other streams may return short reads, which is not modelled.
- CRC fields are read and never validated, as in the code; IHDR and sRGB are not parsed by the decoder.
- Closing the source and destination streams is modelled only as the `destClosed` result of the decoders. I/O exceptions of the underlying streams are not modelled.
- The `srcStreamLength > Integer.MAX_VALUE` check (P:213-215) can never be true for an `int` and has no effect.
- JVM limits are modelled as 2^31 - 1: byte arrays, `ByteArrayOutputStream` growth, and the compressed and inflated data. The round trips require exactly that the payload, its framed rows and their compressed form fit (`RoundTrip.FitsArrays`). The decoder's `int` counters then cannot overflow, because 3WH is at most the framed length.
- `decodeFromPngNEWNOTFINISHED` and `IdatChunkEncoderInputStream` (S:440-483) are unfinished code and are not part of this model.
- The overloads over files and byte arrays are not modelled, because they only open streams and delegate:
  - `decodeFromPng(File)`, `decodeFromPng(InputStream)`, `decodeFromBitmap`;
  - the `encodeToPng(File, …)` and `encodeToPng(byte[], …)` variants.
- `encodeToPngs`, `toHex` and `main` are not modelled.
- The Flickr REST calls, temporary files, photosets and plugin settings of `FlickrTransferManager` are not part of this model. Only the padding around the codec is.
- IdatSplitter.IdatChunkEncoderOutputStream.Write: requires `off + len <= b.length`. The Java code would throw `IndexOutOfBoundsException` from `CRC32.update` for other arguments, and the deflater never passes any.
- IdatSplitter.IdatChunkEncoderOutputStream.Write: when the buffer cannot grow, the contract does not state the register's new value (the register has already taken the bytes).
- IdatSplitter.FeedCrc: states CRC fields only for writes of at least one byte, as `DeflaterOutputStream` makes them. `ZeroLengthWrite` shows what a zero-length write on an empty buffer does instead.
