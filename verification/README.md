# Proofs about d3cam: the PNG codec, the ring list, the command queue and the XML selector

This project models four parts of d3cam in Dafny and proves what they are for. Each is written
the way the program works: objects with fields that methods update, arrays that are rewritten
in place, loops with cursors, linked nodes. Beside each stands a specification over values, and
the methods are proved against it.

`dafny verify dfyconfig.toml` checks everything.

## The PNG codec

**Pixels.** An encoder gathers each scanline of the seven Adam7 passes, at sub-byte granularity
where samples are smaller than a byte, converts it to big-endian, filters it against the one
above and hands it on. A decoder, written separately, reads the first filter byte alone and then
every row shifted by one byte, swaps 16-bit rows *before* it undoes the filter, lets two buffers
change places, uses one of three families of defilter loops, and scatters the samples by or-ing
them into a zeroed image. `RoundTrip.EncodeThenDecode` says that all of this cancels out, for
every header, image, filter choice and format. The modules `Filtering`, `ByteOrder`,
`SimdDefilter`, `FilterChoice`, `Adam7`, `Scanlines`, `Samples`, `Interlace`, `ImageGeometry`,
`ImageStream`, `Encoder`, `ImageEncoder`, `Decoder` and `ImageDecoder` lead up to it; `Scaling`
treats the scaling of sample depths.

**Chunks.** `Chunks` defines the datastream, with the CRC of section 5.5 of the PNG specification
as a fold over bytes. `ChunkWriter` seals chunks in place, in a buffer that grows or in one that is
handed out in pieces; `IdatWriter` cuts the deflate output into chunks while it is produced, and
`IdatReader` puts it together again. `ChunkSource` reads from a buffer or a stream, and
`ChunkReader` is the decoder's chunk loop with its position and duplicate checks, limits, discards
and undo steps. `Metadata`, `LongChunks` and `Printing` say what the chunks mean, and
`Setters` what an encoder can be made to hold; `MetadataRoundTrip`, `MetadataWriter` and
`FileRoundTrip` that what one side writes is what the other side keeps, and exactly when:
`MetadataRoundTrip.ReadsBackExactly`.

**Bytes.** Both sides share tables and constants, and a round trip says nothing of those.
`WireFormat` and `FileFormat` therefore state in numbers and letters what stands where, and
`SmallFiles` has files byte by byte.

**Files.** `WholeFile.WriteThenRead` puts both together: an image and everything held besides are
written to a file, and read back from it to its last byte.

zlib is a pipe: deflate and inflate take and produce any amount per call, and stop only for lack of
input or of room. The compressed form of an image may be any bytes. What is taken of zlib is one
contract, `IdatReader.Inflater.OfDeflated`: an inflate that is given all that a finished deflate has
made produces all that the deflate was given. That this is the filtered image is proved.

## The ring list, the command queue, the XML selector

`RingList` is a proof about the shape of the heap: every operation keeps the two-way ring and does
to its entries what its sequence counterpart does. `MessageQueue` is a protocol: a state machine
over atomic steps, with results for every interleaving, and a class that runs the same steps on the
ring list. `XmlTree` is rank and select over a tree that grows when a node is missing.

## What the proofs turned up

- A damaged critical chunk other than the header passes when only ancillary chunks are to be used
  unchecked, though the action for critical ones is to stop (`ChunkSource.Source.PassChunk`, with an
  input in `ChunkSource.ReadDamaged`). For the header the action for critical chunks alone decides
  (`PassIhdr`).
- The decoder overwrites the number of palette entries before it checks it, so that a refused PLTE
  chunk may leave a stored palette that is none (`Metadata.RefusedPalette`, `SecondPalette`). PLTE is
  a critical chunk, so that the decoder is invalid from then on (`ChunkReader.Reader.ReadRound`).
- A chunk that is dropped may leave its length in the cache usage: exif data always, unless they are
  a duplicate, and a suggested palette if it was read and is wrong; a palette that is right and every
  other chunk but iCCP and text leave nothing. `ChunkReader.LeftBy` says how much from the chunk and
  the state before it, `ChunkReader.Reader.HandleChunk`, `OneRound` and `ReadRound` that it is so, and
  `SmallFiles.DroppedExif` has a file.
- What the setters admit does not always come back. `MetadataRoundTrip.Consistent` is the exact
  condition: alpha values and a background have to fit the palette of the end, which may have been
  replaced by a smaller one; there must be alpha values; suggested palettes need entries in range,
  no more than a chunk can hold, and names of their own; and unknown chunks unknown ancillary types.
  `Setters.NotComingBack` has inputs for all of them. A histogram always comes back, as far as the
  palette reaches.
- The setter does not look at the number of entries of a suggested palette. The length of its chunk is
  computed with 32 bits: from 2^32 / 6 or 2^32 / 10 entries on, about, it falls short of the data
  (`LongChunks.HeaderIsExact`).
- An unknown chunk that is to follow a palette that is not there comes back at another place
  (`MetadataRoundTrip.PlaceAfterPalette`).
- Cutting an empty list leaves the other list as it was, so that splicing back brings its entries in
  (`RingList.CutThenSplice`). The comment in `include/list.h` speaks only of losing its data.
- A message pushed once the consumer has cached the head as its next node is not seen by the drain
  under way (`MessageQueue.LeftForTheNextDrain`).
- `csv_msg_check` takes any positive number of received bytes for all that were missing, and
  `csv_msg_push` what stands behind the message for the rest (`MessageQueue.CommandQueue.Check`,
  `MessageQueue.ReceivedWhole`).
- `csv_xml_DlpAttribute`, asked for a node beyond the next one, would create two
  (`XmlTree.DlpAttribute`). Its only caller asks for them in order, so that this does not happen
  (`XmlTree.DlpPass`).
- Setting the value of an element that has no text changes nothing (`XmlTree.SetThenGet`).

## Model

| member | source | states |
|---|---|---|
| RoundTrip.EncodeThenDecode | src/libspng/spng.c:3617-4006 | For every valid header (all colour types, depths 1 to 16, interlaced or not), every image, every filter choice, PNG or RAW format, either host byte order and each defilter (scalar, SSE2, NEON): the encoder's filtered stream, decoded row by row into a zeroed buffer, gives back every pixel; it fails exactly for palette indices without a palette, scanlines beyond 32 bits and image buffers of the wrong size |
| RoundTrip.DecodeEncoded | src/libspng/spng.c:3982-4001 | The same from any stream that is the code of an image's rows with any filters |
| WholeFile.WriteThenRead | src/libspng/spng.c:4736-4875 | For every header, image, filter choice and format and everything else that is held and consistent: the whole file, written to a buffer or a stream with any compressed form of the image, is read to its last byte by a decoder with room for it, from a buffer or a stream and whatever it does about checksums, and gives back every pixel, the header, every value, the exif data, the palettes and all unknown chunks; the decoder's inflate has nothing but what the encoder gave its deflate |
| WholeFile.Compress | src/libspng/spng.c:4561-4623 | Over all scanlines, deflate is given the filtered stream, every byte of it and in order, and nothing else |
| WholeFile.WriteFile | src/libspng/spng.c:4702-4875 | The file is the signature, the header, the chunks in their order, a run of IDAT chunks that hold all that deflate made of the filtered stream of the image, the rest of the unknown chunks and the last chunk; it is refused exactly for palette indices without a palette, too long a row, a buffer of the wrong size and a suggested palette too long for a chunk; a file of its own begins with 137 80 78 71 13 10 26 10, the length 13, IHDR and the fields of the header, big-endian, and everything that is held stands in it under the name of its kind (Begins, InLetters) |
| WholeFile.Decompress | src/libspng/spng.c:3986-4001 | The first filter byte alone and then every scanline with the next filter byte are exactly the stream that deflate was given, when inflate was made for what that deflate made |
| WholeFile.ReadFile | src/libspng/spng.c:3617-4006 | Such a file is read to its end, with every pixel and everything that was held |
| ImageEncoder.EncodeImage | src/libspng/spng.c:4736-4875 | The whole-image loop emits the code of one row per scanline of every non-empty pass, in order, each filtered with the best filter in use, and the rows hold exactly the pixels of their pass; palette indices without a palette, too long a row and a buffer of the wrong size are refused, in this order, and nothing else; in numbers, the filter byte 0 to 4 in front of each scanline says how its bytes follow from their neighbours (StreamLaw), and every sample of every pixel stands, at the place that section 8.2 of ISO/IEC 15948 gives it, as the number it is in the host's memory, 16 bits big-endian, or in the bytes as they are if the format is raw (SameSamples) |
| ImageEncoder.FiltersInUse | src/libspng/spng.c:4772-4791 | Unless the caller chose them no row is filtered that is not to be compressed, holds palette indices or small samples; otherwise the filter is the best of those chosen, for every row |
| ImageEncoder.EncodeRow | src/libspng/spng.c:4625-4682 | One scanline more is gathered from the image row under the cursor and emitted, and the cursor moves on or reports the end of the image |
| ImageDecoder.DecodeImage | src/libspng/spng.c:3960-4006 | Decoding paints the buffer with exactly what the stream encodes, pass by pass, leaves everything behind the image as it was, and reports a short stream or a bad filter byte only when the stream has one; in numbers, the rows are what the filter bytes 0 to 4 say, and every sample of the image in memory is, as a number of the host, the one at its place in them |
| ImageDecoder.DecodeRow | src/libspng/spng.c:3550-3605 | One scanline read, rebuilt and scattered: the image is then painted with one scanline more, or the failure is the one the stream encodes |
| ImageStream.UncodeOfCode | src/libspng/spng.c:3215-3254 | Reading the first filter byte alone and then every row shifted by one byte recovers every row from the code of any rows with any filters, whatever follows in the stream |
| ImageStream.CodeOfUncode | src/libspng/spng.c:4561-4600 | Conversely, whatever stream decodes is the code of the rows and filters it decodes to |
| ImageStream.UncodePrefix | src/libspng/spng.c:3215-3254 | A failure at one scanline is final, and the rows decoded before it do not depend on what follows |
| ImageGeometry.LayoutIsValid | src/libspng/spng.c:585-629 | Every valid header gives scanlines of whole pixels, and every scanline that is not the first of its pass has the length of the one above it |
| ImageGeometry.PicturesComeBack | src/libspng/spng.c:3550-3605 | Rows gathered from an image pass by pass and scattered into a zeroed buffer restore every pixel of the image |
| WireFormat.CodeInNumbers | src/libspng/spng.c:1524-1534 | In the stream that is emitted, a byte behind filter byte 0, 1, 2, 3 or 4 is the byte of the row less 0, left, above, half of left and above, or the nearest of left, above and corner to left + above - corner, modulo 256, where above the first row of a pass and left of the first pixel is 0 |
| WireFormat.UncodeInNumbers | src/libspng/spng.c:1492-1541 | And the rows that are decoded are those of which this holds, for every stream that is accepted |
| WireFormat.PicturesInNumbers | src/libspng/spng.c:4625-4682 | Every sample that is emitted is the number that it is in memory: packed samples from the left, 16 bits big-endian on the wire and in the host's order in memory, unless the format is raw |
| WireFormat.PaintedInNumbers | src/libspng/spng.c:3550-3605 | And so is every sample that is decoded, whatever was in the buffer, but that small samples of interlaced images need zeros there |
| WireFormat.PlaceInNumbers | src/libspng/spng.c:585-629 | A pixel's scanline and column, from the eight by eight square of pass numbers and the counts of rows |
| WireFormat.HeaderNumbers | src/libspng/spng.c:2030-2068 | The headers that are valid, and the bytes of a row and of a pixel for them: one sample per pixel for color types 0 and 3, two for 4, three for 2, four for 6 |
| WireFormat.HeaderErrors | src/libspng/spng.c:2030-2068 | Which error a header gets that is not: the first check that fails, in the order they are made |
| WireFormat.TooLongInNumbers | src/libspng/spng.c:585-629 | Rows of 4294967295 bytes and more are too long |
| Filtering.DefilterUndoesFilter | src/libspng/spng.c:1452-1602 | For each filter, every pixel size of at least one byte, every width and every previous row, defiltering undoes filtering |
| Filtering.FilterUndoesDefilter | src/libspng/spng.c:1452-1602 | And filtering undoes defiltering, so that no two filtered rows decode to the same row |
| Filtering.RebuildsIsDefilter | src/libspng/spng.c:1452-1541 | The rebuilt row is the only row whose filtered form is the given one, though it is defined by reading earlier outputs |
| Filtering.PreviousRowUnused | src/libspng/spng.c:1494-1541 | None and Sub rebuild the same row whatever the previous row is |
| Filtering.FilterScanline | src/libspng/spng.c:1543-1602 | The loop writes the filtered form of the scanline at its place and nothing else |
| Filtering.DefilterScalar | src/libspng/spng.c:1492-1541 | The in-place left-to-right loop leaves the rebuilt row and what lies behind it |
| Filtering.DefilterUp | src/libspng/spng.c:1438-1450 | Adding the row above byte by byte rebuilds a row filtered with Up |
| ByteOrder.SwapCommutes | src/libspng/spng.c:3246-3248 | With an even number of bytes per pixel, swapping the bytes of each sample and then defiltering against an already swapped previous row equals defiltering first and swapping afterwards, for all five filters and every width |
| ByteOrder.ReorderInPlace | src/libspng/spng.c:516-535 | The in-place conversion reorders each 16-bit sample of the row, leaves an odd last byte and everything else, and does nothing on a big-endian host; which way that is, is stated by PicturesInNumbers |
| Decoder.DefilterConverted | src/libspng/spng.c:3240-3252 | A row converted to host order before it is defiltered against what the previous buffer holds is the converted form of the row the stream encodes, also where the filter does not look at a stale previous buffer |
| Decoder.DefilterScanline | src/libspng/spng.c:1452-1541 | Whichever loop the platform picks, the row is replaced by the rebuilt row; only a filter above 4 is refused |
| Decoder.ScanlineDecoder.ReadScanline | src/libspng/spng.c:3215-3254 | Reads the scanline and the filter byte of the next one, and leaves the rebuilt scanline in host order, or the failure the stream encodes |
| Decoder.ScanlineDecoder.Exchange | src/libspng/spng.c:3531-3534 | After the buffers change places the previous one holds the scanline just rebuilt |
| SimdDefilter.SseAverageTruncates | src/libspng/spng.c:6297-6346 | The rounding average less the low bit of the exclusive or is the truncating average of two bytes |
| SimdDefilter.SsePaethIsPaeth | src/libspng/spng.c:6386-6505 | The 16-bit minimum and equality form chooses the Paeth predictor for all bytes |
| SimdDefilter.NeonPaethIsPaeth | src/libspng/spng.c:6779-6803 | The widening NEON form chooses the Paeth predictor for all bytes |
| SimdDefilter.SseDefilter3 | src/libspng/spng.c:6248-6505 | Three bytes a pixel with SSE2: the same row as the scalar loop, and no other byte of the buffer changed |
| SimdDefilter.SseDefilter4 | src/libspng/spng.c:6276-6564 | Four bytes a pixel with SSE2: the same row as the scalar loop, and no other byte of the buffer changed |
| SimdDefilter.NeonDefilter3 | src/libspng/spng.c:6610-6867 | Three bytes a pixel with NEON, four pixels a round with loads ahead of overlapping stores: the same row as the scalar loop |
| SimdDefilter.NeonDefilter4 | src/libspng/spng.c:6651-6908 | Four bytes a pixel with NEON: the same row as the scalar loop |
| FilterChoice.FilterSum | src/libspng/spng.c:1604-1664 | The sum of min(x, 256 - x) over exactly the bytes the filter would emit; a row of more than INT32_MAX / 128 bytes is not summed, and below that nothing overflows |
| FilterChoice.SingleIsPowerOfTwo | src/libspng/spng.c:1679-1685 | n and n - 1 have no bit in common exactly when n is a power of two |
| FilterChoice.GetBestFilter | src/libspng/spng.c:1666-1704 | The lowest-numbered enabled filter of least sum; the only one enabled; or none |
| FilterChoice.BestIsUnique | src/libspng/spng.c:1666-1704 | That promise determines the filter |
| FilterChoice.NoneAloneIsNoFilter | src/libspng/spng.c:4787-4791 | Enabling the filter None alone and disabling filters choose the same filter for every row |
| FilterChoice.BestIgnoresPrevious | src/libspng/spng.c:4577-4585 | With no enabled filter that looks at the row above, a previous buffer that was not cleared cannot change the choice |
| FilterChoice.Masks | src/libspng/spng.c:1666-1708 | The masks 8, 16, 32, 64 and 128 alone choose the filters 0 to 4; of several the chosen one is enabled, unless the row has more than 16777215 bytes |
| FilterChoice.ScoreOfUp | src/libspng/spng.c:1604-1708 | Filter 2 is scored by the sum of absolute differences to the row above, as long as none is more than 128 |
| FilterChoice.ScoreOfSub | src/libspng/spng.c:1604-1708 | And filter 1 by the differences to the pixel on the left |
| FilterChoice.ZeroBelowOne | src/libspng/spng.c:1604-1708 | A case: between None and Up, a zero below a one stays as it is |
| Encoder.ScanlineEncoder.EncodeScanline | src/libspng/spng.c:4561-4605 | The scanline is emitted with the best filter against the row above it, zeros for the first of a pass, and becomes the previous one |
| Header.RowBytesIs | src/libspng/spng.c:563-583 | A scanline is one filter byte longer than its pixels rounded up to whole bytes |
| Adam7.SizesAreCounts | src/libspng/spng.c:596-604 | The seven reduced sizes, computed by shifts, are the exact counts of the columns and rows of each pass lattice inside the image |
| Adam7.Partition | src/libspng/spng.c:368-371 | Each pixel lies in exactly one pass, row and column, and inside that reduced image exactly when it is inside the image |
| Scanlines.CalculateSubimages | src/libspng/spng.c:585-629 | Finds the widest and the last non-empty pass, and fails exactly when a scanline needs more than 32 bits to count |
| Scanlines.IndexDeterminesPlace | src/libspng/spng.c:3256-3286 | Positions in the order of scanlines and places (pass, row) of non-empty passes correspond one to one |
| Scanlines.RowInfo.Start | src/libspng/spng.c:3960-3962 | The cursor starts at the first scanline of the first non-empty pass, with its row number |
| Scanlines.RowInfo.Update | src/libspng/spng.c:3256-3286 | Each update visits the next scanline of the order with the right row number, and the end of the image is reported exactly after the last |
| Samples.SampleIter.GetSample | src/libspng/spng.c:486-514 | The k-th call yields the k-th sample of the row, most significant first, for depths 1, 2, 4 and 8 and every k |
| Samples.WholeBytes | src/libspng/spng.c:485-498 | A sample of eight bits is the byte at its index |
| Samples.MergeSample | src/libspng/spng.c:3583-3589 | Or-ing a value into the place of one sample changes that sample alone |
| Samples.ReadSample | src/libspng/spng.c:4654-4659 | The sample at a bit position, by multiplying out the position |
| Samples.OrSampleAt | src/libspng/spng.c:3583-3589 | Sets the sample at a bit position; no other sample and no other byte changes |
| Interlace.GatherPacked | src/libspng/spng.c:4637-4672 | The scanline holds the samples of the pass in order, packed |
| Interlace.ScatterPacked | src/libspng/spng.c:3573-3593 | Each sample of the pass is or-ed into its own place, and no other sample changes |
| Interlace.GatherWhole | src/libspng/spng.c:4674-4681 | The same for pixels of whole bytes |
| Interlace.ScatterWhole | src/libspng/spng.c:3598-3603 | The same for pixels of whole bytes |
| Scaling.SampleToTarget | src/libspng/spng.c:1712-1739 | For 0 < sbits <= bit depth and a target of 1 to 16 bits the loop ends with the significant bits replicated, or cut to the target |
| Scaling.UpscaleIsFloor | src/libspng/spng.c:1725-1738 | The upscaled sample is floor(2^target * s / (2^sbits - 1)), except that the maximum becomes the maximum |
| Scaling.UpscaleIsMonotone | src/libspng/spng.c:1725-1738 | A larger sample never becomes a smaller one |
| Scaling.UpscaleIsNearlyLinear | src/libspng/spng.c:1725-1738 | The result lies strictly within 1 of exact linear scaling |
| Scaling.DownscaleUndoesUpscale | src/libspng/spng.c:1719-1738 | Scaling back down gives the sample again |
| Chunks.CrcAppend | src/libspng/spng.c:893-938 | The CRC over two pieces, one continued from the other, is the CRC over both |
| Chunks.StreamDetermines | src/libspng/spng.c:920-978 | A byte string is the stream of at most one list of chunks |
| Chunks.IendIsChunk | src/libspng/spng.c:995-999 | The fixed twelve bytes of the last chunk are those of an empty IEND, CRC included |
| ChunkWriter.Writer.Grow | src/libspng/spng.c:824-839 | For up to 2^63 bytes the doubling ends at a size that is enough and below 2^64 |
| ChunkWriter.Writer.RequireBytes | src/libspng/spng.c:793-850 | There is room afterwards and the file so far is unchanged, wherever it was moved to |
| ChunkWriter.Writer.WriteData | src/libspng/spng.c:852-884 | Buffered or streamed, exactly the data is appended; more than 8192 bytes at once are refused in a stream |
| ChunkWriter.Writer.WriteHeader | src/libspng/spng.c:886-908 | A chunk is begun without a byte of the file changing |
| ChunkWriter.Writer.TrimChunk | src/libspng/spng.c:910-918 | The chunk keeps the first bytes of its data; it cannot be made longer |
| ChunkWriter.Writer.FinishChunk | src/libspng/spng.c:920-978 | The file is longer by exactly the chunk, sealed in place with its length, type and CRC, whether it grows in a buffer or leaves in pieces of at most 8192 bytes |
| ChunkWriter.Writer.WriteChunk | src/libspng/spng.c:980-993 | The same for a whole chunk; a chunk that is too long or has no destination leaves the file as it was |
| IdatWriter.IdatWriter.WriteIdatBytes | src/libspng/spng.c:4486-4520 | Deflate has taken in the scanline, all of it and in order, however little it takes per call; whatever it emits, what it has made is in the finished chunks and the one under construction, and nothing of it is lost |
| IdatWriter.IdatWriter.FinishIdat | src/libspng/spng.c:4522-4559 | Deflate is finished with nothing more taken in, and the file holds a run of IDAT chunks, all but the last full, whose payloads put together are all that it has made |
| IdatReader.IdatReader.ReadIdatBytes | src/libspng/spng.c:1359-1387 | At least one more byte of the image data, past any number of empty chunks, with nothing lost between what inflate took, what it is offered and what is unread, in streams and buffers alike; in an intact run of chunks it succeeds as long as there are more |
| IdatReader.IdatReader.ReadScanlineBytes | src/libspng/spng.c:1389-1423 | Exactly the next bytes that inflate produces, whatever it consumes per call; from an intact run of chunks that hold the data inflate was made for, it succeeds as long as there are so many |
| IdatReader.SegmentationIsInvisible | src/libspng/spng.c:1359-1387 | Two ways of cutting the same compressed bytes into chunks, empty ones included, give inflate the same bytes, namely the payloads put together |
| ChunkSource.Source.BufferRead | src/libspng/spng.c:5009-5021 | (data - base) + last_read_size + bytes_left stays the input size; too long a read changes nothing |
| ChunkSource.Source.ReadData | src/libspng/spng.c:770-790 | The next bytes of the input, at the data pointer, and bytes_read advanced by as many, or an error and nothing read |
| ChunkSource.Source.ReadAndCheckCrc | src/libspng/spng.c:1021-1049 | Four bytes are read, and the verdict is the one the two CRC actions prescribe for a CRC accumulated piece by piece over type and data |
| ChunkSource.Source.ReadHeader | src/libspng/spng.c:1052-1095 | Exactly twelve bytes; the next chunk is the one that stands there; it is flagged for discarding exactly when its predecessor's CRC was computed, does not match and the action says so |
| ChunkSource.Source.ReadChunkBytes | src/libspng/spng.c:1098-1114 | Succeeds exactly when that much of the chunk and of the input is left, and takes the CRC over it |
| ChunkSource.Source.ReadChunkBytes2 | src/libspng/spng.c:1117-1150 | The same bytes, in streams read in pieces |
| ChunkSource.Source.DiscardChunkBytes | src/libspng/spng.c:1152-1180 | Passes over the rest of a chunk, with its CRC still taken |
| ChunkSource.Source.PassChunk | src/libspng/spng.c:1021-1095 | From one header to the next: a damaged critical chunk is refused exactly if neither action is to use chunks unchecked, also not the one for ancillary chunks; a damaged ancillary one is refused, flagged for dropping or used as its own action says; an intact one passes |
| ChunkSource.Source.PassIhdr | src/libspng/spng.c:2265-2295 | Not so the header chunk: it is refused exactly if its CRC is wrong and the action for critical chunks is not to use them, whatever that for ancillary ones is |
| ChunkSource.ReadDamaged | src/libspng/spng.c:1082-1084 | A critical chunk with one bit of its CRC wrong, under every pair of actions: with the strictest action for critical chunks it passes if ancillary ones are used unchecked |
| Metadata.ParseTouches | src/libspng/spng.c:2421-2687 | Reading one kind of small chunk changes no other value, a success leaves a value that passes its check, and a palette that is refused leaves its number of entries if that is what was wrong |
| Metadata.ReadSmallKeeps | src/libspng/spng.c:2358-2687 | A small chunk, accepted or not, keeps the invariant that every stored flag stands for a valid value, though values are overwritten before they are checked; a palette keeps it if it is accepted |
| Metadata.RefusedPalette | src/libspng/spng.c:2420-2427 | A refused palette chunk loses that invariant exactly if its place and length were right and either there was a palette or the number of entries is above 256 |
| Metadata.SecondPalette | src/libspng/spng.c:2425-2427 | A second palette of 300 entries does |
| Metadata.RollbackKeeps | src/libspng/spng.c:2372-2377 | Dropping stored flags keeps that invariant |
| Metadata.ReadSmallConsumes | src/libspng/spng.c:2413-2417 | A small chunk that is accepted was read to its end |
| ChunkReader.Reader.IncreaseCache | src/libspng/spng.c:715-736 | Succeeds exactly within the limits, and changes the usage only then |
| ChunkReader.Reader.RunUndo | src/libspng/spng.c:2314-2356 | The last entry goes, the earlier ones stay, and the usage is what it was, up to a named leak; what text chunks give back is left open |
| ChunkReader.Reader.DropChunk | src/libspng/spng.c:3187-3199 | A dropped chunk leaves the stored flags, both lists and all earlier entries as before it |
| ChunkReader.Reader.BeginChunk | src/libspng/spng.c:2368-2382 | The same when the bad CRC is only found with the next header, which then starts from a clean slate |
| ChunkReader.Reader.SmallChunk | src/libspng/spng.c:2411-2687 | The values and the error are those of the chunk, if enough of it is there; the invariant is kept unless a palette was refused |
| ChunkReader.Reader.UnknownChunk | src/libspng/spng.c:3041-3090 | Kept with its data and place, or passed over; dropped after that it leaves nothing |
| ChunkReader.Reader.SpltChunk | src/libspng/spng.c:2923-3040 | Appends the palette it parses; with room for it, a palette is refused if it is wrong; what it leaves in the cache usage when it is dropped is its length if it was read and is wrong, and nothing otherwise |
| ChunkReader.Reader.ExifChunk | src/libspng/spng.c:2692-2722 | Stored only if it passes its check, within the limits; with room for it, the first exif data are refused exactly if they fail the check; dropped for that or later they leave exactly their length in the cache usage, dropped as a duplicate nothing |
| ChunkReader.Reader.HandleChunk | src/libspng/spng.c:2379-3100 | An acceptable chunk is accepted; one that is wrong is refused with the error that is named for it (ErrorIn): exif data that are none or not the first, a wrong palette or one behind the image data, a small chunk that is empty, in the wrong place, a duplicate or wrong in its data; in the wrong place it changes nothing at all; and what any chunk but iCCP and text leaves in the cache usage if it is dropped is told by its type and data, the flags and palettes before it and the place (LeftBy); a second header, an early or longer last chunk, image data without their palette or again after other chunks, and an unknown critical chunk end the loop, each with its own failure |
| ChunkReader.Reader.OneRound | src/libspng/spng.c:2366-2378 | A chunk whose CRC does not match, if the action is to drop it, is undone before the next one is looked at: flags and lists are as before it, and the cache usage is what it was and what LeftBy says |
| ChunkReader.Reader.ReadNonIdatChunks | src/libspng/spng.c:2358-3100 | Ends, since each round reads at least 12 bytes; a recoverable failure leaves everything needed to drop the chunk; an intact and acceptable run of chunks is accepted one by one, before the image data up to them, and behind them, past any more image data, to the end of the last chunk; a wrong chunk behind such a run stops it with the error named for it, and with what has been kept before |
| ChunkReader.Reader.ReadIhdr | src/libspng/spng.c:2265-2312 | The first 29 bytes decide the outcome, by the checks in their order and the sizes of the scanlines, which must not need more than 32 bits; on success that header is taken over |
| ChunkReader.TooWide | src/libspng/spng.c:2299-2309 | The widest image with the deepest pixels passes every check on its header and is refused for its size, which leaves the decoder invalid |
| ChunkReader.Reader.Recover | src/libspng/spng.c:3185-3199 | The rest of the chunk is passed over and the chunk dropped without a trace in flags and lists |
| ChunkReader.Reader.ReadRound | src/libspng/spng.c:3126-3209 | Either the loop is left or input is used up; a chunk that is passed over leaves flags and lists as before it, and the cache usage as it was and what LeftBy says; from any run of acceptable chunks with a wrong one behind it, these are all kept, and the wrong one is passed over, and leaves everything as it was if it is in the wrong place; the input then goes on behind it; only a wrong PLTE chunk or a strict decoder ends it, with the error that is named |
| ChunkReader.Reader.ReadChunks | src/libspng/spng.c:3103-3213 | In every state but the invalid one: stored flags stand for valid values, the limits hold, and from the first image data on an indexed image has a palette, also after later PLTE chunks; the loop ends, also through recoverable errors; only failures lead to the invalid state; intact and acceptable chunks are all accepted, before the image data and after them to the end of the file |
| ChunkReader.Reader.EndImage | src/libspng/spng.c:3536-3545 | After the last row the rest of the IDAT chunk is passed over, and the end of the image is reached exactly if it is there |
| ChunkReader.IdatsSkipped | src/libspng/spng.c:2393-2400 | More image data right behind the image data are skipped and cost nothing; what follows them is read as it stands |
| Printing.ParsePrinted | src/libspng/spng.c:4036-4317 | Each small chunk as it is written reads back over whatever was held before |
| FileFormat.Names | src/libspng/spng.c:375-397 | Every kind of chunk that is told apart is told by the four letters of its name, such as gAMA, as they stand in the file |
| FileFormat.Capitals | src/libspng/spng.c:748-754 | Names that start with a capital letter are those of critical chunks, with a small letter of others |
| FileFormat.ParsedInNumbers | src/libspng/spng.c:2421-2687 | Of each small chunk: which lengths and bytes are refused and with which error, and which bytes are which field of the value |
| FileFormat.ReadInNumbers | src/libspng/spng.c:2411-2687 | And with the place: cHRM, gAMA, sBIT and sRGB are refused behind PLTE, these and bKGD, tRNS, hIST, pHYs and oFFs behind the image data, hIST without PLTE, PLTE behind tRNS, hIST and bKGD, and every second one but of PLTE; a chunk in the wrong place changes nothing, one with wrong data no flag, and no other is refused |
| FileFormat.PrintedInNumbers | src/libspng/spng.c:4036-4473 | The bytes that are written for a value are those that say what it is |
| FileFormat.PaletteInNumbers | src/libspng/spng.c:2959-3034 | A suggested palette that is accepted is a name, a zero, a depth and entries of 6 or 10 bytes, and which byte is which sample |
| FileFormat.PaletteErrors | src/libspng/spng.c:2959-2990 | And what is wrong with one that is not: the name, a name that is there already, the length, the depth, in this order |
| FileFormat.WrittenPaletteInNumbers | src/libspng/spng.c:4268-4317 | And so is one that is written |
| FileFormat.ExifInLetters | src/libspng/spng.c:2189-2203 | Exif data start with II, 42 and 0, or with MM, 0 and 42 |
| LongChunks.SpltBackExactly | src/libspng/spng.c:4268-4317 | Of the suggested palettes that the setter admits, exactly those with entries and a new name, and not too long for a chunk, can be written and are accepted, and exactly those of them whose samples fit the depth come back |
| LongChunks.HeaderIsExact | src/libspng/spng.c:4273-4283 | The length that a palette's chunk is given is that of its data exactly if the product of entries and their size does not wrap around at 32 bits, and short of it otherwise |
| LongChunks.SpltEntries | src/libspng/spng.c:2976-2996 | A palette that is accepted has at least one entry, and no more than its data holds |
| LongChunks.ParsedIsOk | src/libspng/spng.c:2959-3034 | Every palette that is accepted, from a chunk of any length it may have, is one that would be written and read back |
| MetadataRoundTrip.ReadsBackExactly | src/libspng/spng.c:4019-4473 | For every header and all that the setters admit: the chunks before the image data can be written, pass every position and duplicate check and give back every value, the exif data, the palettes and the unknown chunks in order, if and only if what is held is consistent: a background and alpha values that fit the palette of now, at least one alpha value, palettes with entries in range, not too long for a chunk and with names of their own, unknown chunks of unknown ancillary types |
| MetadataRoundTrip.FitsExactly | src/libspng/spng.c:886-889 | Of all that the setters admit, nothing but a suggested palette can be too long for a chunk |
| MetadataRoundTrip.PrintedReadsBack | src/libspng/spng.c:4019-4473 | The forward half, with what the decoder then has |
| MetadataRoundTrip.ReadAllKeeps | src/libspng/spng.c:2358-3100 | Whatever chunks a decoder accepts, all that it keeps is valid: values, palettes of distinct names, unknown chunks |
| MetadataRoundTrip.AfterIdatExactly | src/libspng/spng.c:4475-4483 | Behind the image data, too, the unknown chunks come back exactly if their types are unknown and ancillary |
| MetadataRoundTrip.PlaceAfterPalette | src/libspng/spng.c:3064-3071 | An unknown chunk that is to follow the palette keeps its place exactly if there is a palette |
| MetadataRoundTrip.AlphasAccepted | src/libspng/spng.c:2602-2609 | The tRNS chunk of an indexed image is accepted exactly if it has alpha values, and no more than the palette has entries |
| MetadataRoundTrip.BackgroundAccepted | src/libspng/spng.c:2570-2577 | The bKGD chunk of an indexed image is accepted exactly if the palette has that entry |
| MetadataRoundTrip.PaletteAccepted | src/libspng/spng.c:2923-3040 | A suggested palette that the setter admits is written and accepted exactly if it has entries, a new name and a length that a chunk may have, and comes back exactly if its samples fit besides |
| MetadataRoundTrip.UnknownAccepted | src/libspng/spng.c:3041-3090 | A chunk set as unknown comes back as one exactly if its type is unknown and ancillary |
| Setters.Settings.SetIhdr | src/libspng/spng.c:5603-5618 | Once, with the checks on the header; what was set before it still holds |
| Setters.Settings.SetPlte | src/libspng/spng.c:5620-5636 | The palette is replaced if its size fits; alpha values and background are not looked at |
| Setters.Settings.SetTrns | src/libspng/spng.c:5638-5668 | Refused exactly without a header, with a colour type that has alpha, and for more alpha values than the palette of now has entries; none at all are admitted |
| Setters.Settings.SetBkgd | src/libspng/spng.c:5868-5896 | An index must be in the palette of now |
| Setters.Settings.SetHist | src/libspng/spng.c:5898-5910 | The whole array, if there is a palette |
| Setters.Settings.SetSplt | src/libspng/spng.c:5926-5954 | Names and depths are checked, entries and repeated names are not |
| Setters.Settings.SetUnknownChunks | src/libspng/spng.c:5970-6007 | Lengths are checked, types are not |
| Setters.Settings.SetExif | src/libspng/spng.c:6023-6037 | Only what passes its check |
| Setters.Settings.SetSbit | src/libspng/spng.c:5758-5772 | As an example of the seven setters of plain values (also cHRM, gAMA, sRGB, pHYs, tIME and oFFs): a value that passes its check, here against the depth of the header, takes the place of the one before, and everything else stays |
| Setters.NotComingBack | src/libspng/spng.c:5620-6007 | Nine sequences of calls that the setters admit and whose chunks do not come back: no alpha values, alpha values or a background for a palette that was then replaced by a smaller one, a palette without entries, one with too many, two of one name, samples beyond 8 bits, a known type, a critical type |
| MetadataWriter.WriteChunksBeforeIdat | src/libspng/spng.c:4019-4473 | For all that the setters admit, apart from palettes whose length wraps around, and buffered or streamed: exactly if no palette is too long for a chunk, the file grows by exactly the signature, the header and the expected chunks in their order |
| MetadataWriter.MoreSplts | src/libspng/spng.c:4268-4317 | All the palettes in their order, or a refusal at the first that is too long for a chunk |
| MetadataWriter.WriteChunksAfterIdat | src/libspng/spng.c:4475-4483 | And behind the image data by the rest of the unknown chunks and the last chunk |
| MetadataWriter.MoreUnknowns | src/libspng/spng.c:1001-1017 | The unknown chunks of one place, in their order |
| MetadataWriter.LayPlte | src/libspng/spng.c:4169-4180 | The loop lays out the palette |
| MetadataWriter.LayHist | src/libspng/spng.c:4221-4232 | The loop lays out as many frequencies as the palette has entries |
| MetadataWriter.LaySplt | src/libspng/spng.c:4268-4317 | The loop lays out the name, the depth and every entry of a suggested palette |
| FileRoundTrip.ReadWhatWasWritten | src/libspng/spng.c:3103-3213 | For every header whose sizes fit and all that is held and consistent, a decoder with room for it reads the written file up to the image data without an error and has all of it, whatever its CRC actions, from a buffer or a stream |
| FileRoundTrip.OpenImageData | src/libspng/spng.c:1359-1387 | And inflate is then given exactly the bytes deflate produced, however they were cut into chunks |
| FileRoundTrip.ReadTheEnd | src/libspng/spng.c:3126-3140 | Wherever in the run of IDAT chunks the image ends, the rest of the run is passed over, the unknown chunks behind it are kept, and the last chunk is read to the last byte of the file |
| FileRoundTrip.WrittenBegins | src/libspng/spng.c:4019-4036 | What is written begins with the bytes of the signature, the length 13, IHDR, and the fields of the header, big-endian |
| FileRoundTrip.AllInLetters | src/libspng/spng.c:4019-4473 | Every value that is held stands in it under the name of its kind, in bytes that say what it is, and so do the exif data and the palettes |
| FileRoundTrip.WrittenInOrder | src/libspng/spng.c:4019-4473 | The chunks stand in this order: cHRM, gAMA, sBIT, sRGB, unknown ones, PLTE, bKGD, hIST, tRNS, pHYs, sPLT, tIME, oFFs, eXIf, unknown ones |
| SmallFiles.ReadGamma | src/libspng/spng.c:3103-3213 | A file byte by byte, with the CRCs that it has: its header and its gamma of 45455 are read |
| SmallFiles.ReadMisplaced | src/libspng/spng.c:2478-2481 | A file byte by byte with the gamma behind the palette: the palette is kept, and no gamma |
| SmallFiles.DroppedExif | src/libspng/spng.c:2692-2722 | A file byte by byte with exif data that are none: nothing is stored, and four bytes are used of the cache |
| RingList.AnyNodeHeads | include/list.h:30-32 | A ring read from any of its nodes is still a ring |
| RingList.EntriesAreDetermined | include/list.h:30-32 | Head and links determine the entries |
| RingList.TestsReadTheSequence | include/list.h:189-244 | Empty, careful empty, singular and last entry are what they say about the sequence |
| RingList.Init | include/list.h:48-52 | An empty list, whatever the node was before |
| RingList.ListAdd | include/list.h:60-81 | The entry comes first |
| RingList.ListAddTail | include/list.h:92-95 | The entry comes last |
| RingList.ListDel | include/list.h:104-126 | The entry at any position goes, the others stay in order, and its links are null |
| RingList.ListDelInit | include/list.h:155-159 | The entry goes and is an empty list itself |
| RingList.ListReplace | include/list.h:135-142 | The new node takes the place of the old, also as the head; an empty head is overwritten as documented |
| RingList.ListReplaceInit | include/list.h:144-149 | And the old one is an empty list |
| RingList.ListMove | include/list.h:166-170 | From any position of this or another list to the front |
| RingList.ListMoveTail | include/list.h:177-182 | From any position of this or another list to the end |
| RingList.ListRotateLeft | include/list.h:227-235 | The first entry comes last |
| RingList.ListCutPosition | include/list.h:246-284 | Splits the entries behind the given one; the head itself cuts nothing off; an empty list is left alone even then, and so is a single entry when another node is asked for |
| RingList.ListSplice | include/list.h:286-310 | The entries of one list come before those of the other |
| RingList.ListSpliceTail | include/list.h:317-322 | The entries of one list come behind those of the other |
| RingList.ListSpliceInit | include/list.h:331-338 | And the emptied list is a list again |
| RingList.ListSpliceTailInit | include/list.h:348-355 | And the emptied list is a list again |
| RingList.CutThenSplice | include/list.h:272-338 | Cutting at any entry or at the head and splicing back restores the list, except that an empty head takes over what the other list held |
| RingList.DeleteEach | include/list.h:437-439 | With the next cursor read before the entry is deleted, every entry is visited once, in order, and the list ends empty |
| MessageQueue.FirstInFirstOut | src/function/csv_msg.c:664-803 | In every interleaving of pushes with the consumer's steps, the executed messages followed by the pending ones are the pushed ones in order; no step touches freed memory, though addresses may be reused; the cached cursor is the head or a live node |
| MessageQueue.DrainIsComplete | src/function/csv_msg.c:781-804 | A drain that ends has executed everything queued when it began, and exactly what was pushed before a cursor was read as the head |
| MessageQueue.LeftForTheNextDrain | src/function/csv_msg.c:781-803 | What is pushed after that is left, in order, for the next drain |
| MessageQueue.DrainEnds | src/function/csv_msg.c:781-803 | Without further pushes a drain ends, within a bounded number of steps |
| MessageQueue.EveryRunKeeps | src/function/csv_msg.c:664-803 | The invariant holds after every schedule, and no step of one is ever impossible |
| MessageQueue.RingNext | include/list.h:437-439 | On a well-formed ring, following a link is what the protocol calls the next node |
| MessageQueue.FirstMatch | src/function/csv_msg.c:739-763 | The first command enrolled for the type, or past the end |
| MessageQueue.CommandQueue.CommandAdd | src/function/csv_msg.c:583-597 | The command comes last in the order of lookup |
| MessageQueue.CommandQueue.Execute | src/function/csv_msg.c:739-763 | The handler of the first command enrolled for the type, or none |
| MessageQueue.CommandQueue.Push | src/function/csv_msg.c:664-702 | Fewer bytes than a header are refused; otherwise exactly the abstract push, of the header and as much of the memory behind it as it says, whether that was received or not: the first four bytes are the command, the next the length, the next the result, lowest byte first, and then comes the payload |
| MessageQueue.CommandQueue.Check | src/function/csv_msg.c:704-737 | What is missing of a message is asked for once; any positive answer counts for all of it, and otherwise nothing is pushed |
| MessageQueue.ReceivedWhole | src/function/csv_msg.c:717-719 | What is pushed is made of the received bytes alone exactly if none are missing by the header |
| MessageQueue.CommandQueue.Consume | src/function/csv_msg.c:781-803 | Exactly one abstract consumer step on the real list; every message executed so far was given to the handler of the first command that was enrolled for its type at that time, or to none if there was none |
| MessageQueue.Deliver | src/function/csv_msg.c:664-803 | Twelve bytes 5 0 0 0, 0 0 0 0, 7 0 0 0: of handlers for 7 and for 5 the one for 5 is called |
| MessageQueue.MissingInBytes | src/function/csv_msg.c:717-719 | What is missing is the length in the second word less what has come behind the header |
| XmlTree.GetNumNodes | src/function/csv_xml.c:99-119 | The number of nodes of that name at and below the node |
| XmlTree.GetNode | src/function/csv_xml.c:121-154 | The node of that name at the index in document order, with the tree unchanged; if there are too few, exactly one child is appended to the node asked, and the file is to be saved |
| XmlTree.NewChild | src/function/csv_xml.c:152-152 | A new last child, the rest of the tree as it was |
| XmlTree.Field | src/function/csv_xml.c:184-240 | The first child of that name is read, or its text replaced if it has any; a missing child is created with the value; no other field of any node says anything else |
| XmlTree.OneParent | src/function/csv_xml.c:112-116 | Why that is so: no node of the tree is the child of two |
| XmlTree.FilledAt | src/function/csv_xml.c:178-290 | With a key for each pair, every pair sees to its own field and its own answer |
| XmlTree.SetThenGet | src/function/csv_xml.c:356-374 | What is set is read back, except that an empty value replaces nothing and an element without text keeps none |
| XmlTree.NodeData | src/function/csv_xml.c:156-384 | The node picked ends with a child for every key, its fields and the answers are those of the pairs one after the other, and no other node's fields change but for the node created; if it had them all, nothing is created and nothing is to be saved |
| XmlTree.DlpAttribute | src/function/csv_xml.c:416-476 | Exactly one node is created if the index is the next one, none below, and two beyond; the node gets its number, its four fields are read or set, and those of the others stay |
| XmlTree.DlpPass | src/function/csv_xml.c:486-491 | Ends with at least four distinct nodes DlpAttribute, the first four with the fields name, rate, brightness and expoTime and an id that is their index in decimal; what is read is the text of these fields, in this order, or what the caller had; what they say afterwards is what they said, or what was given, or 0 |
| XmlTree.DlpPassTwice | src/function/csv_xml.c:478-492 | Reading again creates nothing and does not ask for the file to be saved |
| XmlTree.SetPassThenGetPass | src/function/csv_xml.c:486-491 | Every value given to a pass that sets comes back from one that reads, for all nodes and fields, except that an empty value keeps an old text and an element without text keeps none |
| XmlTree.ReadsWhatWasSet | src/function/csv_xml.c:293-384 | The same for any pairs with distinct keys |
| XmlTree.DlpConfiguration | src/function/csv_xml.c:478-492 | The pass runs below the first node of that name; if there is none, one is created as the last child of the node asked; nothing outside of it changes |

## Left out

- zlib's own algorithms, its error codes and window options: deflate and inflate are the pipes above. That inflating what was deflated gives it back is assumed, as the contract of one constructor.
- Allocation failures, and errors reported by read and write callbacks other than the end of the input.
- ChunkReader.Reader.OtherChunk: says nothing of what iCCP, tEXt, zTXt and iTXt chunks hold or of what they cost exactly; it lets them read any part of themselves, leave any cache usage within the limits, also a lower one, and succeed or fail, so that the invariants hold for files that contain them.
- Decoder contexts on which a caller has set chunks of his own: the flags that mark them are not modelled.
- MetadataWriter.WriteChunksBeforeIdat: writes no iCCP and text chunks, which go through deflate; their setters are not modelled either. Palettes whose length wraps around at 32 bits are required not to be there, since the program then writes more than it made room for, of which nothing can be said.
- WholeFile.WriteFile: requires the same of palettes.
- MetadataWriter.Lay: chunks of a few fields are laid out as values, without the scratch array that the palette and the histogram go through.
- MetadataWriter.LaySplt: lays the palette out in a sequence that is then copied, where the program writes it in place.
- Metadata: the struct fields that small chunks fill are one record value, replaced as a whole by the step that reads a chunk.
- ChunkWriter.Writer.RequireBytes: assumes at most 2^63 bytes in all, below which the program's own overflow test cannot fire; sizes are then unbounded integers.
- Gamma tables, chromaticity conversion, the other output formats of the decoder (expansion of palettes, transparency, scaling of whole rows), getters, setters of options and limits, and error strings.
- WholeFile.WriteThenRead: the encoder hands the rows to deflate after all of them have been filtered, and the decoder takes all of them from inflate before the first is rebuilt; the program does both row by row. Rows one by one at a caller's pace are not modelled.
- Compression levels, but for the one that turns filters off.
- The lanes of SIMD registers above those that are stored, and the prototypes for other targets.
- RingList: the hlist functions, which none of the modelled files uses, and the iteration macros other than list_for_each and list_for_each_safe.
- MessageQueue: locks, signals, time-outs and memory-model effects; each list operation and each read of a link is one atomic step. Freeing the queue and the commands on exit is not part of this model.
- MessageQueue.CommandQueue.Check: the socket is its answer and what the memory holds after it.
- MessageQueue.CommandQueue.Execute: names the handler where the program calls it and passes on its answer.
- XmlTree.NodeData: takes an existing node, element pairs and values already printed as text; null arguments other than the node of GetNode, attribute pairs, invalid types, number formatting and the special characters of XML text are not modelled.
- XmlTree.GetNumNodes: counts without the 32-bit limit, which a tree in memory does not reach.
- XmlTree.DlpPassTwice: speaks of the nodes below the configuration node.
- Files, sockets, cameras, projectors, GPIO, logging, the web server, the point-cloud writer in include/3d/csvPoint3DCloud.hpp and the OpenCV code.
