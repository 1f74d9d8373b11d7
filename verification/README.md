# A verified model of five parts of the kernel

The project models the kernel's self-contained, deterministic logic and proves what each part is for.

- **PNG and DEFLATE** (`kernel/png.c`). `Bits`, `BitReading`, `Huffman`, `Deflate`, `Inflater`, `Encoder`,
  `EncoderReach`, `FixedCode`, `Truncation`, `InflaterSound`, `Png`, `PngMeaning`, `PngDecoder`, `PngEncoder`, `PngReach` and
  `PngSample`. The decoder is imperative, as in C: a
  bit reader whose fields advance, Huffman tables filled in loops, an output array that matches are copied within, image
  rows restored in place. Each routine is proved against a function on bit strings, and the encoder side is written independently from RFC 1951, RFC 1950 and the
  W3C PNG specification. The main results are that canonical Huffman decoding inverts the code, that `inflate` undoes
  every legal encoding, that it accepts nothing else (`InflaterSound.AcceptsEncodings`), and that `png_decode` undoes every
  one-IDAT encoding. `Truncation` says when an accepted stream was read inside its bounds. `FixedCode` pins the code tables
  and `PngMeaning` the filters and samples in the numbers of the standards, apart from the functions encoder and decoder share.
- **Virtqueue and network driver** (`kernel/drivers/virtio/`). `Virtqueue` holds the driver's calls in place over the
  descriptor table and rings; `VirtqueueProtocol` interleaves them with device moves, with the store of a ring slot and
  the store of its index as separate steps; `VirtioNet` adds transmission, receive seeding and the 32-frame inbox ring,
  `RxRuns` the receive queue over whole runs.
- **Memory** (`kernel/mm/`, `kernel/arch/x86_64/paging.c`). `Pmm` is the bitmap frame allocator, `Paging` and
  `PageMapper` the four-level tables and the mapper that refines a flat translation, `TableNeed` the count of the tables a
  mapping has to create, `KheapBacking` the loop of `kheap_init` in which heap pages and page tables draw on one
  allocator, `Kheap`, `KheapAllocator` and `KheapRuns` the first-fit heap: the list of blocks, the linked headers in memory that represent it, and whole runs.
- **Compositor and windows** (`kernel/desktop.c`, `kernel/framebuffer.c`). `Compositor` has the backbuffer, the one or
  two scanout pages, clipped drawing, damage and presenting; `Windows` the geometry and stacking rules; `Desktop` the
  window table and pointer state machine over them, tied to the functions of `DeskState`; `DeskRuns` says what rounds of
  input come to, and `WrapRun` is a run that wraps the stacking counter.
- **TCP and HTTP client** (`kernel/netstack.c`). `Checksum` and `NetFrames` are the checksum and the frames built and
  parsed; `Tcp` is the connection as a state machine with theorems over every run, `TcpSends` what it sends and
  when; `TcpClient` is the record updated in place, each routine proved to take the corresponding step.

`Common` holds what several modules share. Rendering is an arbitrary list of clipped fill and pixel primitives.
Allocation failure, the time, the received segments, name lookup results and whether the gateway is known are parameters. A state-changing method is tied by its
contract to a function of the old state; the properties of that function are the lemmas beside it.

## What the proofs found in the code

- A bare FIN is not checked against the next expected number. `Tcp.BareFin` gives the exact condition under which such a
  FIN ends a complete transfer; in `Tcp.EarlyFinRun` a run from the start reports a good response as an error.
- While looking up and connecting, the retry counter is reset at every poll, so the limits of 8 queries and 24 SYNs are
  never reached (`Tcp.ConnectNeverGivesUp`); only the deadline ends the attempt.
- `ip_send`, `udp_send` and `ns_emit` accept payloads up to 1500 bytes, but a frame goes out only up to 1480, 1472 and
  1460. Above 1500, 1492 and 1480 nothing happens; in the band between, the identifier moves and `net_send` refuses the
  frame (`NetFrames.SendLimits`; `NetFrames.AcceptedAndLost` names such payloads).
- A table entry is stored present and writable, but the mapper leaves existing entries as they are: over existing read-only
  tables a new page is as writable as the tables above it were (`PageMapper.AddressSpace.MapAt`).
- The bitmap of `pmm_init` has a bit for every page exactly when the page total modulo 64 is 0 or at least 8
  (`Pmm.WordsSuffice`).
- A frame shortage inside the page mapper goes unseen until the next heap page. `KheapBacking.BackHeap`: all heap pages
  are mapped exactly when there is a free frame for each of them and for each table missing on their paths beforehand. The
  last page of a range needs a table of its own only as the first page of a large page (`TableNeed.LastNeedsIff`). So with
  the direct map on a 2 MiB boundary `kheap_init` stops the machine or maps the whole heap; only with an offset one page
  past such a boundary can the last heap page be left unmapped (`KheapBacking.InitHeap`; `KheapBacking.OffsetHeap` is such
  a start).
- `win_open` clamps the position before it enforces the minimum size, so a small requested size can be placed outside the
  work area, as in `Windows.SmallWindowStaysOut`; `Windows.PlacedInsideIff` is the exact condition. Every caller in the
  file meets it.
- With a wallpaper smaller than the screen nothing is drawn behind its edges: there, composing a region leaves what was in
  the backbuffer unless a primitive covers it, and an erased cursor stays visible. `Compositor.RegionForgetsIff` is the
  exact condition, `Compositor.Trail` a run with a 1920 by 1080 wallpaper on a larger screen.
- Image data split over two nonempty chunks is always rejected, although the decoder means to join adjacent chunks
  (`PngEncoder.SplitDataRejected`): it compares the places of their data, which are never adjacent.
- The chunk walk adds in 32 bits. It never ends exactly when it comes to a chunk of 2^32 - 12 bytes that is no image data
  (`Png.StuckIff`, `Png.EndlessReaches`; `Png.LongChunkHangs` is such a file). No file below 4 GiB has one
  (`Png.SmallFilesEnd`).
- The test whether the request was acknowledged compares sequence numbers without the wrap. It is sound exactly when the
  request does not cross the end of the 32-bit range (`Tcp.NotedIff`, and over runs `Tcp.AckSound`). When it does, a repeated
  SYN-ACK makes the client stop repeating a request that was lost (`Tcp.FalseAckRun`).
- The hit test returns the window seen at a point exactly when no other window there has its stacking number
  (`Windows.ClickIsSeenIffAlone`). Equal numbers arise once the 32-bit counter wraps: `WrapRun.MakeTie` gets there with
  window operations, and there the two disagree.
- An over-subscribed code table can pass `huff_build` (`Huffman.OverSubscribed`). Of an accepted table all symbols can be
  decoded exactly under Kraft's inequality (`Huffman.AllCodedIffKraft`); `Huffman.DecodeInvertsCode` covers every table.
- A read past the end yields minus one. That ends in a failure everywhere but in the repeat counts of a dynamic header:
  `Truncation.AcceptedReads` shows that an accepted stream inflates to the same bytes, leaving unread whatever follows it,
  exactly when no such count was read past its end. `Truncation.CutFile` is an accepted truncated stream of 13 bytes that is refused with
  any byte after it.

## Model

| member | source | states |
|---|---|---|
| BitReading.BitReader.Bits | kernel/png.c:29-39 | Reading n bits returns the number the next n stream bits denote, least significant first, and drops exactly those; past the end it returns the error value |
| BitReading.BitReader.Take | kernel/png.c:35-38 | Taking n buffered bits removes exactly those from the front of the stream |
| BitReading.BitReader.Align | kernel/png.c:163-166 | Dropping the buffered bits continues at the next byte boundary of the stream |
| Huffman.KraftFits | kernel/png.c:71-93 | Kraft's inequality makes every canonical code fit in its length |
| Huffman.KraftBuildable | kernel/png.c:79-82 | Every length vector that satisfies Kraft's inequality is accepted |
| Huffman.AllCodedIffKraft | kernel/png.c:71-93 | For lengths up to 15, every symbol with a code length has a code that fits it, and so can be decoded, exactly when the lengths satisfy Kraft's inequality |
| Huffman.OverSubscribed | kernel/png.c:79-82 | The lengths 1, 1, 2 are accepted although they break Kraft's inequality, and the third symbol can never be decoded |
| Huffman.BuildableIs | kernel/png.c:71-93 | huff_build accepts exactly the lengths up to 15 of which no length l belongs to more than 2^l symbols |
| Huffman.CountIs | kernel/png.c:73-78 | The count of a length is the number of symbols that have it |
| Huffman.CodeOfRank | kernel/png.c:59-62 | The symbol at a code's rank in the ordered list has that code |
| Huffman.FirstCodeCovers | kernel/png.c:64-65 | There are never more shorter codes than the first code of a length |
| Huffman.DecodeInvertsCode | kernel/png.c:51-69 | For every length vector, decoding yields symbol s and the rest exactly when the input is the canonical code of s followed by the rest |
| Huffman.DecodeAtEnd | kernel/png.c:52-69 | With no input bit left no symbol is decoded, whatever prefix was read |
| Huffman.DecodeProgress | kernel/png.c:52-69 | A decoded symbol is in the alphabet and consumed between 1 and 15 bits, a suffix remaining |
| Huffman.Huff.Build | kernel/png.c:71-93 | Accepts exactly the vectors with lengths up to 15 and at most 2^l codes of length l, and leaves the symbols ordered by length then value |
| Huffman.Huff.CountLengths | kernel/png.c:73-78 | Counts the codes of each length, refusing a length over 15 |
| Huffman.Huff.OrderSymbols | kernel/png.c:83-91 | Lists the symbols by length, then value; the overrun guard never fires |
| Huffman.Huff.NextSymbol | kernel/png.c:51-69 | The decoding loop over the live bit reader computes the decoding function |
| Deflate.KraftFixed | kernel/png.c:115-126 | Both fixed code tables satisfy Kraft's inequality |
| Inflater.FixedTables | kernel/png.c:115-126 | The fixed tables are built; their codes in numbers are `FixedCode.FixedLitCode` and `FixedCode.FixedDistCode` |
| Inflater.CopyBytes | kernel/png.c:242-244 | The in-place byte-by-byte copy equals the overlapping LZ77 copy |
| Inflater.CopyMatch | kernel/png.c:236-244 | One length and distance pair is read and copied as specified, with every refusal |
| Inflater.DecodeCodes | kernel/png.c:227-248 | The symbol loop writes exactly the block's expansion or fails exactly when it does not decode |
| Inflater.CopyStored | kernel/png.c:163-177 | A stored block appends its LEN bytes exactly when LEN and NLEN are complements, the bytes exist and they fit |
| Inflater.ReadCodeLengths | kernel/png.c:193-222 | The run-length coded lengths, symbols 16, 17 and 18 included, are read as specified and never overrun their total |
| Inflater.FillLengths | kernel/png.c:205-220 | A run is written whole, or refused exactly when it overruns the total |
| Inflater.ReadNextLengths | kernel/png.c:196-221 | One symbol and its run are read as specified, and always advance |
| Inflater.ReadCodeLengthCode | kernel/png.c:187-189 | The code-length code is read in its permuted order |
| Inflater.ReadTransmittedLengths | kernel/png.c:187-222 | Both alphabets' lengths are read with the code-length code, or refused |
| Inflater.ReadTables | kernel/png.c:183-224 | A dynamic header yields the two length vectors it encodes and their tables, or an error in exactly the specified cases |
| Inflater.DecodeBlock | kernel/png.c:161-248 | One block of any type appends exactly its specified bytes or fails |
| Inflater.Inflate | kernel/png.c:135-251 | For every input and capacity: terminates, succeeds exactly when the specification does, writes exactly its bytes, never past the capacity; what the specification accepts is `InflaterSound.AcceptsEncodings`, and `FixedCode.FixedFile` and `FixedCode.StoredFile` give it in literal bits and bytes |
| Encoder.CopyIsPeriodic | kernel/png.c:244-244 | The overlapping copy is the only extension of the output whose every new byte equals the byte one distance back |
| Encoder.TokenBack | kernel/png.c:227-248 | The decoder turns the code of one literal or match into its expansion, and fails exactly when it does not fit |
| Encoder.CodesBack | kernel/png.c:227-248 | The symbol loop inverts the encoding of every valid token list |
| Encoder.OpsBack | kernel/png.c:196-222 | The length loop inverts every encoding of the lengths with single lengths and runs |
| Encoder.CodeLengthCodeBack | kernel/png.c:187-189 | The permuted code-length code is read back as written |
| Encoder.HeaderBack | kernel/png.c:183-224 | A dynamic header is read back as written, for every choice of codes and runs |
| Encoder.BlockBack | kernel/png.c:158-249 | One stored, fixed or dynamic block decodes to its expansion |
| Encoder.StreamBack | kernel/png.c:158-251 | A list of blocks decodes to the expansion of all of them |
| Encoder.InflateUndoesCompress | kernel/png.c:135-251 | Inflating any legal encoding behind a zlib header gives back the LZ77 expansion, trailing bytes ignored; an encoding may use either length code for 258, any padding bits and any accepted code tables |
| EncoderReach.EveryOutputIsReached | kernel/png.c:135-251 | Every byte string is what some stream inflates to |
| EncoderReach.EveryTableHasAHeader | kernel/png.c:183-224 | Every pair of code tables that satisfies Kraft's inequality has a header that transmits it |
| FixedCode.LengthNumbers | kernel/png.c:97-104 | Length code c has base 3 + c and no extra bits below 8, base 3 + (4 + c mod 4) 2^(c/4 - 1) and c/4 - 1 extra bits below 28, and code 28 is 258 |
| FixedCode.DistanceNumbers | kernel/png.c:105-113 | Distance code c has base 1 + c and no extra bits below 4, and else base 1 + (2 + c mod 2) 2^(c/2 - 1) and c/2 - 1 extra bits |
| FixedCode.LengthsCovered | kernel/png.c:97-104 | The length codes cover 3 to 258 without gap or overlap, but for the second code for 258 |
| FixedCode.DistancesCovered | kernel/png.c:105-113 | The distance codes cover 1 to 32768 without gap or overlap |
| FixedCode.DistanceCodeIs | kernel/png.c:105-113 | A distance has exactly the one code whose range holds it |
| FixedCode.RankNumbers | kernel/png.c:128-131 | The code-length code comes in the order 16, 17, 18, 0, and then from 8 alternately down and up |
| FixedCode.FixedLitCode | kernel/png.c:115-126 | The fixed code of a literal or length symbol s is 0x30 + s in 8 bits, 0x190 + s - 144 in 9, s - 256 in 7, or 0xC0 + s - 280 in 8, for s below 144, 256, 280 and 288 |
| FixedCode.FixedDistCode | kernel/png.c:115-126 | The fixed code of a distance symbol is its number in 5 bits |
| FixedCode.FieldBit | kernel/png.c:29-39 | A field starts with its least significant bit |
| FixedCode.CodeBit | kernel/png.c:51-69 | A Huffman code ends with its least significant bit |
| FixedCode.ByteBit | kernel/png.c:29-39 | A byte is read from its least significant bit on |
| FixedCode.FixedTokensInNumbers | kernel/png.c:227-248 | The encoding of any literals and matches in a fixed block consists of those numbers, ended by seven zero bits |
| FixedCode.FixedFile | kernel/png.c:135-251 | Input made of those numbers, with or without a zlib header, inflates to what the literals and matches stand for, and leaves what follows unread |
| FixedCode.OneLetter | kernel/png.c:135-251 | The bytes 4B 04 00, with or without the header 78 9C, inflate to the letter a |
| FixedCode.StoredFile | kernel/png.c:163-177 | The byte 01, a length, its complement and the data inflate to the data |
| FixedCode.ZlibBits | kernel/png.c:141-148 | Two bytes are taken for a zlib header exactly when their bits say method 8, a window up to 2^15 and no dictionary, and the number they make is a multiple of 31 |
| Truncation.DecodeMore | kernel/png.c:51-69 | A decoded symbol does not depend on what follows its code |
| Truncation.MatchMore | kernel/png.c:236-244 | A match that is accepted had all its extra bits: a length or distance read past the end exceeds any output |
| Truncation.CodesMore | kernel/png.c:227-248 | An accepted symbol loop reads the same and leaves what follows unread |
| Truncation.ClcFull | kernel/png.c:187-190 | A code-length code that is accepted was all there: a length read past the end becomes 255 and is refused |
| Truncation.CodeLengthsMore | kernel/png.c:193-222 | The lengths are read alike whatever follows, unless a repeat count runs past the end; then what follows is eaten into |
| Truncation.TablesMore | kernel/png.c:183-224 | The same for a whole dynamic header: its counts and its code-length code are inside the input |
| Truncation.StoredMore | kernel/png.c:163-177 | An accepted stored block does not depend on what follows |
| Truncation.BlocksMore | kernel/png.c:158-251 | With any further bytes after it an accepted stream gives the same output and leaves those bytes unread, exactly when no repeat count was read past its end |
| Truncation.AcceptedReads | kernel/png.c:135-251 | The same for the input of inflate: accepted means every read was inside it, except exactly for such a repeat count |
| Truncation.CutIsAccepted | kernel/png.c:214-220 | A stream that ends inside a repeat count is accepted, and every longer stream that starts with it is refused |
| Truncation.CutFile | kernel/png.c:135-251 | The same as thirteen bytes behind a zlib header |
| InflaterSound.MatchSound | kernel/png.c:236-244 | An accepted length and distance pair is the encoding of a match that reaches back no further than the output |
| InflaterSound.CodesSound | kernel/png.c:227-248 | An accepted run of symbols is the encoding of some literals and matches and the end of the block, and the output is their expansion |
| InflaterSound.OpsSound | kernel/png.c:193-222 | Accepted code lengths are the expansion of the single lengths and runs that were read, none of them past the total |
| InflaterSound.ClcSound | kernel/png.c:187-189 | The code-length code read is the one written, in the permuted order, with zeros for what is not transmitted |
| InflaterSound.HeaderSound | kernel/png.c:183-224 | An accepted dynamic header, none of whose repeat counts is short, is the encoding of its two tables |
| InflaterSound.StoredSound | kernel/png.c:163-177 | An accepted stored block is padding, a length, its complement and that many bytes |
| InflaterSound.StreamSound | kernel/png.c:158-251 | An accepted stream, none of whose repeat counts is short, is the encoding of some blocks |
| InflaterSound.AcceptsEncodings | kernel/png.c:135-251 | For every input and capacity: inflate returns this output, and leaves this rest unread, with every repeat count inside the input, exactly when the input is the encoding of some blocks that expand to the output, followed by the rest, and the output fits |
| Png.UnfilterUndoesFilter | kernel/png.c:341-373 | For each filter type, restoring the filtered row over the same previous row gives the row back |
| Png.Paeth | kernel/png.c:359-366 | The predicted byte is the one of the left, upper and upper left bytes nearest to left plus upper minus upper left; on a tie the left comes first, then the upper |
| Png.RestoreUndoesFilterRows | kernel/png.c:336-373 | Restoring filtered rows one after another gives all rows back, for every per-row choice except Up on the first row |
| Png.PixelsAt | kernel/png.c:375-381 | Pixel x of row y is the row's x-th sample triple packed as 0x00RRGGBB |
| PngMeaning.ForetoldUnique | kernel/png.c:341-368 | Filter type and neighbours determine the predicted byte: none, the left, the upper, their mean rounded down, or the nearest of three |
| PngMeaning.RestoredBytes | kernel/png.c:341-368 | Every restored byte is the filtered one plus that prediction modulo 256, from the restored byte to the left, the one above and the one above left, zero before the start of a row |
| PngMeaning.RestoredRows | kernel/png.c:336-373 | The row loop accepts exactly the images with a known filter in every row, and not Up in the first, and restores each row over the one before it, the first over zeros |
| PngMeaning.PixelParts | kernel/png.c:375-381 | The red, green and blue samples are bits 16 to 23, 8 to 15 and 0 to 7 of a pixel |
| PngMeaning.RawShown | kernel/png.c:336-388 | A filtered image becomes a picture exactly with known filters, and pixel x of row y then has the samples of its restored row |
| PngMeaning.HeaderTaken | kernel/png.c:285-295 | A header chunk is accepted exactly with 13 bytes or more, 1 to 16384 pixels each way, 8 bits a sample, colour type 2 or 6 and methods 0, and sets the size its bytes say |
| PngMeaning.OthersTaken | kernel/png.c:296-309 | Image data is taken first or right behind the data so far, and every other chunk changes nothing |
| PngMeaning.PictureShown | kernel/png.c:260-388 | The decoder returns a picture exactly when the file has the signature, a header, image data, a size of at most 256 MiB that the data inflates to, and known filters; its pixels are the samples of the restored rows |
| PngDecoder.UnfilterSub | kernel/png.c:341-343 | The in-place Sub loop restores the row and touches nothing else |
| PngDecoder.UnfilterUp | kernel/png.c:344-347 | The same for Up |
| PngDecoder.UnfilterAverage | kernel/png.c:348-353 | The same for Average, with and without a row above |
| PngDecoder.UnfilterPaeth | kernel/png.c:354-368 | The same for Paeth, with and without a row above; `Png.Paeth` and `PngMeaning.RestoredBytes` say what is predicted |
| PngDecoder.UnfilterRow | kernel/png.c:341-373 | One row is restored in place for each of the five filter types |
| PngDecoder.PackRow | kernel/png.c:375-381 | The pixel loop appends exactly the row's packed pixels |
| PngDecoder.DecodeRow | kernel/png.c:336-381 | One turn of the row loop restores the row and appends its pixels, or refuses exactly a bad filter type or Up on the first row |
| PngDecoder.DecodeRows | kernel/png.c:336-382 | The row loop over the whole image computes the restored rows and their pixels, and fails exactly on a bad filter |
| Png.WalkIsTurns | kernel/png.c:279-312 | Turn by turn the loop stops with what the walk function says within one turn a byte, or the walk is endless and it never stops |
| Png.StuckIff | kernel/png.c:279-312 | The loop comes back to the same chunk exactly when its length is 2^32 - 12, it lies in the file, is accepted, and is neither image data nor the end |
| Png.EndlessReaches | kernel/png.c:279-312 | An endless walk comes to such a chunk |
| Png.SmallFilesEnd | kernel/png.c:279-312 | The walk over a file shorter than 2^32 + 4 bytes ends |
| Png.LongChunkHangs | kernel/png.c:279-312 | The signature and one chunk of 2^32 - 12 bytes of no known type make a file that never finishes decoding |
| PngDecoder.WalkChunks | kernel/png.c:274-315 | The chunk loop, with its 32-bit advance, finds the header fields and image data the specification finds, rejects as it does, or is endless as it says |
| PngDecoder.PngDecode | kernel/png.c:260-388 | Succeeds exactly when both allocations do and the file decodes, and then returns that picture; never returns exactly when the walk is endless; which files decode, and to which pixels, is `PngMeaning.PictureShown` |
| PngEncoder.WalkFile | kernel/png.c:274-315 | The chunk walk finds header and data of every written one-IDAT file, among any ancillary chunks and checksums, with chunk lengths up to 2^32 - 13 |
| PngEncoder.DecodeUndoesEncode | kernel/png.c:260-388 | Decoding a one-IDAT file gives back the image, for every filter choice, block split, code table, ancillary chunk and trailing bytes |
| PngEncoder.SplitDataRejected | kernel/png.c:296-306 | A file with a second nonempty IDAT chunk, adjacent or not, is rejected |
| PngReach.EveryPictureHasAFile | kernel/png.c:260-388 | Every image up to the size limit, with any filter choice, has a file that decodes to it |
| PngSample.SampleDecodes | kernel/png.c:260-388 | A file given byte by byte, one pixel by two with a Paeth row, decodes to the pixels 0x0A141E and 0x0F1923 |
| Virtqueue.Queue.constructor | kernel/drivers/virtio/virtio.c:222-264 | A new queue of the capped size has all descriptors chained free and all indices zero |
| Virtqueue.Queue.AllocDesc | kernel/drivers/virtio/virtio.c:311-321 | Takes the head of the free chain, or nothing exactly when none is free |
| Virtqueue.Queue.DescFill | kernel/drivers/virtio/virtio.c:323-333 | Writes address, length, direction and no successor into one descriptor and changes nothing else, or changes nothing for an id out of range |
| Virtqueue.Queue.SubmitDesc | kernel/drivers/virtio/virtio.c:335-344 | Stores the id in the slot of the wrapped counter and publishes the next one |
| Virtqueue.Queue.ReleaseDesc | kernel/drivers/virtio/virtio.c:346-354 | Pushes the descriptor on the free chain |
| Virtqueue.Queue.PopUsed | kernel/drivers/virtio/virtio.c:367-379 | Returns the element in the slot of the wrapped counter and advances it, or nothing when the indices agree |
| Virtqueue.Queue.AddBuffer | kernel/drivers/virtio/virtio.c:302-309 | Reserve, fill and submit as one call, changing nothing when no descriptor is free |
| VirtqueueProtocol.SlotIffDivides | kernel/drivers/virtio/virtio.c:338-343 | A slot computed from the wrapped 16-bit index is the right one for every counter exactly when the ring size divides 2^16 |
| VirtqueueProtocol.SameCounter | kernel/drivers/virtio/virtio.c:370-371 | Two counters no further apart than the wrap compare equal exactly when they are equal |
| VirtqueueProtocol.RoomToSubmit | kernel/drivers/virtio/virtio.c:335-344 | A descriptor that is not yet available leaves an unread ring slot free for it |
| VirtqueueProtocol.RoomToComplete | kernel/drivers/virtio/virtio.c:367-379 | A descriptor that is not yet used leaves an unread used slot free for it |
| VirtqueueProtocol.PopIsNext | kernel/drivers/virtio/virtio.c:367-379 | A pop returns the oldest completion not yet popped, and nothing only when there is none |
| VirtqueueProtocol.TakeIsNext | kernel/drivers/virtio/virtio.c:335-344 | What the device takes is the oldest submission not yet taken |
| VirtqueueProtocol.InitInv | kernel/drivers/virtio/virtio.c:251-264 | A freshly initialised queue satisfies the invariant |
| VirtqueueProtocol.StepKeeps | kernel/drivers/virtio/virtio.c:311-379 | Every driver call and device move keeps the ownership and ring invariant |
| VirtqueueProtocol.RunKeeps | kernel/drivers/virtio/virtio.c:311-379 | Every interleaving of driver calls and device moves keeps the ownership and ring invariant |
| VirtqueueProtocol.QueueSafety | kernel/drivers/virtio/virtio.c:251-379 | On every run: taken is a prefix of submitted and popped of completed, no unread slot is overwritten, every descriptor is in exactly one state, the free chain is exactly the free set without repetition |
| VirtqueueProtocol.NextTransferIsOldest | kernel/drivers/virtio/virtio.c:335-379 | On every run the next pop and the next take are the oldest outstanding entries, and empty only when nothing is outstanding |
| VirtqueueProtocol.AddressesStay | kernel/drivers/virtio/virtio_net.c:114-133 | Without new fills no descriptor's buffer address, length or direction changes, whatever is popped and recycled |
| VirtioNet.SeedRx | kernel/drivers/virtio/virtio_net.c:366-377 | Seeding gives descriptor i the i-th receive page and submits it i-th |
| VirtioNet.SeedBuffer | kernel/drivers/virtio/virtio_net.c:366-376 | One turn of the seeding loop adds the page as the next buffer |
| RxRuns.SeedingIsARun | kernel/drivers/virtio/virtio_net.c:366-377 | Seeding a fresh queue is a run of driver calls, and it leaves every descriptor on its page |
| RxRuns.SeedReceiveQueue | kernel/drivers/virtio/virtio_net.c:366-377 | When seeding succeeds, its calls are a run of the protocol that ends in exactly the queue's memory, with descriptor i on page i |
| RxRuns.AddressIsItsPage | kernel/drivers/virtio/virtio_net.c:366-377 | On any run that fills every descriptor with its own page, each descriptor's address is its page at the end |
| RxRuns.SeededAddressesStay | kernel/drivers/virtio/virtio_net.c:114-133 | After seeding, on every run of pops, recycling and device moves, receive descriptor i keeps pointing at page i |
| VirtioNet.Transmitter.Send | kernel/drivers/virtio/virtio_net.c:229-259 | The descriptor becomes device-readable with its own page and 12 bytes more than the frame, it is in the next ring slot, both indices and the free count move by one, and its page holds 12 zero bytes and the frame; refuses exactly a missing device, a length outside 14 to 1514, a link that is down and no free descriptor, counting the last two |
| VirtioNet.Inbox.Stage | kernel/drivers/virtio/virtio_net.c:82-110 | A completion of 13 to 1526 bytes for a known page is queued without its first 12, the oldest of 32 dropped for it; a malformed one only counts as dropped |
| VirtioNet.Inbox.Receive | kernel/drivers/virtio/virtio_net.c:261-278 | Returns the oldest waiting frame cut to the caller's buffer and removes it, or nothing |
| VirtioNet.Accounting | kernel/drivers/virtio/virtio_net.c:82-110 | Every completion and every receive call keeps the account of returned, overwritten and waiting frames |
| VirtioNet.ReceivePipeline | kernel/drivers/virtio/virtio_net.c:82-110 | Over every history each well-formed frame is accounted for in order as returned, overwritten or waiting, and the two counters equal the sums they should |
| Pmm.SetBit | kernel/mm/pmm.c:29-31 | Marks that page and no other |
| Pmm.ClearBit | kernel/mm/pmm.c:33-35 | Unmarks that page and no other |
| Pmm.WordsSuffice | kernel/mm/pmm.c:58-61 | The bitmap covers every page exactly when the total modulo 64 is 0 or at least 8 |
| Pmm.FindHighest | kernel/mm/pmm.c:50-56 | Finds the end of the highest usable region |
| Pmm.RegionPages | kernel/mm/pmm.c:96-98 | The pages of a region are those it has a byte in |
| Pmm.FrameAllocator.FreeRange | kernel/mm/pmm.c:100-104 | Frees exactly the pages of a range, counting each once |
| Pmm.FrameAllocator.Reserve | kernel/mm/pmm.c:113-118 | Takes exactly the free pages of a range, counting each once |
| Pmm.FreeUsable | kernel/mm/pmm.c:90-105 | Afterwards exactly the usable pages are free |
| Pmm.Init | kernel/mm/pmm.c:37-125 | Afterwards exactly the usable pages above the first MiB and outside the bitmap are free and the count is their number; with the lowest usable region listed first no page below the hint is free |
| Pmm.FrameAllocator.AllocPage | kernel/mm/pmm.c:127-145 | Returns the first free page from the hint on, or else the lowest, and removes just that one, or 0 exactly when none is free; while no page below the hint is free it is the lowest and that stays so |
| Pmm.FrameAllocator.Scan | kernel/mm/pmm.c:127-145 | One pass finds the first free page of a range, or shows there is none |
| Pmm.FrameAllocator.FreePage | kernel/mm/pmm.c:147-154 | Adds that page, refusing 0, unaligned, out-of-range and free ones, and keeps the count right and the pages below the hint in use |
| Paging.EntryFields | kernel/arch/x86_64/paging.c:57-61 | A stored entry is present, writable, not huge, and gives its frame back |
| Paging.EntryBits | kernel/arch/x86_64/paging.c:57-61 | Present, writable and huge are bits 0, 1 and 7 of an entry |
| Paging.FrameBits | kernel/arch/x86_64/paging.c:57-61 | The frame of an entry is its bits 12 to 51, whatever the others hold |
| Paging.PathBits | kernel/arch/x86_64/paging.c:52-55 | The four table indices are bits 39, 30, 21 and 12 of the address and the eight above each |
| Paging.PathsDiffer | kernel/arch/x86_64/paging.c:52-55 | Two pages less than 2^48 bytes apart have different table paths |
| Paging.LinkedWalk | kernel/arch/x86_64/paging.c:57-77 | Linking an empty table changes no translation and no page's access right |
| Paging.LinkedTree | kernel/arch/x86_64/paging.c:57-77 | Linking a fresh table keeps the tables a tree |
| Paging.MappedWalk | kernel/arch/x86_64/paging.c:78-79 | Storing a leaf entry changes the translation and access right of one page and no other |
| Paging.MappedTree | kernel/arch/x86_64/paging.c:78-79 | Storing a leaf entry keeps the tables a tree |
| TableNeed.LinkedDepth | kernel/arch/x86_64/paging.c:57-77 | Linking an empty table where a page's walk stops deepens the walk of exactly the pages that go through it |
| TableNeed.MappedDepth | kernel/arch/x86_64/paging.c:78-79 | Storing a leaf entry deepens no walk |
| TableNeed.CoveredBelow | kernel/arch/x86_64/paging.c:63-74 | Where a walk stops, the page is left alone exactly when the entry has the huge bit below the top level |
| TableNeed.DeepenedMakes | kernel/arch/x86_64/paging.c:57-77 | Walking down for one page makes exactly the tables missing on its path |
| TableNeed.MissingAdds | kernel/arch/x86_64/paging.c:57-77 | A page that finds some tables missing adds that many to the count of tables the range needed at the start |
| TableNeed.MadeMore | kernel/arch/x86_64/paging.c:51-81 | Page after page, exactly the tables the pages so far lacked at the start have been made, each once |
| TableNeed.MissingInBound | kernel/arch/x86_64/paging.c:51-81 | A range needs at most three tables a page |
| TableNeed.LastNeedsIff | kernel/arch/x86_64/paging.c:51-81 | The last page of a range needs no table of its own exactly when it is covered, its tables are there, or a page of the range lies before it in its 2 MiB region |
| TableNeed.NeedInGiB | kernel/arch/x86_64/paging.c:51-81 | Inside one GiB where the tables reach no deeper than d, a range needs the tables above the last level once and one last-level table for each 2 MiB region it meets |
| TableNeed.WritableAboveIff | kernel/arch/x86_64/paging.c:51-81 | The entries above a page allow writing exactly when each of those that is there does, at each level |
| PageMapper.AddressSpace.NewTable | kernel/arch/x86_64/paging.c:29-38 | A new table is zeroed, linked by a present and writable entry, was free and is no table yet; without a frame nothing changes |
| PageMapper.AddressSpace.Descend | kernel/arch/x86_64/paging.c:57-77 | One level of the walk reaches the child table, making it if absent, or stops at a huge entry or without a frame |
| PageMapper.AddressSpace.WalkDown | kernel/arch/x86_64/paging.c:57-78 | The walk reaches the page's last-level table without changing any translation, making one table for each level that had none; it fails only when the free frames were fewer, and makes nothing on the way to a huge entry |
| PageMapper.AddressSpace.MapPage | kernel/arch/x86_64/paging.c:51-81 | Maps one page, writable exactly when the tables above it that existed allow it, unless a huge entry covers it or, exactly, the free frames are fewer than the tables missing on its path; makes exactly those and leaves every other translation and access right |
| PageMapper.AddressSpace.MapAt | kernel/arch/x86_64/paging.c:44-82 | Every page of the range outside huge entries translates to its physical page, writable exactly when the tables above it that existed at the start allow it, so always over tables made here; every other translation and access right is unchanged, the tables stay a tree; it completes exactly when there is a free frame for every table missing on the pages' paths at the start, and then makes just those |
| KheapBacking.BackHeap | kernel/mm/kheap.c:51-77 | Every heap page gets its own frame, never a page table, and is writable exactly when the tables above it that existed allow it. All pages are mapped exactly when the free frames are at least the pages plus the tables missing on their paths at the start, and the machine is not stopped exactly when that holds without what only the last page needs; four frames per page are enough |
| KheapBacking.BackPage | kernel/mm/kheap.c:69-77 | One turn backs one heap page with a new frame, and maps it, as writable as the tables above allow, exactly when there is one more frame for each table missing on its path |
| KheapBacking.InitHeap | kernel/mm/kheap.c:51-77 | The 24576 pages from the 2 MiB boundary past memory are backed; with the direct map's offset on a 2 MiB boundary the machine stops or every page is mapped, and a shortage goes unseen only with an offset one page past one |
| KheapBacking.OffsetHeap | kernel/mm/kheap.c:51-77 | With such an offset, only the top table and 24626 free frames the loop ends without noticing that the last page is unmapped |
| KheapBacking.HeapWritable | kernel/mm/kheap.c:51-77 | Where the tables above the heap range allow writing or are absent, every heap page mapped is writable |
| KheapBacking.HeapTranslationInjective | kernel/mm/kheap.c:51-77 | Over the mapped heap pages outside huge entries the translation is one-to-one, and no backing frame is a page table |
| Kheap.AllocTiles | kernel/mm/kheap.c:95-121 | Allocating keeps the heap tiled, sizes multiples of 16 and no two neighbours free |
| Kheap.ReleaseTiles | kernel/mm/kheap.c:130-158 | So does releasing, with both merges |
| Kheap.ReleaseShape | kernel/mm/kheap.c:130-158 | Releasing replaces the block and its free neighbours by one free block of their total size |
| Kheap.ReleaseUndoesAlloc | kernel/mm/kheap.c:95-158 | Releasing what was just allocated restores the heap |
| Kheap.AllFreeIsInitial | kernel/mm/kheap.c:130-158 | With nothing in use the heap is one block |
| Kheap.BlocksDisjoint | kernel/mm/kheap.c:95-158 | Different blocks do not overlap and lie inside the heap |
| Kheap.BytesAddUp | kernel/mm/kheap.c:160-174 | Free bytes, used bytes and headers add up to the heap |
| Kheap.BlockPlaces | kernel/mm/kheap.c:38-41 | Blocks follow each other from the base on, each 32 bytes longer than its payload |
| Kheap.FirstFitTakes | kernel/mm/kheap.c:95-121 | A block is taken exactly when one fits: the lowest, cut in two when 48 bytes or more are left over, with the payload 32 bytes in |
| Kheap.ReleaseGives | kernel/mm/kheap.c:130-158 | The freed block and its free neighbours become one free block of their sizes and the headers between them |
| KheapAllocator.Heap.constructor | kernel/mm/kheap.c:79-88 | The initial heap is one free block over the whole range |
| KheapAllocator.Heap.Malloc | kernel/mm/kheap.c:95-121 | Takes the lowest free block with room for the size rounded up to 16, returns the address 32 bytes into it, and splits it exactly when 48 bytes or more are left over; null exactly for size 0 and when nothing fits |
| KheapAllocator.Heap.Free | kernel/mm/kheap.c:130-158 | Turns exactly the block 32 bytes before the pointer and its free neighbours into one free block; null, a bad magic number and a free block change nothing |
| KheapAllocator.Heap.SplitBlock | kernel/mm/kheap.c:103-113 | The new header is linked between the block and the next one |
| KheapAllocator.Heap.JoinNext | kernel/mm/kheap.c:144-157 | A block takes in its successor and is relinked to the one after |
| KheapAllocator.Heap.FreeBytes | kernel/mm/kheap.c:160-166 | The walk over the linked headers returns the sum of the free sizes |
| KheapAllocator.Heap.UsedBytes | kernel/mm/kheap.c:168-174 | The walk over the linked headers returns the sum of the used sizes |
| KheapAllocator.JoinRepr | kernel/mm/kheap.c:144-157 | The pointer updates of a merge represent the merged block list |
| KheapAllocator.SplitRepr | kernel/mm/kheap.c:103-113 | The pointer updates of a split represent the split block list |
| KheapRuns.HeapRun | kernel/mm/kheap.c:95-158 | After every run the blocks tile the heap, the bytes add up, and once nothing is live the heap is its one initial block, whatever the order of the releases |
| KheapRuns.AllocLive | kernel/mm/kheap.c:95-121 | Allocating adds exactly one payload of at least the wanted size to the live ones |
| KheapRuns.ReleaseLive | kernel/mm/kheap.c:130-158 | Releasing removes exactly that payload, whatever is merged |
| KheapRuns.LiveDisjoint | kernel/mm/kheap.c:95-158 | Live payloads are pairwise disjoint and inside the heap |
| Compositor.JoinLeast | kernel/desktop.c:541-548 | The recorded union covers both rectangles and lies in every rectangle that does |
| Compositor.PaintedIsLast | kernel/desktop.c:750-790 | A composed pixel has the colour of the last primitive that covers it, or the background |
| Compositor.SceneIs | kernel/desktop.c:736-796 | A composed pixel has the colour of the last fill or dot over it, else the background's as far as it reaches, else its old one; a fill is over the pixels from its corner up to its size |
| Compositor.CursorShows | kernel/desktop.c:569-582 | Inside 12 by 20 pixels at the pointer a clear bitmap pixel shows what is below, 1 is black and all others white; outside nothing changes |
| Compositor.ForgetsIff | kernel/desktop.c:749-757 | Composing a pixel again forgets what was there exactly when the background reaches it or a primitive covers it; otherwise the old pixel stays |
| Compositor.RegionForgetsIff | kernel/desktop.c:749-757 | Composing a region is independent of the old backbuffer exactly when what the background does not reach is painted by primitives; always without a wallpaper |
| Compositor.Trail | kernel/wallpaper.c:81-97 | On a 2560 by 1440 screen with a 1920 by 1080 wallpaper the cursor's mark stays on screen after it has moved away |
| Compositor.ArmedFits | kernel/framebuffer.c:212-319 | Flipping is armed only for a height the 16-bit offset register holds and memory for both pages |
| Compositor.Screen.BbClip | kernel/desktop.c:390-436 | Returns the part of a rectangle on the screen and inside the active clip, nothing exactly when that is empty, without leaving 64 bits |
| Compositor.Screen.VisibleIs | kernel/desktop.c:390-436 | A pixel is in the clipped part exactly when it is in the rectangle, on the screen and in the clip, if there is one |
| Compositor.Screen.PutPixel | kernel/desktop.c:438-444 | Colours that pixel if it is on the screen and inside the clip, and no other |
| Compositor.Screen.Draw | kernel/desktop.c:774-790 | A list of primitives paints each visible pixel with the last one that covers it |
| Compositor.Screen.FillRect | kernel/desktop.c:446-453 | Colours exactly the visible part of the rectangle |
| Compositor.Screen.SceneRegion | kernel/desktop.c:736-796 | Inside the visible rectangle every pixel is composed of the background, where it reaches, and the primitives, outside none changes, and the previous clip is back |
| Compositor.Screen.Backdrop | kernel/desktop.c:749-757 | Inside the rectangle every pixel the background reaches has its colour, the others stay |
| Compositor.Screen.DamageAdd | kernel/desktop.c:528-549 | The damage becomes the least rectangle over the old damage and the visible part |
| Compositor.Screen.DamageTouches | kernel/desktop.c:551-558 | True exactly when some pixel lies in both the damage and the rectangle |
| Compositor.Screen.CursorDraw | kernel/desktop.c:569-582 | Stamps the bitmap at the cursor whatever the clip, changing only its opaque pixels on the screen |
| Compositor.Screen.RedrawRect | kernel/desktop.c:891-894 | Recomposes the rectangle and keeps every backbuffer write since the last present inside the damage |
| Compositor.Screen.RedrawUnion | kernel/desktop.c:896-904 | Recomposes the bounding rectangle of two others, or nothing when it is empty |
| Compositor.Screen.DrawString | kernel/desktop.c:467-485 | Text turns exactly the visible dots of its glyphs white and changes no other pixel |
| Compositor.DotIs | kernel/desktop.c:467-478 | The dot in column c of a glyph row is bit c of it |
| Compositor.Screen.RenderClock | kernel/desktop.c:963-975 | Every pixel afterwards is a white dot of the text, the bar's colour in the clock's box, or what it was; the repaint stays inside the damage it records |
| Compositor.Screen.BlitRect | kernel/desktop.c:513-522 | Copies exactly the visible part to the active page |
| Compositor.Screen.MoveCursor | kernel/desktop.c:3004-3024 | Exactly: a cursor that moved is erased by composing the scene over its old place, the current one is in the backbuffer whole, and every other pixel is as before |
| Compositor.Screen.MoveMouse | kernel/desktop.c:3037-3042 | The pointer stays on the screen |
| Compositor.Screen.PresentSingle | kernel/desktop.c:2953-2963 | The single page equals the backbuffer |
| Compositor.Screen.FlipPages | kernel/framebuffer.c:182-187 | The page on screen becomes the active one, unless there is one page; the guard for the 16-bit offset never fires |
| Compositor.Screen.PresentFlip | kernel/desktop.c:2971-3002 | The new front page equals the backbuffer and the other page differs only inside the remembered damage |
| Compositor.Screen.Present | kernel/desktop.c:3004-3028 | After every present the front page is the backbuffer pixel for pixel, cursor included, and it is the page on screen; every pixel of the backbuffer is the old one, the scene at the old cursor, or the cursor |
| Compositor.Screen.Open | kernel/desktop.c:2917-2938 | Initially every pixel is the composed scene with the cursor in the middle over it, and every page is a copy |
| Compositor.Screen.Frame | kernel/desktop.c:3030-3196 | After any list of redraws, clock repaints and pointer moves, presenting shows the backbuffer, and every pixel of it is what that list makes of the old one, with the cursor erased at its old place and drawn at its new one |
| Windows.InsertSplits | kernel/desktop.c:761-772 | Insertion puts a window between those that stay below it and those that stay above |
| Windows.PaintOrderSorted | kernel/desktop.c:761-778 | The paint order is ascending by stacking number and lists exactly the visible windows |
| Windows.SeenIsHighest | kernel/desktop.c:774-778 | The last painted window over a point has the highest stacking number there |
| Windows.PaintOrderStacked | kernel/desktop.c:761-772 | Windows with equal stacking numbers are painted in slot order |
| Windows.SeenIsLast | kernel/desktop.c:774-778 | Of the covering windows with the highest number, the one in the last slot is seen |
| Windows.ClickIsSeenIffAlone | kernel/desktop.c:2823-2832 | The hit test returns the window seen at a point exactly when no other window over the point shares its stacking number |
| Windows.ClickGoesToWhatIsSeen | kernel/desktop.c:2823-2832 | In particular while stacking numbers are distinct, the hit test returns the last window painted over the point |
| Windows.TiesDisagree | kernel/desktop.c:764-771 | With equal stacking numbers over a point the hit test picks the earlier slot and the painting the later |
| WrapRun.MakeTie | kernel/desktop.c:2555-2565 | Opening three windows and raising two of them in turn until the counter wraps reaches a state in which hit test and picture disagree |
| Windows.CoveringIsNotCulled | kernel/desktop.c:798-802 | A window over any pixel of a region is drawn when the region is composed |
| Windows.PlacedInsideIff | kernel/desktop.c:2500-2508 | A new window lies in the work area exactly when its size fits, or the minimum size fits at the wanted position |
| Windows.SmallWindowStaysOut | kernel/desktop.c:2500-2508 | A window of 100 by 200 asked for at the right edge is placed outside the work area |
| Windows.ToggleTwice | kernel/desktop.c:2603-2626 | Maximizing and restoring gives the window its place back |
| Windows.DragIsNearest | kernel/desktop.c:3050-3066 | A dragged window keeps its size, stays in the work area, and no allowed place is nearer the pointer |
| Windows.ResizeStays | kernel/desktop.c:3071-3086 | A resize pins the corner, stays inside with the minimum size, and gives the wanted size exactly when that is allowed |
| Desktop.Desktop.TopmostAt | kernel/desktop.c:2823-2832 | Returns the first visible window of the highest stacking number over the point: the one seen there |
| Desktop.Desktop.TopmostIndex | kernel/desktop.c:651-663 | Returns a visible window no other visible one lies above, or none |
| Desktop.Desktop.SortWindows | kernel/desktop.c:761-772 | The in-place insertion sort computes the paint order |
| Desktop.Desktop.Open | kernel/desktop.c:2500-2553 | Puts a window in the lowest free slot on top of the others, changing no other, or reports that none is free; every window is then in the work area exactly when the new one fits there |
| Desktop.Desktop.IconOpen | kernel/desktop.c:719-731 | Opens the icon's program at the next place, in a free slot, changing no other window; it always fits |
| Desktop.Desktop.OpenFile | kernel/desktop.c:2310-2340 | A file opened from the file manager gets the lowest free slot and a window inside the work area, on top; the raise after it moves the counter again only when opening wrapped it |
| Desktop.Desktop.Raise | kernel/desktop.c:2555-2565 | Puts a visible window above all others and changes nothing else, and nothing at all when it is on top |
| Desktop.Desktop.Close | kernel/desktop.c:2567-2578 | Frees the slot and ends a drag or resize of it |
| Desktop.Desktop.Minimize | kernel/desktop.c:2580-2591 | Hides the window and ends a drag or resize of it |
| Desktop.Desktop.RestoreFromTaskbar | kernel/desktop.c:2593-2601 | Shows the window above all others |
| Desktop.Desktop.ToggleMax | kernel/desktop.c:2603-2626 | Fills the work area remembering the place, or returns to it, keeping every window inside |
| Desktop.Desktop.ButtonAt | kernel/desktop.c:677-689 | Names the title-bar button exactly in its rectangle |
| Desktop.Desktop.TaskbarWinAt | kernel/desktop.c:2630-2640 | Finds the used window whose button, numbered by used slots, is under the point, and misses none |
| Desktop.Desktop.TaskbarPress | kernel/desktop.c:2653-2662 | Away from the Start button, a taskbar press shows the button's window above all others and changes nothing else |
| Desktop.Desktop.WindowPress | kernel/desktop.c:2779-2821 | The zone of the press decides between close, maximize, minimize, resize, drag and raise, and only that window changes |
| Desktop.Desktop.Grab | kernel/desktop.c:2796-2821 | Raises the window and starts a resize at the grip or a drag at the title, without a jump |
| Desktop.Desktop.RightPress | kernel/desktop.c:3097-3106 | A right press puts the window seen under the pointer above all others and changes nothing else |
| Desktop.Desktop.LeftPress | kernel/desktop.c:2642-2821 | A press changes only the window seen under the pointer, and the Start menu as its rows and button say; on a title bar it raises that window and starts the drag |
| Desktop.Desktop.IconAt | kernel/desktop.c:705-716 | Finds the desktop icon whose tile or label is under the point |
| Desktop.Desktop.WindowOrIcon | kernel/desktop.c:2678-2821 | Outside taskbar and menu the press goes to the window seen under the pointer, or opens the icon there |
| Desktop.Desktop.DragTo | kernel/desktop.c:3050-3068 | The drag step, restoring a maximized window first, computes the nearest allowed place |
| Desktop.Desktop.ResizeTo | kernel/desktop.c:3071-3091 | The resize step computes the clamped size, and ends for a maximized window |
| Desktop.Desktop.KeyPress | kernel/desktop.c:3113-3157 | Only Enter in a file manager on top changes the window table, by opening a file, exactly as `DeskState.KeyPressed` says |
| Desktop.Desktop.TypeKeys | kernel/desktop.c:3112-3159 | The keys of a round keep the window table valid and move the counter by at most two for each file opened |
| Desktop.Desktop.Poll | kernel/desktop.c:3030-3159 | One round takes exactly the step of `DeskState.Round`: pointer, buttons, keys. It keeps all windows and saved places in the work area, moves the counter by at most two and two more for each file opened, keeps stacking numbers distinct below the wrap, and drag and resize on visible windows; releasing ends both |
| Desktop.Desktop.Run | kernel/desktop.c:3030-3159 | Any run of rounds takes those steps one after another, keeps every window in the work area, and stacking numbers distinct when the counter starts two per round and two per file opened below its end |
| DeskRuns.PointerMoves | kernel/desktop.c:3037-3042 | The pointer moves with the mouse and stops at the edges of the screen, 12 and 20 pixels before the far ones |
| DeskRuns.DragRun | kernel/desktop.c:3050-3068 | However the pointer moves while the button is held, only the dragged window changes, and it lies where the pointer is less the offset at which it was taken, or at the edge of the work area in the way |
| DeskRuns.ResizeRun | kernel/desktop.c:3071-3091 | However the pointer moves while the button is held, the window's corner stays and its size follows the pointer, not below 200 by 120 nor past the work area |
| DeskRuns.TitleTaken | kernel/desktop.c:2796-2821 | A press on the title bar left of its buttons raises the window and takes it at that point, changing nothing else |
| DeskRuns.TitleDrag | kernel/desktop.c:2796-3068 | Press on a title bar, move, and the window has moved as far as the pointer, up to the edges of the work area |
| DeskRuns.ButtonClick | kernel/desktop.c:2779-2795 | A press in the last 26 pixels of the title bar's buttons closes the window seen there, in the 24 before them fills the work area or restores the window, in the 24 before those hides it, and nothing else changes |
| DeskRuns.ProgramOpens | kernel/desktop.c:719-731 | Each of the six programs opens in its kind and size, at one of four places in turn moved to fit, on top, in the lowest free slot |
| DeskRuns.MenuOpens | kernel/desktop.c:2666-2676 | A press in row k of the open Start menu closes it and opens program k |
| DeskRuns.IconOpens | kernel/desktop.c:2678-2687 | A press on icon k, where no window is, opens program k |
| DeskRuns.EnterOpens | kernel/desktop.c:2310-2340 | Enter with a file selected in the file manager on top opens a notepad of 500 by 320, 40 pixels right and below moved to fit, on top of everything |
| DeskRuns.OtherKeys | kernel/desktop.c:3112-3157 | No other key changes the window table |
| Checksum.FoldKeeps | kernel/netstack.c:38-38 | The fold ends, keeps the residue modulo 65535, and gives zero only for zero |
| Checksum.FoldAdds | kernel/netstack.c:38-38 | Folding a sum equals adding the folded parts with end-around carry |
| Checksum.Verifies | kernel/netstack.c:29-40 | A byte string verifies exactly when its sum is a positive multiple of 65535 |
| Checksum.FoldIsOnesSum | kernel/netstack.c:29-40 | The deferred-carry sum equals the end-around-carry sum of RFC 1071 |
| Checksum.Csum | kernel/netstack.c:29-40 | The loops compute the complement of the folded sum, odd lengths included, with the running sum wrapping at 32 bits |
| Checksum.Pseudo | kernel/netstack.c:42-51 | Returns the end-around-carry sum of the 12-byte pseudo-header |
| Checksum.SumBound | kernel/netstack.c:29-37 | The sum is at most 2^15 per byte, so the running sum cannot wrap for frames |
| Checksum.SumThenVerify | kernel/netstack.c:143-146 | Filling a zeroed field at an even offset with the checksum makes the whole verify |
| Checksum.DamageSeen | kernel/netstack.c:29-40 | A changed word goes unnoticed exactly when it agrees with the old one modulo 65535 |
| Checksum.PseudoCovered | kernel/netstack.c:166-167 | Passing the pseudo-header's sum along equals summing pseudo-header and segment together |
| NetFrames.IpVerifies | kernel/netstack.c:131-146 | The checksum of every built IPv4 header verifies |
| NetFrames.UdpVerifies | kernel/netstack.c:155-169 | The checksum of every built datagram with its pseudo-header verifies |
| NetFrames.TcpVerifies | kernel/netstack.c:238-257 | The checksum of every built segment with its pseudo-header verifies |
| NetFrames.FrameLayout | kernel/netstack.c:131-153 | A frame is the two hardware addresses, the type 0x0800, the header and the payload |
| NetFrames.IpLayout | kernel/netstack.c:131-146 | The IPv4 header byte by byte: version and header length, total length, identifier, 64 hops, protocol and both addresses |
| NetFrames.UdpLayout | kernel/netstack.c:155-169 | The datagram byte by byte: ports, a length 8 above the payload's, and the payload |
| NetFrames.TcpLayout | kernel/netstack.c:238-257 | The segment byte by byte: ports, both numbers, five words of header, flags, the widest window and the payload |
| NetFrames.PseudoLayout | kernel/netstack.c:42-51 | The pseudo-header byte by byte: both addresses, zero, protocol and length |
| NetFrames.DeliverUndoesFrame | kernel/netstack.c:635-673 | Taking apart a built frame gives back protocol and payload, whatever padding follows |
| NetFrames.ParseUndoesTcp | kernel/netstack.c:399-408 | The fields read from a built segment are the ones it was built from |
| NetFrames.SendLimits | kernel/netstack.c:131-169 | A frame goes out exactly up to 1480 bytes of IP payload, 1472 of UDP and 1460 of TCP with the device ready; above that and up to 1500, 1492 and 1480 the identifier moves and the frame is lost |
| NetFrames.AcceptedAndLost | kernel/netstack.c:131-169 | 1490 bytes over IP, 1480 over UDP and 1470 over TCP are accepted and lost |
| NetFrames.Sender.NetSend | kernel/drivers/virtio/virtio_net.c:229-231 | Only a frame of 14 to 1514 bytes goes out |
| NetFrames.Sender.IpSend | kernel/netstack.c:131-153 | Hands the built frame with the next identifier to the driver, and sends it exactly up to 1480 bytes; nothing at all happens above 1500 |
| NetFrames.Sender.UdpSend | kernel/netstack.c:155-169 | Sends exactly the built datagram up to 1472 bytes; up to 1492 only the identifier moves, and above nothing happens |
| NetFrames.Sender.TcpSend | kernel/netstack.c:238-257 | Sends exactly the built segment up to 1460 bytes; up to 1480 only the identifier moves, and above nothing happens |
| Tcp.HeaderIsFirst | kernel/netstack.c:513-534 | The header ends at the first blank line of the scanned prefix, and there is none when it is not found |
| Tcp.StatusStays | kernel/netstack.c:513-534 | A header once found, and its status code, do not change as bytes arrive |
| Tcp.StoreKeeps | kernel/netstack.c:504-511 | What a genuine in-order segment adds continues the stream, within the buffer, with the receive number in step |
| Tcp.EstabKeeps | kernel/netstack.c:439-631 | Handling any genuine segment on the established connection keeps the invariant |
| Tcp.LookupKeeps | kernel/netstack.c:765-786 | Polling during the lookup keeps the invariant |
| Tcp.ConnectKeeps | kernel/netstack.c:788-816 | Polling while connecting keeps the invariant and the connection |
| Tcp.TransferKeeps | kernel/netstack.c:847-857 | Retransmitting the request keeps the invariant: same bytes, same place |
| Tcp.StepKeeps | kernel/netstack.c:399-631 | Every event keeps the connection invariant against any genuine traffic |
| Tcp.PrefixSafety | kernel/netstack.c:399-631 | On every run: the buffer holds a prefix of the server's stream within its size, the receive number is in step modulo 2^32, every acknowledgement before the close covers stored bytes only, all data sent is the request at its one place, the callback is made at most once |
| Tcp.RunCompletes | kernel/netstack.c:504-626 | Over every run, with bare FINs in place, an answer that is no failure is that of the whole stream cut to the buffer |
| Tcp.AnswerIsOfTheStream | kernel/netstack.c:504-626 | Whatever is lost, repeated, reordered or resegmented, the answer is a function of stream and buffer size, or a connection or lookup failure, provided each bare FIN arrives in place |
| Tcp.FeedAnswers | kernel/netstack.c:504-626 | In-order delivery of any segmentation followed by a FIN always makes that callback, overrun included |
| Tcp.BareFin | kernel/netstack.c:553-626 | A genuine FIN without data ends a complete transfer exactly when its number is the next one expected |
| Tcp.EarlyFinLosesTheResponse | kernel/netstack.c:553-626 | A bare FIN that overtakes a good response turns it into an error |
| Tcp.EarlyFinRun | kernel/netstack.c:553-626 | The run from a start, for every request: lookup, SYN, handshake and the overtaking FIN end in that error |
| Tcp.ConnectNeverGivesUp | kernel/netstack.c:765-816 | Before the deadline, polling a request that is looking up or connecting never gives up, since the count restarts at every poll |
| Tcp.NotedIff | kernel/netstack.c:447-450 | The comparison singles out the acknowledgement of the whole request among those a server can send exactly when the request does not cross the end of the sequence numbers |
| Tcp.AckSound | kernel/netstack.c:399-631 | On every run without that crossing the request counts as acknowledged only if an acknowledgement of all of it arrived |
| Tcp.FalseAckRun | kernel/netstack.c:447-450 | For every request that crosses, a repeated SYN-ACK makes it count as acknowledged, and it is never sent again |
| TcpSends.LookupSends | kernel/netstack.c:765-786 | While looking up nothing is sent on the connection |
| TcpSends.ConnectSends | kernel/netstack.c:788-816 | While connecting a poll sends exactly one SYN with the initial number when the gateway is known and none was sent yet or 50 ticks have passed since the last, and otherwise nothing |
| TcpSends.ShakeSends | kernel/netstack.c:399-436 | The SYN-ACK with the right number is answered by exactly the request, as one acknowledging segment with the next number of each side; anything else but a reset is ignored |
| TcpSends.HandshakeRun | kernel/netstack.c:370-436 | From a start, the name found, one poll and the SYN-ACK, exactly two segments go out: the SYN, and the request acknowledging the server's SYN |
| TcpSends.EstabSends | kernel/netstack.c:439-631 | On the established connection each segment makes at most one go out: an ACK moved by all of it for data in order, an ACK with the number unchanged for data out of order, an ACK of what fitted when the buffer overflows, a FIN and ACK past its data for a FIN, and nothing for a reset or a bare acknowledgement; the same cases say what is stored and reported |
| TcpSends.AckCovers | kernel/netstack.c:504-631 | The ACK for genuine data in order covers all stored bytes |
| TcpSends.TransferSends | kernel/netstack.c:847-857 | While the request is not acknowledged and was repeated less than ten times, a poll 50 ticks after the last send sends it again at its first number; before that nothing; after ten times the connection ends |
| TcpSends.LostSyn | kernel/netstack.c:788-816 | With no answer, every poll 50 ticks after the one before sends one more copy of the SYN |
| TcpSends.LostRequest | kernel/netstack.c:847-857 | With no answer, such polls send the request again up to ten times in all, and then the connection ends in an error |
| TcpSends.StartWaits | kernel/netstack.c:683-739 | A start sends nothing, and sets the deadline 1500 ticks ahead |
| TcpSends.DeadlineStays | kernel/netstack.c:683-739 | While the request is active its deadline does not move, over every run |
| TcpSends.DeadlineEnds | kernel/netstack.c:759-763 | The first poll at the deadline ends the request with one error report, and sends nothing |
| TcpSends.OtherEvents | kernel/netstack.c:741-746 | A found name moves a lookup on, a missing one ends it, an abort with the request's own context ends it silently, and a segment for another port changes nothing |
| TcpSends.StatusDigits | kernel/netstack.c:513-534 | The status is the number of the three digits at bytes 9 to 11, and 2xx and 3xx are successes |
| TcpSends.NoStatus | kernel/netstack.c:513-534 | Without a whole header that starts with HTTP the answer is an error |
| TcpClient.Client.constructor | kernel/netstack.c:683-739 | A started request is the initial state over the caller's buffer |
| TcpClient.Client.Done | kernel/netstack.c:268-278 | Clears the record and reports once, with the body's place only for a success |
| TcpClient.Client.Scan | kernel/netstack.c:513-534 | The scanning loop leaves in the header fields exactly what the stored bytes determine |
| TcpClient.Client.ReadStatus | kernel/netstack.c:519-530 | Reads the three status digits exactly when the header starts with HTTP and is long enough |
| TcpClient.Client.Keep | kernel/netstack.c:504-511 | Copies what fits and moves the receive number by that much |
| TcpClient.Client.KeepAndScan | kernel/netstack.c:504-534 | Stores what fits and keeps the header fields equal to that function of the stored bytes |
| TcpClient.Client.HandleData | kernel/netstack.c:439-631 | Handling a segment on the established connection takes the specified step |
| TcpClient.Client.HandleSegment | kernel/netstack.c:399-631 | So does handling any segment, the handshake included |
| TcpClient.Client.Receive | kernel/netstack.c:654-657 | Only a segment for the active connection's port is handled |
| TcpClient.Client.PollAt | kernel/netstack.c:752-858 | Polling takes the specified step: deadline, lookup, handshake and request retransmission |
| TcpClient.Client.PollLookup | kernel/netstack.c:765-786 | While looking up, sends the query once the resolver is known and repeats it when due |
| TcpClient.Client.Resolved | kernel/netstack.c:324-368 | A name found moves on to connecting, a name refused ends the request; after the lookup neither does anything |
| TcpClient.Client.SendRequest | kernel/netstack.c:370-395 | Sends the request as one acknowledging segment and advances the send number by its length |
| TcpClient.Client.PollConnecting | kernel/netstack.c:788-816 | While connecting, sends or repeats the SYN when due |
| TcpClient.Client.PollTransferring | kernel/netstack.c:847-857 | Repeats an unacknowledged request when due and gives up after ten times |
| TcpClient.Client.AbortRequest | kernel/netstack.c:741-746 | Aborting with the request's own context clears the record without a callback; any other context changes nothing |

## Left out

- TLS and `kernel/crypto.c`, and the TLS branches of the connection.
- DNS encoding and parsing; a lookup ends in a found or not-found event. ARP requests are not counted.
- The text of the request; it is any byte string. Host and path are assumed to fit their fields.
- The comparison of times as 32-bit signed differences; times are unbounded and grow.
- ARP, the ICMP echo reply, and what `net_handle_frame` answers; `net_drain_raw` loops until the used ring is empty.
- Replacing a computed UDP checksum of zero by 0xFFFF, which the code does not do.
- Port I/O, MMIO, barriers, interrupts, the reads and writes of VBE registers, vertical blank waits, PCI, boot descriptor tables, logging.
- A device that accepts a smaller queue than requested after the free list is built, or returns ids it did not take.
- BitReading.BitReader.Bits: the OR that adds a byte to the bit buffer is modelled as addition, since the bits are disjoint.
- Inflater.Inflate: not every malformed stream is rejected, as in the code; `Truncation.AcceptedReads` and `Huffman.AllCodedIffKraft` say exactly what truncated streams and over-subscribed tables lose.
- PngEncoder.DecodeUndoesEncode: chunk lengths up to 2^32 - 13, beyond the PNG limit of 2^31 - 1; files with more image data chunks are rejected, see `PngEncoder.SplitDataRejected`.
- PngDecoder.WalkChunks: where the loop of the code never ends, the method returns and says so.
- PngDecoder.PngDecode: the two buffers are dropped without modelling `kfree`, including the leak on an Up filter in the first row.
- Pmm.Init: the map reaches at least 1 MiB, its first usable region holds the bitmap, and the bitmap covers the page total; otherwise the code reads and writes memory that is not the bitmap's.
- Pmm.FrameAllocator.FreePage: freeing a page that was never allocated is not excluded by the code; callers free only their own pages.
- PageMapper.AddressSpace.MapAt: CR3 and the direct-map offset are parameters and the TLB invalidation is a no-op.
- KheapAllocator.Heap.Malloc: sizes are unbounded, so the wrap of `align16` near 2^64 is not modelled, and no client writes outside its payload.
- KheapAllocator.Heap.Free: the header of the pointer is still in memory, as stale headers of merged blocks are.
- Compositor.Screen.RenderClock: the text is any string of at most 40 glyphs; the date and the font are not modelled.
- Compositor.Screen.SceneRegion: icons, windows, taskbar and menus are an arbitrary list of primitives, the gradient an arbitrary colour for each line; no claim that a window draws only in its own rectangle.
- The row pitch of the framebuffer beyond the visible width, and widths of the blit's machine stores.
- Desktop.Desktop.LeftPress: what the program inside a window does with a press is a parameter.
- Desktop.Desktop.Raise: the redraws that follow a window operation belong to the compositor and are not repeated here.
- Desktop.Desktop.Poll: distinct stacking numbers are claimed until the 32-bit counter reaches its end; `WrapRun.MakeTie` shows what happens then.
- What keys do inside a window other than opening a file, window contents, the start-up and cleanup of programs inside windows.
