# PlayStation support libraries: models and proofs

This project models the parts of the nugget SDK whose correctness rests on an argument rather
than on a glance: a table-driven video bitstream decoder, two LZ4 decoders and the upload
protocol on top of one of them, an in-place convex hull, a framed serial transport, an event
scheduler with a lock-free queue, a GPU command tracker, a CRC and a shift-subtract division.
Code that updates state in place is a class or a method over arrays with the same fields, loops
and branches; what it computes is a function defined without those devices; and the theorems
are about that function, so they hold of the code.

## What is proved

**Video bitstreams** (`Bits`, `CodeBook`, `GenTable`, `SonyBook`, `VlcTable`, `BsStream`,
`BsFrame`, `BsWindow`, `Bsdec`, `BsTruncation`, `BsWriter`, `BsRoundTrip`, `BsWidths`,
`BsWords`, `BsSony`). `BsStream` and `BsFrame` say what a frame means one bit at a time, for any
code book, with no window and no tables. `GenTable` fills the decode tables from any book that
meets the generator's assertions, `SonyBook` proves that Sony's 224 codes meet them, and
`VlcTable` that the dispatch table compiled in is theirs, word for word. `Bsdec` is the decoder
with its window, its refills, its single counter, its three lookups and its output array; it
returns exactly what `BsFrame` says, for every byte string. On top of that: writing any blocks
and decoding gives them back (`BsRoundTrip`), every output has the promised shape, and cutting a
payload short only cuts the list of blocks short, up to the size at which the decoder's bit
count wraps (`BsTruncation`), and no position or predictor outgrows its 32 bits (`BsWidths`).
`BsWords` says what the words mean: run and level, scale and coefficient, the sums of the
differences, the header's bytes and each answer.

**LZ4** (`Lz4Format`, `Lz4Stream`, `Lz4Block`, `Lz4InPlace`, `Lz4End`, `Lz4Upload`). The block
format is a parser and a meaning of its own. The byte-at-a-time decoder accepts exactly the
well-formed blocks and writes what they mean. The whole-block decoder works on one memory, so
in-place use is just two overlapping regions of it; it writes what the block means whenever its
source is never overtaken, and how long a buffer must be for every block at its end is settled
for every output length. The upload protocol delivers a block however it is cut and answers
success only when the block arrived whole.

**Convex hull** (`HullGeometry`, `HullSort`, `HullScan`, `Hull`, `HullLimits`). The 32-bit
arithmetic fits, the partition always terminates and rearranges, the sort is in angular order, the
unguarded pop loop stops, and the result is a strictly convex polygon of input points around all of
them. Two conditions for that are found; one is shown to be exact, the other to be needed by every
answer that starts with the lowest vertex, and both to be able to fail.

**Transport** (`Fletcher`, `Frames`, `Transport`, `MonitorMemory`). What the deferred-modulo
checksum really computes and how it lies on the wire, which damage it shows, that the hunt for a
frame start finds the first one in any bytes, and that any frames sent among console text are
received in order.

**Song player** (`PsmQueue`, `PsmSong`, `PsmSound`, `PsmVoices`, `PsmPlayer`). The queue under every
interleaving of its two sides; the poll in which every event of the unrolled song fires; that the
voices, pedals and keys are at all times what the events fired so far make of silence, each at its
own tick; and that after each poll the voices keyed on are exactly the active ones.

**Smaller parts**: `FixedPoint`, `Crc32`, `GpuPlayer`.

## Where the code and its documentation disagree

The model follows the code, and the proofs say where it does not keep a promise.

- `bsdec/bsdec.c:225-226` counts payload bits in 32 bits. From 2^29 bytes on the count wraps and a
  frame decodes as if cut down to the remainder (`AvailWraps`), so a cut can decode to more blocks
  than the whole frame. What a caller can check beforehand is that the cut counts no more bytes than
  the whole frame, or that the whole frame counts 33 bits for every word it declares; either makes
  the cut's blocks the first of the whole frame's (`Truncation`), and below 2^29 bytes the former
  always holds (`ShortTruncation`). Of a frame that was written, with anything behind it, the
  condition is exact: the bits written are all counted (`CutIsPrefix`). `CutCanGain` is a frame for
  which they are not.
- `shell/hull.c` compares unshifted coordinates to pick the first vertex and shifted ones
  everywhere else, and it keeps its stack from `v[8]` on. As long as the shift puts no vertices on
  both sides of the first one in its own row, the answer is a hull if and only if the first one sees
  the others on fewer than eight rays, as it always does up to eight vertices (`ConvexHull`,
  `EightAreFew`). Where the shift does that, no answer that starts with the first vertex is a hull
  (`HullNeedsSided`), and an answer that does not start with it comes from a scan that has left its
  stack. `NotAlwaysSided` and `NotAlwaysFew` give vertices for which each condition fails.
- `lz4/lz4.h:40-44` says that the compressed data may lie at the end of the output buffer. It may,
  whatever the block, exactly in a buffer of `Room` bytes or more: for n bytes of output, n of them
  below five, and from there on n + 1 and one more for every length byte that a run of n - 5
  literals takes (`RoomIsExact`). Thirteen bytes of output without a margin are lost already by a
  block that ends as the format asks (`NoMarginFails`).
- `monitor/transport.c:32-36` calls the checksum Fletcher-32 with the modulo deferred. It is that
  exactly when the second sum stays below 2^32 (`DeferredIsFletcher`): always up to 361 words, not
  always at 362.
- `monitor/lz4stream.c:64-67` counts literals in 32 bits: up to 16843009 bytes of source it cannot
  matter, and one byte more is enough for it to accept a truncated block (`LengthWraps`).
- `gpdplayer/gpdplayer.c:155-162` says that the DMA mode is restored behind a polyline. It is,
  unless a command buffer reset (GP1 01h) aborts the polyline, which leaves the FIFO mode behind
  (`PushGP1`).
- `psmplayer/psmplayer.c:901-942` never returns from the poll in which it comes to the END of a loop
  body that holds no wait (`NeverReturns`); a song that is nothing but an END does so at once
  (`NothingButEnd`). Every other poll returns (`Poll`).

## Model

| member | source | states |
|---|---|---|
| CodeBook.PackRoundTrip | bsdec/gentable.py:123-139 | The three fields packed into a table word read back as they were, and a packed word is never the invalid 0 |
| CodeBook.UniqueHit | bsdec/gentable.py:85-91 | In a prefix-free book at most one code starts any given bits |
| CodeBook.WidthIsWidest | bsdec/gentable.py:103 | A group's width is reached by one of its codes and exceeded by none |
| GenTable.CoverSlots | bsdec/gentable.py:111-119 | A code takes exactly the slots whose suffix it starts, each of them free until then, and disturbs no other slot |
| GenTable.SlotFree | bsdec/gentable.py:118 | The generator's "ambiguous slot" assertion can never fire on a prefix-free book |
| GenTable.FillGroup | bsdec/gentable.py:107-121 | Every slot of a group holds a code of the book that starts its marked suffix, or a hole where none does |
| GenTable.SlotPacks | bsdec/gentable.py:128-142 | With a book that covers its groups no hole is left, and each packed slot means the one code that starts its bits |
| GenTable.PackGroup | bsdec/gentable.py:196-204 | The packed entries of one group, each correct for the suffix that indexes it |
| GenTable.BuildDispatch | bsdec/gentable.py:185-207 | Widths, offsets and one flat table in which all groups keep their entries and all rows past the book share the end-of-block sentinel |
| GenTable.DirectEntryOf | bsdec/gentable.py:224-239 | The entry of the only code that starts the bits, zero exactly when there is none |
| GenTable.BuildDirect | bsdec/gentable.py:220-240 | All 512 entries of a direct table, for either lead of zeros |
| GenTable.BuildTables | bsdec/gentable.py:85-250 | From any book that meets the assertions, tables in which every index the decoder can form leads to the right entry |
| SonyBook.GroupLayout | bsdec/bsdec-vlc.h:7-20 | In each of the twelve groups the long and short codes split the suffixes between them, with nothing left over and nothing shared |
| SonyBook.SpansAreGood | bsdec/gentable.py:85-99 | Codes that split a group's suffixes are prefix-free and saturate the group |
| SonyBook.BookIsGood | bsdec/gentable.py:85-250 | Sony's whole book is prefix-free, has no code over 17 bits, leaves no dispatch slot unreachable, and has exactly the direct-table coverage the generator asserts |
| VlcTable.Pairs7 | bsdec/bsdec-vlc.h:171-203 | The compiled entries of group 7 spell its sixteen runs and levels, each with both signs (and likewise for the other groups) |
| VlcTable.RowsAre | bsdec/bsdec-vlc.h:54-336 | Every word of the compiled dispatch table is the packed code that its index leads to |
| VlcTable.CompiledRows | bsdec/bsdec-vlc.h:47-336 | The compiled rows of every group mean to the decoder what Sony's book says |
| VlcTable.BookFits | bsdec/bsdec-vlc.h:54-336 | Every run of the book fits six bits and every level ten |
| BsStream.NextSymbolIs | bsdec/bsdec.c:381-398 | Whatever follows it, a code of the book reads back bit by bit as its own symbol |
| BsStream.NextSymbolGarbage | bsdec/bsdec.c:350-398 | Twelve zeros reach the sentinel: end of block, past as many bits as the window shows |
| BsWindow.RegIsWindow | bsdec/bsdec.c:146-156 | The 32-bit register spells the payload bits from the current position on, then zeros |
| BsWindow.WindowRefill | bsdec/bsdec.c:146-156 | Or-ing a shifted halfword in appends the next sixteen payload bits, wherever the window stands and even when bits were skipped before they were loaded |
| BsWindow.LoadedIs | bsdec/bsdec.c:341-348 | After a refill the number of loaded bits is a function of the position alone, so the sentinel's length does not depend on history |
| BsWindow.PrimLookup | bsdec/bsdec.c:381 | The first table answers with the bit-at-a-time symbol, or the window starts with six zeros |
| BsWindow.SecLookup | bsdec/bsdec.c:382 | The second table answers with the bit-at-a-time symbol, or the window starts with ten zeros |
| BsWindow.GroupLookup | bsdec/bsdec.c:388-397 | The dispatch row of a window's zero count answers with the bit-at-a-time symbol within 17 bits |
| BsWindow.ClzMeaning | bsdec/bsdec.c:54 | The capped zero count names the book's group, or goes beyond the book and is one less than the sentinel's length |
| Bsdec.BsdecBits.Refill | bsdec/bsdec.c:146-156 | The window afterwards holds at least 17 bits, `valid == 8 * feed - pos` still holds and no shift leaves 0..31 |
| Bsdec.BsdecBits.Peek | bsdec/bsdec.c:158 | The next bits of the payload as a number |
| Bsdec.BsdecBits.Consume | bsdec/bsdec.c:165-169 | The window of the position that many bits further |
| Bsdec.TopUp | bsdec/bsdec.c:341-348 | The single-counter refill of the inner loop does the same as the two-counter one |
| Bsdec.LookUpDirect | bsdec/bsdec.c:381-386 | A nonzero answer of the two direct lookups is the bit-at-a-time symbol with its whole length |
| Bsdec.CountAndDispatch | bsdec/bsdec.c:388-397 | The leading-zero path yields the bit-at-a-time symbol and leaves the window of the position behind it, garbage prefixes included |
| Bsdec.FetchCode | bsdec/bsdec.c:341-398 | One turn of the table-driven loop reads the same symbol and the same number of bits as the bit-at-a-time walk, for every payload and position |
| Bsdec.FetchEscape | bsdec/bsdec.c:405-428 | The sixteen bits after an escape, verbatim |
| Bsdec.AcLoop | bsdec/bsdec.c:333-433 | The loop on local window variables decodes exactly the words the bit-at-a-time definition gives the block, stops at the declared length, never writes past it, and stands afterwards where the definition says, even when it gives up |
| Bsdec.DecodeAcCodes | bsdec/bsdec.c:301-443 | Moving the window into locals and back leaves a standing window, with `pos` reconstructed exactly |
| Bsdec.ScanSize | bsdec/bsdec.c:254-269 | The linear scan finds the size whose code starts the bits, or that none does |
| Bsdec.ReadDifference | bsdec/bsdec.c:275-281 | The signed difference those bits stand for |
| Bsdec.DecodeDcCode | bsdec/bsdec.c:249-289 | The DC coefficient and the unclamped predictors after it, in all three versions |
| Bsdec.OneBlock | bsdec/bsdec.c:244-455 | One block comes out whole, with its words behind those already written, or is discarded whole: past the payload's end, without a DC, or too long |
| Bsdec.BlockLoop | bsdec/bsdec.c:244-455 | The words written are those of the blocks the definition decodes, counted, with the reason the decode ended |
| Bsdec.PadOutput | bsdec/bsdec.c:473 | End-of-block words up to the declared length and nothing beyond it |
| Bsdec.DecodePayload | bsdec/bsdec.c:218-475 | The blocks, the verdict on their completeness and the padding |
| Bsdec.BsdecFrame | bsdec/bsdec.c:181-476 | For every input and output size the result and the whole output are what the bit-at-a-time definition says, and nothing past the declared length is touched |
| BsSony.DecodeFrame | bsdec/bsdec.c:181-476 | The same of the program as built: Sony's book, the tables generated from it, any input whatever, and nothing past the declared length touched |
| BsFrame.BlockShape | bsdec/bsdec.c:244-455 | A block that comes out has at least two words, ends in the end marker, lies inside the payload and takes at most 33 bits a word |
| BsTruncation.OutputShape | bsdec/bsdec.c:218-475 | Past the header checks any bytes give exactly the declared number of words: whole blocks as counted, each ended, then end markers; sound exactly when the shortfall is under 64 words and no block outgrew the length |
| BsTruncation.Truncation | bsdec/bsdec.c:446-475 | For payloads of every size: the blocks of a cut frame are a prefix of the whole frame's wherever the cut counts no more bytes or the whole counts 33 bits for every declared word, and the other way around where the cut counts more |
| BsTruncation.EnoughBits | bsdec/bsdec.c:446-455 | Past 33 bits for every word of room it makes no difference how many bits there are |
| BsTruncation.ShortTruncation | bsdec/bsdec.c:446-475 | Below 2^29 payload bytes cutting a frame short only ever cuts its list of blocks short |
| BsTruncation.AvailWraps | bsdec/bsdec.c:225-226 | Every payload decodes as if cut to its size modulo 2^29 bytes, which is all that the 32-bit bit count counts |
| BsTruncation.NothingCounted | bsdec/bsdec.c:225-226 | At multiples of 2^29 bytes every block is rejected |
| BsFrame.SizeUnique | bsdec/bsdec-vlc.h:466-474 | Neither DC size book has a code that starts another, so the scan's order does not matter (ISO/IEC 11172-2 tables B-12 and B-13) |
| BsWriter.RawReads | bsdec/bsdec.c:275-281 | Every difference of up to eight bits survives being stored as size and offset |
| BsWriter.CodesRead | bsdec/bsdec.c:333-433 | Any run of book codes and escapes with an end marker decodes to its words and ends at its last bit |
| BsRoundTrip.BytesCarryBits | bsdec/bsdec.c:140-144 | Bits written most significant first into little-endian halfwords are the bits the decoder sees |
| BsRoundTrip.FlushEnds | bsdec/bsdec.c:457-471 | The flush bits behind the last block are never taken for a block; they give OVERLONG exactly when one word is missing and they reach as far as a DC |
| BsRoundTrip.RoundTrip | bsdec/bsdec.c:181-476 | Any blocks, written in any of the three versions under a header rounded up to 64 words, decode to exactly their words, their count, the padding and a usable status |
| BsRoundTrip.CutIsPrefix | bsdec/bsdec.c:225-226 | A written frame with anything behind it, and cut back to itself: the cut's blocks come first among the whole's if and only if the whole counts all the bits that were written |
| BsRoundTrip.BlocksCut | bsdec/bsdec.c:446-455 | A written bitstream that is not counted to its end loses blocks |
| BsWidths.AcEndBound | bsdec/bsdec.c:333-441 | However a block's codes are left, they took at most 33 bits for every word and one code more |
| BsWidths.DcMild | bsdec/bsdec.c:275-287 | No difference moves a predictor by more than 1020 |
| BsWidths.FrameFits | bsdec/bsdec.c:181-476 | In any frame, after any number of blocks and wherever the next one is left, positions fit 24 bits and predictors fit 32 |
| BsWords.PlainWord | bsdec/gentable.py:128-139 | A code's word, six bits of run above ten of signed level, reads as the code's own run and level |
| BsWords.ScaleAndDc | bsdec/bsdec.c:297 | A DC word reads as six bits of scale above the ten of the coefficient |
| BsWords.SumStep | bsdec/bsdec.c:282-288 | In version 3 every coefficient is four times the sum of its plane's differences, for planes 0, 1, 2, 2, 2, 2 |
| BsWords.RoundTripMeans | bsdec/bsdec.c:181-476 | Any written frame comes back as words that read as what was written: scale and coefficient, each run and level, each escape, each end marker |
| BsWords.DeltaMeans | bsdec/bsdec.c:275-281 | A size stands for the differences whose magnitude has that many bits, in the order of the bits that follow |
| BsWords.SizeCodesArePrinted | bsdec/bsdec-vlc.h:466-474 | The DC size books are tables B-12 and B-13 of ISO/IEC 11172-2, code by code |
| BsWords.PayloadBitIs | bsdec/bsdec.c:140-144 | Of each pair of payload bytes the second comes first, each from its high end |
| BsWords.HeaderMeans | bsdec/bsdec.c:181-222 | What each of the eight header bytes is for, the command as the first four of them, and which refusal each fault gets |
| BsWords.VerdictMeans | bsdec/bsdec.c:457-471 | TRUNCATED exactly when the bits ran out 64 words or more from the end, OVERLONG exactly when a block outgrew the length |
| BsWords.TailMeans | bsdec/bsdec.c:472-473 | Behind the blocks nothing but 0xfe00 |
| BsSony.SonyWriter | bsdec/bsdec-vlc.h:34-474 | Sony's book can write: it has the escape 000001 and the end of block 10 |
| BsSony.SonyRoundTrip | bsdec/bsdec.c:181-476 | Sony's codes written and decoded come back as words that read as the codes' own runs and levels |
| BsSony.CutCanGain | bsdec/bsdec.c:225-226 | One block of Sony's book and half a gigabyte of zeros is such a frame |
| Lz4Format.CopyAdds | monitor/lz4stream.c:93-96 | Overlapping match copies compose, so a match may be copied in pieces |
| Lz4Format.CopyRepeats | lz4/lz4.c:91-94 | What an overlapping copy writes: the last `offset` bytes, over and over |
| Lz4Format.ExtensionMeans | lz4/lz4.c:68-74 | A length extension is bytes of 255 and one that is less, and their sum |
| Lz4Format.ParseEncode | lz4/lz4.c:43-106 | Every legal list of sequences survives being written and parsed |
| Lz4Format.RoundTrip | lz4/lz4.c:36-107 | Decoding a written block gives what its sequences mean |
| Lz4Format.BlockSize | lz4/lz4.h:40-44 | No block is longer than one run of literals of its output |
| Lz4Format.MarginClears | lz4/lz4.h:40-44 | With room for that run no step of the decode overtakes its source |
| Lz4Format.EndPlacementOverlaps | lz4/lz4.h:40-44 | Without any margin, the decode of any block that ends a match with a last literal run does overtake its source |
| Lz4Stream.StepEmits | monitor/lz4stream.c:43-104 | No byte of input writes more than 255 of output, and what was written stays |
| Lz4Stream.Stream.Init | monitor/lz4stream.c:38-41 | Which fields a new stream sets and which it keeps |
| Lz4Stream.Stream.FeedLength | monitor/lz4stream.c:55-75 | The states that only read lengths and offsets follow the step function and write nothing |
| Lz4Stream.Stream.FeedLiteral | monitor/lz4stream.c:68-71 | One literal, inside the memory and nowhere else |
| Lz4Stream.Stream.FeedMatch | monitor/lz4stream.c:76-97 | A match or a piece of one, copied through memory, or the refusal of an offset behind the output |
| Lz4Stream.CopyMatch | monitor/lz4stream.c:94-95 | The byte loop over memory is the format's overlapping copy |
| Lz4Stream.Stream.Feed | monitor/lz4stream.c:43-104 | The state machine over the struct and memory refines the step function and touches nothing outside the new output |
| Lz4Stream.Stream.EndBlock | monitor/lz4stream.c:106-116 | Accepts after literals or after a match and readies the stream for the next block |
| Lz4Stream.RunAppend | monitor/lz4stream.c:43-104 | Feeding in pieces is feeding in one go, errors included |
| Lz4Stream.RunMatchLen | monitor/lz4stream.c:84-96 | A match length extended byte by byte ends as one copy of the whole length, overlap and all |
| Lz4Stream.RunHead | monitor/lz4stream.c:54-97 | Over one sequence the stream follows the parser: broken, last literals, bad offset, or the match |
| Lz4Stream.StreamIsBlock | monitor/lz4stream.c:43-116 | Fed byte by byte, the stream accepts exactly the well-formed blocks and writes exactly the bytes they mean |
| Lz4Stream.LengthWraps | monitor/lz4stream.c:64-67 | The bound in the previous row is exact: one byte more and a wrapped length lets a truncated block through |
| Lz4Block.ReadExtension | lz4/lz4.c:68-74 | The length extension read through the pointer, modulo the width of the counter |
| Lz4Block.CopyForward | lz4/lz4.c:91-94 | The forward byte loop, later bytes seeing what earlier ones wrote |
| Lz4Block.TakeLiterals | lz4/lz4.c:51-103 | The literal half of the flip-flop on one memory |
| Lz4Block.TakeMatch | lz4/lz4.c:56-103 | The match half of the flip-flop on one memory |
| Lz4Block.DecompressBlock | lz4/lz4.c:36-107 | The pointer loop leaves exactly the memory that the machine semantics of its two turns leaves |
| Lz4InPlace.CopyBack | lz4/lz4.c:85-94 | A byte loop through memory from behind the output is the format's overlapping copy |
| Lz4InPlace.InPlace | lz4/lz4.c:36-107 | Whenever the source lies below the output or is never overtaken, the decoder leaves the block's meaning at the destination and nothing else changed, in one buffer or in two |
| Lz4End.DecodesFromEnd | lz4/lz4.h:40-44 | A block at the end of a buffer of `Room` bytes or more decodes over itself to the start of that buffer |
| Lz4End.RoomIsExact | lz4/lz4.h:40-44 | For every output length and every buffer that holds it: every block of that length decodes from the buffer's end if and only if the buffer has `Room` bytes |
| Lz4End.FailsBelow | lz4/lz4.h:40-44 | In each shorter buffer that holds the output, a block of that length that is lost |
| Lz4End.EndPlacementFails | lz4/lz4.h:40-44 | Any block whose opening match reaches its own next token is lost, if the bytes behind that token read as a far offset |
| Lz4End.NoMarginFails | lz4/lz4.h:40-44 | Ten bytes, a well-formed end of block included, that the documented placement loses |
| Lz4InPlace.DecodersAgree | lz4/lz4.c:36-107 | Whatever block the byte-at-a-time decoder accepts, the whole-block decoder leaves the same bytes, for sources up to 16843009 bytes and for decodable ones of any size in memory |
| Lz4Upload.ReceiveFine | monitor/monitor.c:289-332 | What must have been true of a frame for it to count |
| Lz4Upload.FrameWordsMean | monitor/monitor.c:298-320 | The five 32-bit values of a frame, low half first, and its slice, low byte first |
| Lz4Upload.AnswerMeans | monitor/monitor.c:295-331 | Which answer every frame gets, and that any but success ends the stream |
| Lz4Upload.ActiveIsFed | monitor/monitor.c:304-329 | After any sequence of frames, good or bad, an active stream is where feeding the slices since its opening frame in one go leaves the decoder, and the consumed count is theirs |
| Lz4Upload.CompletedUpload | monitor/monitor.c:322-331 | An upload answered as complete fed clen bytes that are a whole block and left rawlen bytes at the destination: exactly below 2^32 bytes, modulo 2^32 above |
| Lz4Upload.Delivers | monitor/monitor.c:282-332 | However a block is cut into slices and whatever came before, every frame is acknowledged and the last leaves the block decoded at its destination |
| Lz4Upload.FrameCarries | monitor/monitor.c:298-320 | Header and slice survive being laid out in payload words |
| Lz4Upload.Monitor.Open | monitor/monitor.c:295-312 | A stream is opened, continued or refused, and the answer the code gives is the first objection |
| Lz4Upload.Monitor.FeedWord | monitor/monitor.c:314-321 | Low byte, then high byte, as far as the slice reaches, stopping for good at the first error |
| Lz4Upload.Monitor.FeedSlice | monitor/monitor.c:314-321 | The slice unpacked from words is fed in order, and memory outside the output stays as it was |
| Lz4Upload.Monitor.Close | monitor/monitor.c:323-329 | Counting, and at clen the test of the stream's end and length |
| Lz4Upload.Monitor.StreamWriteMemLz4 | monitor/monitor.c:289-332 | The handler over the monitor's fields refines the protocol's transition, and memory outside the stream's output stays as it was |
| MonitorMemory.SendData | monitor/monitor.c:244-247 | One DATA frame as the bytes of a frame with length, padding and checksum |
| MonitorMemory.ReadMem | monitor/monitor.c:233-251 | The chunks sent, in order, are exactly the frames that cut the memory at 8192 bytes, one empty frame for nothing |
| MonitorMemory.ReadBack | monitor/monitor.c:231-251 | What the host puts together from the frames it receives is the memory that was read, whatever its length |
| MonitorMemory.FrameCount | monitor/monitor.c:238-249 | A read takes one frame for every 8192 bytes begun, and one for nothing |
| MonitorMemory.OneByteFrame | monitor/monitor.c:244-247 | The DATA frame of one byte, word for word |
| MonitorMemory.RecvTwo | monitor/monitor.c:253-271 | Two 32-bit values off the payload, low half first, counted into the checksum |
| MonitorMemory.StreamWriteMem | monitor/monitor.c:264-279 | Exactly the announced bytes that the frame holds reach memory, nothing else changes, the reader ends at the frame's end, and the answer tells a bad checksum although the bytes are there |
| HullGeometry.ArithmeticFits | shell/hull.c:40-60 | No product, difference or sum leaves 32 bits for any int32 vertices |
| HullGeometry.OrientationIsTurn | shell/hull.c:40-50 | The source's orientation is the negated turn of three vectors seen from any fourth vertex |
| HullGeometry.LeTotal | shell/hull.c:64-71 | The comparator's order by angle then distance is total |
| HullGeometry.LeTransitive | shell/hull.c:64-71 | It is transitive among vertices in front of one vector, which is what a sort needs |
| HullSort.CompareIs | shell/hull.c:64-71 | What each scan of the partition stops on, though two distinct slots never compare equal |
| HullSort.Swap | shell/hull.c:34-38 | Two slots exchanged and no other |
| HullSort.ScanUp | shell/hull.c:80 | The upward scan stays in bounds without testing them, and everything it passes is before the pivot |
| HullSort.ScanDown | shell/hull.c:81 | The downward scan stays in bounds without testing them, and nothing it passes is before the pivot |
| HullSort.SwapPair | shell/hull.c:83-89 | After a swap both scans still have something to stop on, and the pivot's slot is tracked |
| HullSort.Partition | shell/hull.c:76-91 | Two nonempty parts on either side of the pivot, a rearrangement, for any vertices whatever, coincident ones too |
| HullSort.LoopTurn | shell/hull.c:75-101 | One turn leaves only the larger part unsorted |
| HullSort.QSort | shell/hull.c:73-102 | Terminates and permutes always; sorts by angle then distance whenever the vertices lie in front of one vector |
| HullScan.KeepCovers | shell/hull.c:116-120 | Every vertex the collinear filter drops lies under one that it keeps |
| HullScan.KeepIsFan | shell/hull.c:116-120 | What the filter keeps turns strictly left seen from the first vertex, coincident vertices gone |
| HullScan.TwoStay | shell/hull.c:128 | The unguarded pop loop cannot go below two entries |
| HullScan.PopCatches | shell/hull.c:128 | Popping an entry loses no point: its two wedges lie in the one that replaces them |
| HullScan.PopKeeps | shell/hull.c:128 | All the pops for a vertex leave at least two entries, a strict left turn and everything seen still held |
| HullScan.WindsOn | shell/hull.c:127-130 | A stack that reads itself back pops nothing and winds around its polygon |
| HullScan.CaughtInside | shell/hull.c:123-132 | A point in one wedge of a strictly left-turning stack is on the inner side of all its edges |
| HullScan.UnderInside | shell/hull.c:116-132 | A vertex dropped by the filter lies inside whatever its keeper lies inside |
| Hull.FindAnchor | shell/hull.c:106-113 | The lowest, then leftmost vertex, before any shift |
| Hull.Filter | shell/hull.c:116-120 | In place, the last of every run of vertices on one ray |
| Hull.FewKept | shell/hull.c:116-122 | The filter keeps at most eight vertices if and only if the anchor sees the input on fewer than eight rays |
| Hull.AnchorAndSort | shell/hull.c:105-115 | The anchor first, the rest in angular order, the same multiset of vertices |
| Hull.PopFor | shell/hull.c:128 | The loop pops exactly what the geometry pops, wherever that leaves two entries |
| Hull.ScanOne | shell/hull.c:127-130 | One vertex pushed behind those pops, and nothing below it changed |
| Hull.ScanStep | shell/hull.c:127-130 | Up to v[8] the stack stays a strictly convex chain that holds everything seen; from there on it reads itself back and only grows |
| Hull.ScanTurn | shell/hull.c:127-130 | One turn of the loop over the array keeps that |
| Hull.Scan | shell/hull.c:123-132 | The whole scan, with the stack inside the caller's array: a hull of what the filter kept, or a stack that has come back to its first vertex |
| Hull.ConvexHull | shell/hull.c:104-133 | With three or more vertices: input points, every triple turning the same way and every input point inside or on it, if and only if the anchor sees the input on fewer than eight rays; otherwise all input lies on one segment or is one point |
| HullLimits.HullNeedsSided | shell/hull.c:106-114 | No polygon that starts with the chosen vertex is a hull when the shift puts vertices on both sides of it in its row |
| HullLimits.NotAlwaysSided | shell/hull.c:40-46 | Four vertices that the shift brings into that position |
| HullLimits.EightAreFew | shell/hull.c:107 | Up to eight vertices the rays are always few enough |
| HullLimits.NotAlwaysFew | shell/hull.c:107-130 | Nine corners of a polygon that is its own hull, for which they are not |
| Fletcher.SumIsTotals | monitor/transport.c:62-66 | The two accumulators are the plain and the weighted total modulo 2^32, from any start |
| Fletcher.FirstSumExact | monitor/transport.c:38-39 | The first one never wraps in any frame of up to 65535 payload words |
| Fletcher.FirstSumFills | monitor/transport.c:38-39 | The largest such frame brings it to 2^32 - 1, so the bound is met exactly |
| Fletcher.DeferredIsFletcher | monitor/transport.c:32-45 | Deferring the modulo gives step-by-step Fletcher-32 if and only if the weighted total is below 2^32 |
| Fletcher.ShortIsFletcher | monitor/transport.c:32-45 | It always does up to 361 words |
| Fletcher.LongerIsNot | monitor/transport.c:32-45 | At 362 words of FFFF it does not |
| Fletcher.FinishInjective | monitor/transport.c:42-45 | The checksum is never 0 and still tells all pairs of residues apart |
| Fletcher.FinishHalves | monitor/transport.c:42-45 | The first sum's residue in the low half and the second's in the high half, all ones for two zeros |
| Fletcher.ChangeShows | monitor/transport.c:216-227 | Changing one word to one that is not congruent modulo 65535 always changes the checksum |
| Fletcher.CongruentPasses | monitor/transport.c:216-227 | In a short frame a congruent word never does |
| Frames.ChecksumOnWire | monitor/transport.c:89-93 | The four bytes that close a frame: the plain total and the weighted one, each low byte first |
| Frames.ChecksumIsFletcher | monitor/transport.c:32-45 | Up to 359 payload words those are textbook Fletcher-32 |
| Frames.PingFrame | monitor/transport.c:237 | The PING frame, byte for byte as the source spells it |
| Frames.ConfirmFrame | monitor/transport.c:238 | The confirming PING, byte for byte |
| Frames.PackedOnWire | monitor/transport.c:69-87 | Bytes sent as words are themselves on the wire, with one 0 where they are odd |
| Frames.HuntFinds | monitor/transport.c:106-128 | Whatever the bytes, the hunt reads its header at the first 0, AA, 55 and nowhere else |
| Frames.HuntBlocks | monitor/transport.c:106-128 | Without one it never stops |
| Frames.TextDropped | monitor/transport.c:110-115 | Console text without a 0 is dropped and counted byte for byte |
| Frames.LimitIs | monitor/transport.c:124-127 | A LEN up to 4112 is a frame and a larger one is noise |
| Frames.FrameReads | monitor/transport.c:282-299 | A sent frame behind any plain text is received, or drained when too long, and the reader is left at its end |
| Frames.StreamReads | monitor/transport.c:52-299 | Any frames interleaved with plain text are received exactly, in order |
| Frames.DamageShows | monitor/transport.c:216-227 | A TYPE or payload word changed to a noncongruent one is reported, at the frame's end |
| Frames.DamageShowsIff | monitor/transport.c:216-227 | Up to 359 payload words nothing else is reported: 0 for FFFF passes |
| Transport.Transport.SendBegin | monitor/transport.c:52-60 | Start, SYNC and header on the link, and the checksum over the header only |
| Transport.Transport.SendBytes | monitor/transport.c:69-87 | The unrolled pointer loop sends the padded words and sums the same |
| Transport.Transport.SendEnd | monitor/transport.c:89-93 | The checksum, low half first |
| Transport.Transport.SendFrame | monitor/transport.c:95-99 | Exactly the bytes of the frame |
| Transport.Transport.TryStart | monitor/transport.c:119-126 | A false start is looked at again from the byte that broke it |
| Transport.Transport.RecvBegin | monitor/transport.c:106-136 | The loop is the hunt, with its count of dropped console bytes |
| Transport.Transport.RecvWord | monitor/transport.c:185-190 | One word off the link and into the checksum |
| Transport.Transport.RecvBytes | monitor/transport.c:193-214 | All words are consumed and summed; exactly the wanted bytes are stored, an odd one included |
| Transport.Transport.RecvEnd | monitor/transport.c:216-227 | Accepts exactly the checksum of what was seen |
| Transport.Transport.RecvFrame | monitor/transport.c:282-299 | The receive on the link is the receive on bytes, and leaves the reader at the frame's end on every return |
| PsmQueue.NextKeeps | psmplayer/psmplayer.c:299-318 | Every single load or store of either side keeps the queue's invariant |
| PsmQueue.NothingLost | psmplayer/psmplayer.c:299-318 | Under every interleaving popped and held items are the accepted ones in order, at most 63 are held, and accepted plus dropped is pushed |
| PsmQueue.NeverTorn | psmplayer/psmplayer.c:306-316 | The slot being written is never the slot being read |
| PsmQueue.DropsOnlyWhenFull | psmplayer/psmplayer.c:302-314 | A push is dropped only while 63 are held and a pop fails only while none is |
| PsmSong.FireIsSum | psmplayer/psmplayer.c:901-938 | The poll of the k-th event of the unrolled song is one plus all deltas through it plus all long waits before it |
| PsmSong.FirstPass | psmplayer/psmplayer.c:911-928 | The first pass is the song in order up to its first END |
| PsmSong.LoopTargetIs | psmplayer/psmplayer.c:850-857 | END goes back to right behind the last LOOP_POINT, or to the start of the song |
| PsmSong.MeasureDrops | psmplayer/psmplayer.c:911-938 | A measure that falls with every event that does not wait, so a poll ends |
| PsmSong.StandsStill | psmplayer/psmplayer.c:854-863 | Where the loop body has no wait every later event is due in the same poll, without end |
| PsmSong.NothingButEnd | psmplayer/psmplayer.c:854-863 | A song of a single END is one whose first poll never returns |
| PsmSound.ChosenOnce | psmplayer/psmplayer.c:211-232 | At most one voice is the one allocated |
| PsmSound.StealsHeld | psmplayer/psmplayer.c:218-230 | Of two sounding voices alike but for the pedal the held one is taken |
| PsmSound.StealsQuiet | psmplayer/psmplayer.c:218-230 | Of two alike but for velocity the quieter one |
| PsmSound.StealsOld | psmplayer/psmplayer.c:218-230 | Of two alike but for age the older one |
| PsmSound.NoteOnPlays | psmplayer/psmplayer.c:719-769 | A NOTE_ON with a sample sounds on the allocated voice with the note, velocity, program and tone of its four bytes, and changes nothing else; without a sample it changes nothing |
| PsmSound.NoteOffPlays | psmplayer/psmplayer.c:771-789 | A NOTE_OFF ends or holds exactly the sounding voices of its channel and note |
| PsmSound.PedalPlays | psmplayer/psmplayer.c:812-829 | The pedal let up ends exactly the held voices of its channel |
| PsmSound.FirstNote | psmplayer/psmplayer.c:719-769 | Middle C at velocity 100 as the first event sounds on the first voice and keys it on |
| PsmVoices.Voices.Allocate | psmplayer/psmplayer.c:211-232 | The lowest free voice; without one the lowest of those with the highest score, or the first when every score is below zero |
| PsmVoices.Voices.NoteOn | psmplayer/psmplayer.c:719-769 | Exactly the allocated voice changes; stealing takes back a pending key off |
| PsmVoices.Voices.NoteOff | psmplayer/psmplayer.c:771-789 | The voices that end are exactly those added to the batch; under the pedal they are held |
| PsmVoices.Voices.Sustain | psmplayer/psmplayer.c:812-829 | Letting the pedal up ends exactly the held voices of the channel |
| PsmVoices.Voices.Flush | psmplayer/psmplayer.c:891-898 | After the batches are written the keyed voices are exactly the active ones |
| PsmVoices.KeyedOff | psmplayer/psmplayer.c:786-787 | Ending voices keeps what the batches will lead to equal to the active voices, and the batches disjoint |
| PsmVoices.KeyedOn | psmplayer/psmplayer.c:766-767 | So does starting one, stolen or free |
| PsmPlayer.Player.constructor | psmplayer/psmplayer.c:623-670 | A song loaded while nothing is keyed on starts in a state that meets the player's invariant |
| PsmPlayer.Player.ProcessEvent | psmplayer/psmplayer.c:714-876 | Every event makes of voices, pedals and keys what it says, and of the schedule; not its effect on volume, pitch, program or tempo |
| PsmPlayer.EventFires | psmplayer/psmplayer.c:854-863 | The event due fires in the poll its place says, and what follows it is due when its own wait is over |
| PsmPlayer.PastGrows | psmplayer/psmplayer.c:884-898 | What has been heard stays the work of the events fired, the keys gathered anew in every poll |
| PsmPlayer.Player.FireEvent | psmplayer/psmplayer.c:924-937 | The event due is logged in the poll its place in the unrolled song says, and what is heard after it is what it makes of what it found |
| PsmPlayer.Player.FireAllDue | psmplayer/psmplayer.c:910-941 | The loop over events ends, with everything due fired |
| PsmPlayer.Player.PollEvents | psmplayer/psmplayer.c:901-942 | One tick that is to return does, and leaves the countdown that the next event's poll demands |
| PsmPlayer.Player.Poll | psmplayer/psmplayer.c:886-899 | On any song, after every poll that returns: the keyed voices are the active ones and were keyed by one batch off and one on, voices and pedals are what the events fired make of silence, held voices are active under a pressed pedal, and every event fired on its tick |
| PsmPlayer.Player.NeverReturns | psmplayer/psmplayer.c:911-938 | In the polls left out, every event from the first END on is due, and there is always another |
| PsmPlayer.Player.NothingMissed | psmplayer/psmplayer.c:901-942 | What has not fired is due later, so the log is all that was due |
| GpuPlayer.WordReader.Refill | gpdplayer/gpdplayer.c:91-102 | A refill changes nothing of the words still to come, and is empty only at the end |
| GpuPlayer.WordsSpell | gpdplayer/gpdplayer.c:90-105 | Byte j of word k, from the low end, is byte 4 k + j of the stream |
| GpuPlayer.WordReader.ReadWord | gpdplayer/gpdplayer.c:90-105 | The next four bytes of the stream, low byte first, whatever chunks the callback cuts it into; none when fewer than four are left |
| GpuPlayer.TransferWords | gpdplayer/gpdplayer.c:143-148 | A transfer's word count is never 0 and never above 262144 |
| GpuPlayer.LayoutCounted | gpdplayer/gpdplayer.c:112-141 | The parameter count of every command is that of its parts: vertices with their colours and texture coordinates, corners, sizes |
| GpuPlayer.KnownPolygons | gpdplayer/gpdplayer.c:112-124 | The parameter counts of the polygon commands by their first byte |
| GpuPlayer.KnownOthers | gpdplayer/gpdplayer.c:116-140 | The parameter counts of the other commands by their first byte |
| GpuPlayer.KnownPolylines | gpdplayer/gpdplayer.c:169-211 | Which first bytes are polylines and which words look like their end |
| GpuPlayer.PixelsCounted | gpdplayer/gpdplayer.c:143-148 | The word count of a transfer is half its width times its height, rounded up, where 0 stands for the largest side |
| GpuPlayer.EndsWhereVertexStarts | gpdplayer/gpdplayer.c:200-210 | A polyline may end exactly at the first word of its third or a later vertex |
| GpuPlayer.Tracker.PushGP0 | gpdplayer/gpdplayer.c:163-218 | The source's variables follow the tracker's modes, the GPU sees the word unchanged, and the DMA direction the dump asked for is set aside for a polyline and restored behind it |
| GpuPlayer.Tracker.PushGP1 | gpdplayer/gpdplayer.c:220-231 | Only the two resets abort a command, and the direction asked for is kept if and only if the word is not a command buffer reset inside a polyline |
| GpuPlayer.Tracker.PushPacket | gpdplayer/gpdplayer.c:285-293 | The packet's bytes reach the GPU in order as words, low byte first, and the tracker ends where the words alone say |
| GpuPlayer.RunAppends | gpdplayer/gpdplayer.c:285-293 | So cutting a list into packets makes no difference |
| GpuPlayer.CommandTracked | gpdplayer/gpdplayer.c:163-218 | Inside any command laid out as above, uploads and polylines too, the tracker is between commands at its two ends only |
| GpuPlayer.ListTracked | gpdplayer/gpdplayer.c:163-218 | Over any list of commands the boundaries it finds are the list's own |
| GpuPlayer.NeverOverflows | gpdplayer/gpdplayer.c:155-218 | With the waits the code makes, a 16-word FIFO that drains arbitrarily never overflows |
| Crc32.ReverseMirrors | crc32/crc32.c:29-35 | The five mask steps mirror all 32 bits |
| Crc32.PolyIs | crc32/crc32.c:52 | The reversed polynomial is the one of RFC 1952 |
| Crc32.ByteStep | crc32/crc32.c:56 | Eight single-bit shifts are one look-up of the low byte and one shift of the rest |
| Crc32.MakeCrcTable | crc32/crc32.c:37-52 | Entry d is the register after shifting d out bit by bit |
| Crc32.ProcessUnaligned | crc32/crc32.c:54-59 | The byte loop is the bit-by-bit CRC of RFC 1952 section 8, for every message and every start |
| Crc32.ProcessAligned | crc32/crc32.c:61-73 | The word loop is the bit-by-bit CRC of the words' little-endian bytes |
| Crc32.AllBytesAre | crc32/crc32.c:61-73 | The bytes of a message of words are four a word, each the word moved down by eight bits more |
| Crc32.KnownEntries | crc32/crc32.c:37-52 | Three entries of the table as the standard prints them, and a first word as its bytes |
| Crc32.BitwiseAppends | crc32/crc32.c:54-59 | Processing in pieces concatenates |
| Crc32.WordAtOnce | crc32/crc32.c:61-72 | Four bytes are a word put in at once and 32 shifts |
| Crc32.Residue | crc32/crc32.c:54-59 | Appending the finished CRC leaves one and the same register for every message |
| FixedPoint.DoubleUp | psyqo/fixed-point.hh:55-58 | The doubled divisor is the base times a power of two and more than half the remainder |
| FixedPoint.SubtractDown | psyqo/fixed-point.hh:60-67 | Subtracting down collects exactly the quotient |
| FixedPoint.IDiv | psyqo/fixed-point.hh:42-70 | For every base but 0 it terminates with the floor of the 64-bit product by the base, modulo 2^32 |
| FixedPoint.DDiv | psyqo/fixed-point.hh:72-83 | The exact quotient truncated toward zero, whenever it fits |

## Left out

- Hull.ConvexHull: requires that the shift leaves the first vertex with the others on one side of it in its row. Outside that condition `HullNeedsSided` shows that no answer starting with that vertex is a hull; the scan may then pop the bottom of its stack and read in front of it, and what it reads there, or what is left when fewer than three vertices come out, is not modelled. It asks for room for the stack, eight slots and one more for each vertex. An empty input is not modelled: the source reads `v[0]` for it.
- Lz4Stream.StreamIsBlock: for sources up to 16843009 bytes, or decodable ones below 2^32; `LengthWraps` shows the bound is tight. A stream that reported an error is not fed on; the monitor never does.
- Lz4InPlace.InPlace: the condition that the source is never overtaken is enough but not needed, since an overwritten byte can happen to be equal; memory is at most 2^32 bytes.
- FixedPoint.DDiv: neither operand may be the most negative integer, whose negation C leaves undefined. Division by zero is not modelled.
- PsmPlayer.Player.ProcessEvent: volume, pan, pitch, reverb, program and tempo change only SPU registers or the length of a tick and are not modelled; events name a channel below 16. What is pushed to the notification queue is modelled in `PsmQueue` only.
- PsmPlayer.Player.Poll: the voice count is fixed for the life of a song. Polls that never return are told apart by `Returns` and have no state after them; `NeverReturns` says what happens in them.
- PsmPlayer.Player.constructor: loading a song writes no key off, so that nothing is keyed on before it is an assumption about the program.
- PsmVoices.Voices.Allocate: the score is an unbounded integer.
- PsmQueue.NextKeeps: loads and stores take effect in program order, as they do on the console's single core.
- GpuPlayer.Tracker.PushGP0: polylines of 2^32 words, whose word count would wrap; the discarding of read-back words. That a reset (GP1 00h) turns DMA off and GP1 04h sets its direction is what the GPU is assumed to do.
- Transport.Transport.RecvFrame: the link blocks until bytes come, so a receive is modelled only where the frame arrives; the ATCONS link, whose checksum is optional and which needs no hunt, is not modelled.
- Lz4Upload.Monitor.StreamWriteMemLz4: the payload words of a frame and whether its checksum held are its input; the trusted build, which drops the stream's checks, is not modelled.
- The literal words of the two direct tables of `bsdec/bsdec-vlc.h:346-464`: those are the tables that the generator builds from the book.
- The profiling macros and the big-endian fallback of `bsdec/bsdec.c`; the decoder runs on a little-endian console.
- The GPU dump's other packets (`gpdplayer/gpdplayer.c:300-319`), which only skip or discard words.
- Rate switching, breakpoints and exception entry of the monitor, which are bound to hardware.
- The module player, the shell's drawing, the CD-ROM drivers and the C++ framework beyond the division.
