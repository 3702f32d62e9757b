# Verified models of the cudec decoders

This project models the host-side logic of cudec, a GPU decompression library, in
Dafny and proves what its headers, tests and comments promise. Nothing here runs
the original program: every statement is about the model, for all inputs.

What is modelled, one or two files a component:

- **GDeflate pages.** `Schedule` is the 32 lane bit buffers behind one shared
  word cursor; `CanonicalCode` and `HuffTable` are the canonical code, its
  in-place construction and its root accelerator; `Team` is the sequential team
  and the code-length rounds; `Deferred` and `PageDecode` are the block loop,
  whose matches reserve output in one round and copy in a later one. `PageSpec`
  says what a page means with bit queues and codewords only: no tables, no fuel,
  no buffers, no deferral of the copies themselves. The imperative decoder is
  proved equal to it, refusals included, and its output is proved to be the
  in-order LZ77 execution (`Lz77`) of the tokens. `PageTheorems` holds what
  follows from the reading alone, and `BlockCap` the pages of empty blocks that
  show where the 64-bit block cap fails. `PageWriter`, `CodeWriter`, `BlockWriter`
  and `PageRoundTrip` write pages: they say what each lane is to read, and deal that
  into words from the end backwards. Any list of stored, fixed and dynamic blocks,
  with matches of any reach, is read back as it was written; `PageTexts` has the
  texts, under the fixed codewords as RFC 1951 numbers them.
- **The streaming wave pipeline.** `DeviceQueue` is the asynchronous stream, one
  byte, one metadata entry or one chunk per step, a launch's chunks in any order;
  `WavePipeline` is the host that shares pinned staging with it. The device may
  run any number of steps, or fault, before each thing the host does, so the
  contracts speak of every interleaving.
- **LZ4 blocks.** `Lz4Format` is the format as an encoding with its end-of-block
  margins, `Lz4Block` the parser object, `Lz4Twin` the sequential executor and
  `Lz4Bench` the two block builders and the block walk of the benchmark.
- **Snappy blocks.** `SnappyFormat`, `SnappyBlock` and `SnappyTwin`, the same way.
- **The Zstd backward bit reader.** `ZstdBits`: arithmetic on one integer.
- **LZ4 frames.** `Lz4Frame` is the descriptor, the block table and the tail;
  `FrameAssembly` is decoding the blocks and merging the asynchronous copies.
- **TileStream.** `TileStream` is the chained offset table and the plan, run
  through the wave pipeline; with a batch decoder of pages, the result is the
  execution of every page's tokens.

`Bits`, `Cudec` and `DecodeSequences` are shared vocabulary. To verify the
project, run `dafny verify dfyconfig.toml` in this directory.

Conventions. A numeric width is explicit where it matters: `U16`, `U32`, `U64`
and `BlockFuel` wrap, and the contracts show when they do not. Code that changes
state is a class or a method over arrays; each is proved against a function of
the old state, and the properties are proved about that function. What lies
behind a foreign call is a parameter: the batch decoder and the checksum are
arbitrary functions. What the runtime answers is a parameter too, an `Environment`:
for the pipeline it says at which reading of a clock that only moves forward a
call fails or the device faults, for the frame decode which submission, stream,
transfer or drain fails. No method chooses its own failures, so a contract can say
that one needs a cause and that without a cause there is none.

Where the code and its comments differ, the model follows the code:

- In the code-length rounds a comment says that a shortage of a run's extra bits
  is raised after the nothing-to-repeat check. The shortage is recorded in the
  same field as the codeword's, and that field is tested first. From a primed
  page neither order can be observed, because no lane runs short.
- `src/stream.cpp` calls the exact per-wave sums the place where an overflow is
  rejected. `PlanWaves` shows that the rejection cannot be taken: a wave of more
  than one chunk fits the staging budget, and a wave of one cannot overflow.
- The GDeflate block cap is argued never to be reached. It is a 64-bit product,
  and for a page of more than about 3.5e18 bytes it wraps. `PageDecode.DecodePage`
  states what happens then: the page is refused with `NoFinalBlock` exactly when it
  has more blocks than the wrapped cap. `BlockCap.WrappedCapRefuses` gives the
  shortest length that wraps, 3513665537849438400 bytes, and a page of that length,
  five empty blocks and a final one, which the format accepts and the decoder
  refuses. `PageDecode.BlockFuelSuffices` is the argument for every shorter page.

## Model

| member | source | states |
|---|---|---|
| `PageDecode.DecodePage` | src/gdeflate_block.h:283-580 | On every page: accepted exactly when the fuel-free reading `ReadPage` accepts it and its blocks are within the block cap, with the output equal to in-order execution of its tokens and the census that of its blocks; refused with `NoFinalBlock` exactly when the blocks pass the cap, which needs a cap that wrapped, and otherwise for the reading's own reason, never a lane running short, a codeword missing from a code or the round cap |
| `PageDecode.BlockFuelSuffices` | src/gdeflate_block.h:298-310 | Unless its 64-bit product wraps, the block cap is at least the blocks of the page, whatever the page and the capacity |
| `BlockCap.WrappedCapRefuses` | src/gdeflate_block.h:296-308 | The cap's product wraps exactly from 878416384462359600 words on, and is 5 there. A page of that many words, five empty stored blocks and a final one, is read as an empty output and has six blocks, more than the cap; a page of as many zeros has more still |
| `BlockCap.EmptyBlocksPage` | src/gdeflate_block.h:308-393 | For every number of empty stored blocks with a final one behind them, the page that has them is accepted at every capacity, with an empty output and just those blocks |
| `PageSpec.PageBlocks` | src/gdeflate_block.h:298-310 | Every block of a page but the last spends three of its bits, so three times the others fit in what the page holds |
| `PageSpec.ReadPage` | src/gdeflate_block.h:283-580 | The reading of a page by bit queues and codewords: settled tokens within the tile whose length is what the blocks produced, and only the fourteen rungs a page can reach |
| `PageTheorems.PageIsWellFormed` | src/gdeflate_block.h:255-281 | Every accepted page's tokens execute in order: no match reaches before the output, and the blocks' byte counts add up to the output's length, within the tile |
| `PageRoundTrip.WrittenPageIsRead` | src/gdeflate_block.h:283-580 | Any list of stored, fixed and dynamic blocks, whose matches reach no further than the output and whose symbols have codewords, has a page, whatever words are behind it, and that page is read as just those blocks and just their tokens, at every capacity that holds the output |
| `PageRoundTrip.HeaderTold` | src/gdeflate_block.h:311-339 | A block written with its final mark and the two bits of its type, low bit first, 00 stored, 10 fixed and 01 dynamic in the order they arrive, is read as that |
| `BlockWriter.CodedReads` | src/gdeflate_block.h:402-555 | A coded block's script, each lane a codeword, a match's distance on the same lane a round behind its length, then the end of the block and the drain, is read back as the tokens written |
| `PageRoundTrip.RawIsRead` | src/gdeflate_block.h:340-393 | A stored block that is written, its length and one byte a lane, passes the bound on what the page has left and is read back |
| `PageTexts.FixedTextIsRead` | src/gdeflate_block.h:396-555 | For every byte string: a page that deals the final mark, the bits 1 and 0 of the fixed type, the fixed codewords of the bytes and of the end of the block, lane after lane, is one fixed block, and its tokens execute to the string |
| `PageTexts.FixedTextHasPage` | src/gdeflate_block.h:396-555 | Every byte string has such a page, whatever words are behind it |
| `PageTexts.OwnTextIsRead` | src/gdeflate_block.h:396-555 | The same for the dynamic type, behind any header whose codes have the string's codewords |
| `PageTexts.EveryTextHasOwnPage` | src/gdeflate_block.h:396-555 | Every byte string has a page of one dynamic block |
| `PageTexts.EmptyFixedPage` | src/gdeflate_block.h:311-555 | A page of more words than priming takes whose lane 0 begins with the bits 1, 1, 0 and seven zeros is accepted as one fixed block of nothing, at every capacity |
| `PageTexts.SmallestFixedPage` | src/gdeflate_block.h:311-555 | The 132 bytes of which the first is 3 and the rest zero are one |
| `PageTexts.FixedCodewords` | src/gdeflate_block.h:131-160 | The fixed literal and length codewords are the numbers of section 3.2.6 of RFC 1951: 48 and up in eight bits, 400 and up in nine, 0 and up in seven, 192 and up in eight |
| `PageTexts.FixedDistances` | src/gdeflate_block.h:131-160 | The fixed distance codewords are the symbols in five bits |
| `PageDecode.SymbolRounds` | src/gdeflate_block.h:402-555 | The rounds of a coded block and its drain compute the lane-by-lane reading; the whole rounds before the block ends, or before the step that is refused, are exactly as many as the steps until then fill, 32 times their number never exceeds the capacity, so the round cap is never the reason they stop, and no reservation survives |
| `PageSpec.Steps` | src/gdeflate_block.h:411-422 | The steps of a block before its end are no more than the output still to come plus the reservations still to be paid |
| `PageDecode.SymbolRound` | src/gdeflate_block.h:427-521 | One round of 32 lanes, with the end-of-block lane splitting it into symbols and drain steps, is the reading of those lanes in lane order |
| `PageDecode.DrainRound` | src/gdeflate_block.h:522-548 | Every lane before the one that ended the block takes its drain step, and the block then owes nothing |
| `PageDecode.ReadLane` | src/gdeflate_block.h:455-513 | A lane with no reservation writes its literal at the claimed position, reserves its match, or ends the block, refusing exactly when the capacity is passed |
| `PageDecode.PayLane` | src/gdeflate_block.h:255-281 | A lane that owes a distance performs its copy into the hole it reserved; the output goes on agreeing with the tokens |
| `PageDecode.StoredBlockRounds` | src/gdeflate_block.h:340-393 | A stored block is refused if it passes the capacity or declares more than is left of the page, and otherwise yields its bytes one lane each, 32 a round |
| `PageDecode.StaticTables` | src/gdeflate_block.h:131-160 | The static vectors are written in place and build: their construction cannot be refused |
| `PageDecode.HeaderRound` | src/gdeflate_block.h:311-339 | The final mark and the type are three bits of lane 0; the reserved type is refused behind the refill |
| `PageDecode.CensusAccounts` | src/gdeflate_block.h:171-178 | Type 0 counts the stored blocks and their bytes, 1 the fixed and 2 the dynamic; together they come to the number of blocks and to the output's length |
| `Deferred.RetireInOrder` | src/gdeflate_block.h:255-281 | The lane whose turn it is owes for the oldest outstanding reservation of all, and retiring it keeps the rest in the order they were made |
| `Deferred.ReserveInOrder` | src/gdeflate_block.h:492-508 | A new reservation is the newest, and keeps the order |
| `Deferred.TrackRetire` | src/gdeflate_tables.h:628-637 | A late copy reads only final bytes and fills only its own hole, so the output agrees with the tokens, the match now among them |
| `Deferred.TrackReserve` | src/gdeflate_block.h:469-508 | A reservation claims the next bytes of the output; every earlier claim is undisturbed |
| `Lz77.AgreementIsExecution` | src/gdeflate_block.h:423-548 | A buffer that satisfies every token's own equation, however late the copies came, is the in-order execution of the tokens |
| `Lz77.FillAgrees` | src/gdeflate_tables.h:628-637 | Filling the oldest hole preserves every token's equation, because no later token has read it |
| `Lz77.CopyBytes` | src/gdeflate_tables.h:628-637 | The forward byte copy is the self-overlapping match and touches nothing else |
| `Lz77.CopyIsPeriodic` | src/decode_sequence.h:10-17 | The closed form of a match: byte i is byte i mod distance of the window before it |
| `Schedule.EveryRunConserves` | src/gdeflate_schedule.h:398-515 | Over any run of reads and refills that has not refused, each word below the cursor went to one lane, the lanes whose refills took the words own them in order, and each lane's removed bits followed by its buffer are its words' bits in order; what a lane has newly given up is the numbers its reads returned, one behind another in their own widths, and in total the widths read |
| `Schedule.PageIsReadOnce` | src/gdeflate_schedule.h:398-581 | From priming on, what a lane's reads have returned followed by what it still holds is exactly the words dealt to it, one by priming and the rest by its own refills: each bit of the page is read at most once, and in order |
| `PageWriter.WrittenFeeds` | src/gdeflate_schedule.h:398-581 | Every script of reads and refills that asks no lane for more than it holds has a page whose lanes read just its bits, whatever words are behind |
| `Schedule.BitsAreConserved` | src/gdeflate_schedule.h:583-594 | Bits removed plus bits buffered equals 32 times the cursor |
| `Schedule.GDeflateSchedule.Pop` | src/gdeflate_schedule.h:432-452 | A pop returns the front field of the lane's queue and removes exactly it, or refuses; a buffer stays below 2^Left with Left at most 63 |
| `Schedule.GDeflateSchedule.RefillLane` | src/gdeflate_schedule.h:454-470 | On any lane: the registers afterwards, and the refusal past the page. Below the watermark the word's 32 bits are behind the lane's queue and mixed with none of the bits already there; the state stays meaningful exactly when the lane was below it, had failed, or the page had no such word |
| `Schedule.GDeflateSchedule.Advance` | src/gdeflate_schedule.h:493-507 | The current lane takes the word it is due, if the page has one, and the lane rotates |
| `Schedule.GDeflateSchedule.Init` | src/gdeflate_schedule.h:559-581 | A page is refused unless it is whole words and a full priming round; afterwards lane l holds word l |
| `Schedule.ReadAhead` | src/gdeflate_schedule.h:360-387 | Reading past the codeword returns the next field of the queue or records the shortage, moving nothing |
| `Bits.ShrIsDivision` | src/gdeflate_schedule.h:378-381 | The shift and the mask the model reads fields with, defined a bit at a time, are the quotient and the remainder by a power of two |
| `Schedule.PrimedConserves` | src/gdeflate_schedule.h:559-581 | Priming deals the first 32 words one to a lane and leaves every lane at the watermark |
| `Schedule.WordAtIsLittleEndian` | src/gdeflate_schedule.h:334-343 | A page word assembled by shifts is the little-endian value of its four bytes |
| `CanonicalCode.CompleteIsUniquelyDecodable` | src/gdeflate_tables.h:202-222 | A complete length vector is a full prefix code: every string of the maximum length begins with exactly one codeword |
| `CanonicalCode.MatchExists` | src/gdeflate_tables.h:362-376 | Some codeword always matches, so the walk cannot end without a symbol when the lane holds enough bits |
| `CanonicalCode.MatchUnique` | src/gdeflate_tables.h:277-299 | Two codewords are never prefixes of one string |
| `CanonicalCode.NextCodeStarts` | src/gdeflate_tables.h:275-281 | The first code of a length, scaled, is the codespace of the shorter lengths; with its count, of those up to it |
| `CanonicalCode.KraftByLength` | src/gdeflate_tables.h:202-222 | Summed by symbol or by length the codespace is the same |
| `HuffTable.GDeflateHuffTable.BuildTable` | src/gdeflate_tables.h:172-302 | Accepts a vector exactly when it fits the alphabet and the longest length and is complete, empty, or one symbol of length 1, with the rung each refusal names; on acceptance counts, first codes, first indices, sorted symbols and root are those of the vector |
| `HuffTable.GDeflateHuffTable.PlaceSymbols` | src/gdeflate_tables.h:232-242 | The in-place counting sort puts every used symbol at its canonical slot, the cursor array ending one count past its start |
| `HuffTable.GDeflateHuffTable.WindBack` | src/gdeflate_tables.h:243-246 | The shared cursor array is wound back to the prefix sums of the counts |
| `HuffTable.SlotOrders` | src/gdeflate_tables.h:237-242 | Canonical slots order symbols by length and then by symbol |
| `HuffTable.CodespaceIsKraft` | src/gdeflate_tables.h:202-222 | The doubling accumulator ends as the Kraft sum over 2^maximum |
| `HuffTable.CodespaceIsNextCode` | src/gdeflate_tables.h:212-281 | First code plus count of a length obeys the accumulator's own recurrence |
| `HuffTable.SingleByCount` | src/gdeflate_tables.h:256-273 | Half the codespace with one symbol of length 1 is exactly the single-symbol code |
| `HuffTable.GDeflateHuffTable.FillRoot` | src/gdeflate_tables.h:282-301 | The accelerator is filled so that each slot names the codeword under its bits, or is zero if there is none that short |
| `HuffTable.RootWrite` | src/gdeflate_tables.h:288-300 | Each slot a codeword claims was empty: no slot is written by two codewords |
| `HuffTable.ReverseBits` | src/gdeflate_tables.h:151-158 | For any code and width, the low bits of the code come back reversed: the lowest first are the codeword's bits in arrival order |
| `HuffTable.GDeflateHuffTable.ResolveSymbol` | src/gdeflate_tables.h:325-376 | Lookup-then-walk answers with the one symbol the buffer begins with and its width, and refuses only a lane too short to hold a codeword |
| `HuffTable.GDeflateHuffTable.Walk` | src/gdeflate_tables.h:362-376 | The walk alone answers the same; a complete code never leaves it without a symbol |
| `HuffTable.ResolvedUnique` | src/gdeflate_tables.h:325-376 | That answer is unique, so the accelerator refines the walk for every buffer, short ones included |
| `HuffTable.ResolvedWhenLong` | src/gdeflate_tables.h:340-376 | A lane holding the longest codeword never runs short |
| `PageTheorems.RootSlotIsZero` | src/gdeflate_tables.h:282-301 | A root slot is zero exactly when the codeword under its bits is longer than the root, and otherwise holds that codeword's symbol and length |
| `PageTheorems.SymbolsRoundTrip` | src/gdeflate_tables.h:325-376 | Reading inverts canonical encoding of any symbol sequence, whatever bits follow |
| `PageTheorems.EveryDistanceOnce` | src/gdeflate_block.h:112-126 | Every distance from 1 to 65536 has exactly one symbol and extra-bit value |
| `PageTheorems.EveryLengthOnce` | src/gdeflate_block.h:96-110 | Every length from 3 to 258 has exactly one symbol below the wide ones and one extra value |
| `PageTheorems.WideLengths` | src/gdeflate_block.h:92-110 | Each of the three wide symbols reaches every length from 3 to 65538, with the extra value that does it |
| `PageTheorems.LengthsInClosedForm` | src/gdeflate_block.h:96-110 | Behind the first four, each power of two is cut into four lengths: bases and widths of the symbols below the wide ones in closed form |
| `PageTheorems.DistancesInClosedForm` | src/gdeflate_block.h:112-126 | Behind the first two, each power of two is cut into two distances: bases and widths of all symbols in closed form |
| `PageTheorems.BytesLeftRoundsUp` | src/gdeflate_block.h:347-375 | The bound on a stored block's length is the bits the page still holds, in bytes and rounded up |
| `Team.GDeflateHostTeam.ReadCodeLengthRounds` | src/gdeflate_tables.h:680-860 | On success the vector of both alphabets is wholly written and equals the sequential run expansion of the precode symbols in lane order; on failure the reason is that reading's own |
| `Team.ExpandRounds` | src/gdeflate_tables.h:769-855 | Every round fills at least one entry or refuses, so the round cap alone guarantees the fill; lanes past the end consume nothing |
| `PageTheorems.ExpansionIsRuns` | src/gdeflate_tables.h:769-855 | The expansion is accepted exactly when some number of reads, lane after lane with the words due between them, gives precode runs that can be written and come to exactly the two alphabets. That number is the only one and no fewer reads get there; the vector is then those runs of section 3.2.7 of RFC 1951 written out, and the lanes are left as just those reads leave them, so lanes past the end consume nothing |
| `PageTheorems.ExpansionRefused` | src/gdeflate_tables.h:769-855 | It is refused for a reason exactly when, behind some runs that can be read and written short of the alphabets, the next lane's is the first that cannot, for that reason: no symbol, nothing to repeat, past the alphabets, or no word behind it |
| `Team.CommitRun` | src/gdeflate_tables.h:815-840 | A run whose symbol was refused, or that has nothing before it to repeat, or whose extra bits ran short, or that passes the alphabet is refused for the first of these reasons; otherwise exactly its bits are consumed |
| `Team.GDeflateHostTeam.ReadDynamicTableRounds` | src/gdeflate_tables.h:866-895 | From any primed team, lane 0 below the watermark included, both tables are built from the vectors read, refusing for the first of the two that is not a code |
| `CodeWriter.HeaderIsRead` | src/gdeflate_tables.h:680-895 | A dynamic header written from its counts, its precode and its runs is read back as the two vectors the runs write and the codes they are |
| `CodeWriter.PrecodeReads` | src/gdeflate_tables.h:730-745 | Precode lengths written three bits and one lane each in the order 16, 17, 18, 0 and then outwards from 8, a step up and a step down in turn, come back to their own symbols; those past the explicit ones are zero |
| `CodeWriter.PlacesOnce` | src/gdeflate_tables.h:438-447 | Every precode symbol has exactly one place in that order, which is the reader's |
| `CodeWriter.RunIsRead` | src/gdeflate_tables.h:780-815 | A run written as its symbol's codeword and, behind 16, 17 or 18, two, three or seven bits above its least count, is read back |
| `PageTheorems.RunWrites` | src/gdeflate_tables.h:769-855 | A run writes its own length, the length before it over and over, or zeros, as many times as it says, behind what was there |
| `WavePipeline.StreamCtx.DecodeOnStreamCtx` | src/stream.cpp:545-580 | For every interleaving and every fault: a call that neither poisons the context nor has a wave declined publishes exactly the results and buffers of decoding one chunk after another. Poison needs a call that failed, a fault, or a claim past a capacity, and every failure brings it; the wave declined is the first, in the order of their starts, that the entry does not accept, with the entry's status. With none of these the call is exactly the sequential one, so a per-chunk reject never poisons. A poisoned context stays poisoned and stamps every record, and an argument reject touches nothing. The status is OK exactly when every record is, and otherwise that of the lowest record that is not; a poisoned call that no wave declined answers with a device error |
| `WavePipeline.StreamCtx.DecodeStreamCtx` | src/stream.cpp:242-517 | Every published record is its own chunk's report or the not-decoded stamp; a wave the entry declines, the first it does not accept, leaves the chunks before it delivered and the rest untouched; no caller byte past what its chunk delivers changes; poison has a cause in the environment or in a claim past a capacity, and OK means no fault, no decline and no poison. The status is that of the lowest record that is not OK, if the call ran to its end |
| `WavePipeline.StreamCtx.RunWaves` | src/stream.cpp:355-475 | The memory the queue will leave behind after each wave is that of a host that waited after every call; the waves stop only at a failure of the environment, at the first wave the entry declines or at a claim past a capacity |
| `WavePipeline.StreamCtx.Progress` | src/stream.cpp:355-475 | Any number of device steps, or a fault, between two host actions keep every record and tail safe and leave the settled memory as it was |
| `WavePipeline.StreamCtx.WaitReuse` | src/stream.cpp:363-372 | Past the reuse gate, no queued copy still reads pinned memory |
| `WavePipeline.StreamCtx.StageChunk` | src/stream.cpp:393-407 | Staging overwrites pinned memory while the device runs and changes nothing already queued |
| `WavePipeline.StreamCtx.SendWave` | src/stream.cpp:418-433 | The copies and the event behind them load the device with exactly the staged wave |
| `WavePipeline.StreamCtx.Launch` | src/stream.cpp:435-446 | The entry's answer is the wave's, and a declined wave leaves the settled memory as it was; an accepted one is queued whole |
| `WavePipeline.StreamCtx.CopyChunkToHost` | src/stream.cpp:164-187 | A device-reported length past the capacity fails the wave with nothing written for that chunk; otherwise exactly that many bytes are delivered |
| `DeviceQueue.StagingCommutes` | src/stream.cpp:363-407 | With no copy out of pinned memory queued, overwriting it commutes with everything the queue will do |
| `DeviceQueue.ReuseIsSafe` | src/stream.cpp:428-433 | The event's completion implies that no such copy is queued |
| `DeviceQueue.RunKernel` | src/stream.cpp:435-446 | In whatever order a launch's chunks run, each sees its own wave's bytes and no other and leaves its record and output in its own place |
| `DeviceQueue.SoundAppend` | src/stream.cpp:418-456 | Queueing behind a sound queue is sound exactly when the operations are ready in the memory the queue leaves |
| `WavePipeline.ChooseWaveChunks` | src/stream.cpp:77-106 | The widest wave the staging budget, the chunk ceiling and the batch admit, never less than one chunk |
| `WavePipeline.WaveFitsBudget` | src/stream.cpp:266-297 | A wave of several chunks stages at most the budget, however the sizes are distributed, and no wave's sums overflow |
| `WavePipeline.PlanWaves` | src/stream.cpp:266-297 | The staging sizes suffice for every wave, and the overflow refusal is never taken |
| `WavePipeline.OkMeansEveryChunk` | src/stream.cpp:509-517 | The aggregate is OK exactly when every chunk is |
| `WavePipeline.FirstBadSpeaks` | src/stream.cpp:509-517 | The aggregate is not OK exactly when some record is not, and then is the status of a record with every record below it OK; no other status is |
| `Lz4Block.Lz4Parser.Next` | src/lz4_block.h:112-231 | Succeeds if and only if a sequence, or the tail, is well formed at the cursor under every margin, and hands out its ranges. OUTPUT_TOO_SMALL if and only if the output is the first thing refused: a run, or behind it and its offset a match, passes the room while its extension is still being read clear of the margin, or once it is read and, for a run, its bytes are there. Anything else is corrupt |
| `Lz4Block.Lz4Parser.AccumulateLength` | src/lz4_block.h:68-101 | Accepts exactly the extensions before the margin whose sum did not pass the room while it was read; OUTPUT_TOO_SMALL exactly when some byte of it is reached through bytes of 255 read clear of the margin with the sum already past the room; the fuel is never spent and the 64-bit sum never wraps |
| `Lz4Twin.Lz4TwinDecode` | tests/lz4_twin.h:41-77 | Accepts exactly the streams that encode some block within the margins, writes what that block says and nothing past it, and calls the parser once a sequence and once for the tail, at most a third of the stream's length plus one times; on a refusal, once for each sequence that lies end to end from the start and once more where neither a sequence nor a tail does. OUTPUT_TOO_SMALL if and only if some sequences lie end to end and the output is what the next is refused for |
| `Lz4Format.EncodableParses` | src/lz4_block.h:112-231 | Every block an encoder may write is accepted at every capacity that holds its output |
| `Lz4Format.ParsesOnlyEncodable` | src/lz4_block.h:147-180 | At a capacity of exactly the output nothing else is: the last five bytes are literals and the last match starts twelve before the end |
| `Lz4Format.ParsedIsEncoded` | src/lz4_block.h:147-180 | An accepted stream is exactly its block's encoding, consumed to the end, and its output fits |
| `Lz4Format.ParsesOneBlock` | src/lz4_block.h:112-231 | A stream parses as at most one block |
| `Lz4Format.SequenceInverse` | src/lz4_block.h:112-219 | A sequence lies at a position exactly when reading there returns its lengths, offset and literals |
| `Lz4Bench.BuildWorst4bBlock` | bench/bench_lz4.cpp:172-226 | For every size from 256: accepted under all margins at every sufficient capacity, and decodes to its stated original |
| `Lz4Bench.BuildLongmatchBlock` | bench/bench_lz4.cpp:306-373 | For every size from 795: the same, with every match's offset at least its length |
| `Lz4Bench.EmitLengthExtension` | bench/bench_lz4.cpp:280-287 | Writes the extension that the parser's accumulator reads back |
| `Lz4Bench.WalkBlock` | bench/bench_lz4.cpp:437-483 | On the encoding of any block counts that block's sequences, literal bytes and match bytes, and answers whether they come to the expected size |
| `SnappyBlock.SnappyParser.Next` | src/snappy_block.h:285-429 | Hands out the head of what the stream still holds, with exactly one non-empty half inside its buffers and the other all zero; the terminal element comes once, at exact consumption and exact production, and a call past it refuses |
| `SnappyBlock.SnappyDeclaredLength` | src/snappy_block.h:187-219 | Reads the preamble's value below 2^32 or names the rung; the exit behind the loop is never taken |
| `SnappyTwin.SnappyTwinDrive` | tests/snappy_twin.h:59-134 | Accepts exactly the streams that parse, produces exactly the declared length by in-order execution, and otherwise names the rung the stream failed; its re-checked bounds always hold and its fuel is never spent. OUTPUT_TOO_SMALL if and only if the preamble declares more than the capacity |
| `SnappyFormat.ParsedPlays` | src/snappy_block.h:296-315 | A stream that parses produces its declared length through non-empty elements that reach only backwards |
| `SnappyFormat.SpellingInverse` | src/snappy_block.h:317-429 | Every spelling of every playable element sequence parses back to it |
| `SnappyFormat.ParsedIsSpelled` | src/snappy_block.h:317-429 | Whatever parses is, to its last byte, a spelling of the elements it parses to |
| `SnappyFormat.AcceptedIsSpelled` | src/snappy_block.h:187-429 | The streams accepted at a capacity are exactly those that spell playable elements whose output the preamble declares within it, and each is read as the elements it spells |
| `SnappyFormat.StreamRoundTrip` | src/snappy_block.h:187-429 | Preamble and elements together round-trip at every sufficient capacity below 2^32 |
| `SnappyFormat.VarintInverse` | bench/bench_snappy.cpp:227-233 | Reading the preamble inverts writing it for every value below 2^32 |
| `SnappyTwin.VarintRoundTrip` | bench/bench_snappy.cpp:227-233 | The reader applied to the writer's bytes returns the value and the bytes it took |
| `SnappyTwin.BuildWorstDensityBlock` | bench/bench_snappy.cpp:250-302 | For every size from 256: plays its stated original, and below 2^32 parses to those elements at every sufficient capacity |
| `SnappyTwin.BuildWorstLiteralBlock` | bench/bench_snappy.cpp:315-344 | The same for the literal chain, one element per byte |
| `ZstdBits.ZstdBitReader.ReadBits` | src/zstd_bitstream.h:187-224 | A successful read is the next bit field of the stream's number; a refused one moves nothing, names its reason, and the first overrun is permanent |
| `ZstdBits.ReadFields` | src/zstd_bitstream.h:187-224 | Reads from one reader, one after another, all succeed exactly when each is narrow enough and together they are there to be read, and then return the fields of the number one below another |
| `ZstdBits.ZstdBitReader.Start` | src/zstd_bitstream.h:121-146 | The marker is the number's top set bit; only an empty stream or a zero last byte has none |
| `ZstdBits.ZstdBitReader.BitAt` | src/zstd_bitstream.h:165-177 | The closed-form position is that bit of the number |
| `ZstdBits.ZstdHighestSetBit` | src/zstd_bitstream.h:93-101 | The answer places the byte between two powers of two |
| `ZstdBits.ExtractSplit` | src/zstd_bitstream.h:187-224 | Reading a bits and then b bits is reading a+b bits |
| `ZstdBits.ReadsAssemble` | src/zstd_bitstream.h:187-224 | However the reads are cut, together they return one field |
| `ZstdBits.ExactConsumption` | src/zstd_bitstream.h:148-155 | Read to the end in any cut, a stream yields every bit below its marker exactly once |
| `Lz4Frame.Lz4ParseFrameDescriptor` | src/lz4_frame.h:106-174 | Accepts exactly the frames that some descriptor describes, and declines as unsupported exactly the skippable frames and the otherwise sound ones with linked blocks or a dictionary |
| `Lz4Frame.OneDescriptor` | src/lz4_frame.h:106-174 | A frame has at most one descriptor |
| `Lz4Frame.DescriptorCodes` | src/lz4_frame.h:106-174 | A block maximum is 2 to the power of 8 and twice its code, and the header's check byte is the second of the checksum |
| `Lz4Frame.Lz4WalkFrameBlocks` | src/lz4_frame.h:189-238 | Computes the block table, or the offset it stopped at; the fuel is never what ends it |
| `Lz4Frame.TableInverse` | src/lz4_frame.h:189-238 | A written block table walks back to its payloads, whatever follows it |
| `Lz4Frame.WalkedIsWritten` | src/lz4_frame.h:189-238 | A table the walk accepts is the one writing of its payloads, inside the frame, each within the block maximum |
| `FrameAssembly.DecodeFrame` | src/frame.cpp:267-300 | When the runtime does not fail: OK exactly on a frame whose content fits the capacity, OUTPUT_TOO_SMALL exactly on a described frame whose blocks decode to more, whatever its tail says, UNSUPPORTED exactly on a declined descriptor, corrupt otherwise. When it does, the status is the first of the frame's and the runtime's refusals in their order. Whenever it succeeds it has delivered the content, and no byte past the capacity is touched |
| `FrameAssembly.DecodeAndAssemble` | src/frame.cpp:37-261 | The status is the first of: a size that overflows, the answer of the batch, a block that does not decode, content past the capacity, a failure of the runtime during the assembly. Nothing is written unless the content fits, and then every byte is what it should be or what it was. The transfers issued bring bytes of the content, one past another, and on success cover the compressed blocks |
| `FrameAssembly.Assemble` | src/frame.cpp:170-256 | Merged copies completing in any order, interleaved with host copies, leave the plain concatenation of the blocks, unless the runtime refuses one of them or the drain. The copies issued lie one past another, each brings bytes of the content to their place, they cover exactly the bytes of the compressed blocks, and they are at most one a compressed block |
| `FrameAssembly.BlocksApart` | src/frame.cpp:195-201 | No byte of the output belongs to two blocks, so the host's own copies touch none that a transfer brings |
| `FrameAssembly.CompleteOne` | src/frame.cpp:177-193 | Any transfer may complete next: every byte below the cursor stays in place or on its way |
| `FrameAssembly.DecodeBlocks` | src/frame.cpp:50-153 | Every compressed block decodes into its own slot; one that fails or claims more than its slot makes the frame corrupt |
| `FrameAssembly.FrameRoundTrip` | src/frame.cpp:267-300 | A frame written from a descriptor, payloads that decode and a truthful tail contains the concatenation of what they decode to |
| `FrameAssembly.EncodedFrame` | src/frame.cpp:267-300 | With a decoder of LZ4 blocks, a frame written from stored bytes and encoded blocks contains the stored bytes and the outputs of the encoded blocks, joined in order |
| `TileStream.TileStreamParse` | src/tilestream.h:148-297 | Accepts exactly the well-formed envelopes that fit the caller's table; the source ranges abut from the table's end and lie in the stream, and the output sizes sum to the total without wrapping |
| `TileStream.TilesPartition` | src/tilestream.h:216-295 | The chain and its one end check bound every tile, with no per-offset check |
| `TileStream.EnvelopeRoundTrip` | src/tilestream.h:148-297 | Enclosing payloads and parsing the envelope, whatever lies behind it, gives each payload back as its own tile, of 65536 bytes of output but for a shorter last one, and their total |
| `TileStream.AcceptedIsEnclosed` | src/tilestream.h:148-297 | The envelopes accepted are exactly the streams that begin with the envelope of some payloads |
| `TileStream.BuildTileStreamPlan` | src/tilestream.cpp:93-160 | Refused as corrupt exactly when the bytes are no envelope, as an invalid argument exactly when the result table is then too short, as too small exactly when the total then passes the destination; otherwise the planned destinations abut from zero to the total |
| `TileStream.RunTileStreamPlan` | src/tilestream.cpp:173-240 | On a live context whose runtime does not fail, OK exactly when every tile produces its declared size; whenever OK, each range holds that output and nothing from before. A decode that ran to its end leaves each tile its own record, a short tile corrupt if all were accepted, and each range what decoding that tile alone leaves there; nothing past the total changes |
| `TileStream.DecodeTileStream` | src/tilestream.cpp:278-301 | What the envelope, the result table or the destination refuses is refused with its own status and nothing written. On a live context whose runtime does not fail the answer is OK if every tile produces its declared size, and it is never OK otherwise; with a batch decoder of pages the output is then the in-order execution of every page's tokens, one page behind another. Past the refusals, a decode that ran to its end has each tile's own record, and its status is the lowest bad record's, or corrupt if all decoded and one came short; a poisoned context answers with a device error and a declined wave with the entry's status |
| `TileStream.PagesInBounds` | src/tilestream.cpp:125-134 | A decoder of pages stays within the capacity it is given and has written what it claims |

## Left out

- The warp residency of the GDeflate team and every CUDA or HIP kernel: only the host team is modelled. The device is a first-in first-out queue of abstract steps that may fault.
- The decoders behind a batch entry, in the pipeline and in the frame decode: an arbitrary function of one chunk and its capacity. It is assumed to stay inside its capacity and to have written what it claims, unless it claims more than the capacity.
- A launch's chunks run in any order but one at a time: a chunk's own reads and writes are one step.
- Queued device operations and the pinned and device buffers of `DeviceQueue` are values held by the context object, so the aliasing of raw pointers is not captured; offsets into the staging are.
- A device copy into a caller's buffer that fails may have written anything in the part it was to write; a copy between staging buffers is dropped whole by a fault.
- A grow of the staging that fails poisons the context; which of the buffers had grown by then is not modelled.
- Host allocation failures and the null and memory-space argument checks of the entries.
- The checksums of `src/xxhash32.h` and `src/xxhash64.h`: an arbitrary function of the bytes.
- TileStream.RunTileStreamPlan: the tiles' ranges of the destination are handed to the pipeline as separate buffers and laid back behind it, so their aliasing with one array is not captured.
- FrameAssembly.Assemble: which order the transfers complete in is free, but a transfer completes whole; a runtime that fails one is modelled as having moved none of its bytes.
- WavePipeline.StreamCtx.DecodeStreamCtx: when the context is poisoned, the contents of the caller's buffers below each chunk's delivered length are not stated.
- PageDecode.DecodePage: the census counts blocks without the 32-bit wrap its counters would show past 2^32 blocks of one page. What a refused page leaves in the output below the capacity is not stated. Whether a stored block whose length passes the reachability check completes is not claimed either: the bound ignores which lane needs the words.
- PageDecode.CensusAccounts: the census of a refused page is not modelled; the source leaves it unwritten.
- GDeflateDecodeSymbol, GDeflatePeek and the sequential wrappers behind the rounds: each is one modelled step behind another.
- Zstd beyond the bit reader, and every cudec.h entry that only forwards.
- Benchmark timing, corpora, reports, command lines and the comparison against reference libraries.
