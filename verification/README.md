# Verification of the DSTwo libraries

This directory models the parts of the repository with the most intricate state and arithmetic, and proves what they
promise. `dafny verify dfyconfig.toml` checks everything. There are seven groups of modules.

**The LZ77 engine of zlib's deflate** (`RollingHash`, `HashChains`, `Lz77`, `Deflate`). `Deflate.DeflateState` is the
deflate state with its window, hash heads, links and token buffers as arrays that the methods change in place. Ghost
fields hold everything the client supplied, the offset in it of window index 0, the positions in the dictionary, the
blocks handed to the entropy coder, and the last full flush. `Deflate.AnyRun` is the main theorem: after any calls of
deflate, however the client slices input and output and whatever it flushes, at every level from 1 to 9 and with every
strategy, the tokens decode to the input by the copy rule of section 3.2.3 of RFC 1951, in a window of the announced size,
and from any full flush on by themselves. It rests on the hash chains (`InsertKeepsChains`, `SlideKeepsChains`), on the
rolling hash forgetting old bytes (`Forgets`, `ThirdByte`), and on `LongestMatch`, which is sound and finds the longest
match among as many of the newest candidates as its chain limit allows. Beyond decoding, each step says exactly which token
it puts out.

**Level 0 down to the bits** (`Rfc1951`, `StoredStream`, `Compress`). `StoredStream.Stream` is a z_stream at level 0 with
the pending buffer as an array, the 16-bit bit buffer, the sliding window and the Adler-32. `Rfc1951` reads the bits back,
independently: stored blocks, the empty static block that marks a partial flush, and the zlib wrapper of section 2.2 of
RFC 1950. `AnyStoredRun` proves conservation at every moment and the round trip at the end. `Compress2Stored` proves that
compress2 at level 0 returns Z_OK exactly when the destination holds the stored size, and `BoundSuffices` that
compressBound asks for enough exactly when its 32-bit sum does not overflow.

**The checksums** (`Gf2`, `Crc32`, `Crc32Tables`, `Crc32Combine`, `Adler32`). The CRC reference is a bit-at-a-time shift
register; the byte-wise form and both word-sliced forms equal it for every length, start value and alignment, any change
within four bytes is detected, and the matrix form combines two checksums. Adler-32 with deferred and division-free
reductions equals section 8.2 of RFC 1950, with the 32-bit bound of 5552 bytes shown to be the largest.

**The gz reader in transparent mode** (`GzRead`). `GzFile` with its buffers, pending seek and push-back refines a plain
cursor with a stack of pushed-back bytes, for any slicing of the file by read(2), and fails only when read(2) does or when
there is no room for a push-back.

**The audio stream from the Supercard to the sound hardware** (`AudioRing`, `AudioLink`). Both ring buffers, the packets,
the acknowledgement counter, the pending-notification bits and the handshake for starting and stopping, as atomic steps in
any order: the overrun error of the ARM9 is unreachable and what is played is what was submitted.

**The clock solver** (`ClockSpeed`). The divider search, its exact failure condition, the exact requests for which the PLL
stays in range, and the round trip through the registers.

**The gzip header states** (`GzipHeader`, `GzipParse`). For any header record and any schedule of output space, what comes
out is the header of section 2.3 of RFC 1952 with its CRC16, and a reader gets the record back.

`Common` and `Zlib` hold small shared definitions.

## How to read the model

- Integers are unbounded. Where the C type matters, the width is written out or a subset type proves that values fit:
  `match_start` after a slide wraps modulo 2^32 (`Sub32`), token distances are kept in 16 bits, the Adler sums in 32,
  `audio_consumed` in 16, the clock arithmetic and compressBound in 32.
- A block handed to the entropy coder is recorded with its tokens, its raw bytes if the window still holds them, and its
  length; the number of bytes the coder then puts into the pending buffer is arbitrary.
- The results of deflate's first checks are one function, `Zlib.Entry`, and those of deflateInit2_ another, `Zlib.InitSetup`.
- Ghost predicates named `Valid` and `Running` are the invariants. `hide` statements only keep definitions out of proofs
  that do not need them.

## What turned out to be false, and what holds instead

Each is shown by a concrete input, and the exact condition is proved for all inputs.

- adler32 of a single byte subtracts only once from the second sum. From a start whose second half was not reduced the
  result can come out not reduced (`Adler32.OneByteUnreduced`); `Adler32.OneByteSum` gives the exact condition. Likewise
  adler32_combine of halves that were not reduced (`Adler32.UnreducedCombine`, `Adler32.Adler32Combine`).
- compressBound is computed in 32 bits (`Compress.BoundTooSmall`). `Compress.BoundSuffices`: it is enough exactly when the
  sum does not overflow.
- DS2_SetClockSpeed, when both clocks asked for are fast, sets the PLL to twice the lower one without looking at the
  limit: 600 MHz for 300 MHz (`ClockSpeed.PllTooFast`). `ClockSpeed.Fits`, which `Choose` ensures: the PLL is in range exactly for
  `Sound` requests; below 2^31 Hz that is a lower clock below 252 MHz (`SoundBelow252MHz`).
- For such requests the refresh computation divides by zero exactly when twice the lower clock, in 32 bits, is below 12 MHz,
  from 2004 to below 2148 MHz, or at least 4152 MHz (`ClockSpeed.OutOfScale`, `SetClockSpeed`): for both clocks at
  1010 MHz, for instance (`ClockSpeed.MemoryTooFast`). The clocks read back are those reported exactly when it is from 24 to
  below 2148 MHz (`ClockSpeed.Readable`, `SetThenGet`).
- DS2_GetFreeAudioSamples is documented to return 0 while audio is not started. It does not look at the status: before the
  first stream it returns 2^32 - 1 (`AudioRing.FreeBeforeFirstStream`), and after a stream was stopped the room in its
  buffer (`AudioRing.FreeAfterStop`). `GetFreeAudioSamples` says exactly when it is 0.
- gzseek64 to a place before the start fails, but a seek that was pending is forgotten by it (`GzRead.SeekForgotten`); and if bytes were pushed back
  in front of the start, a forward seek among them returns a negative position although it moved
  (`GzRead.SeekAmongPushed`; `GzRead.GzFile.Gzseek` for all inputs). A seek past the end that still waits when data is read
  ends at the end of the file, while one made after copying has started goes past it (`GzRead.SeekPastEnd`).
- An error return of deflate can follow pending output (`Zlib.ErrorBehindOutput`): `StoredStream.Stream.DeflateCall` says
  exactly when. Errors add nothing to the stream.

## Model

| member | source | states |
|---|---|---|
| `Deflate.AnyRun` | mips-side/libsrc/zlib/deflate.c:763-1073 | for all parameters that deflateInit2_ accepts with a level from 1 to 9, and every sequence of calls (any slices of input and output, any flushes): the tokens put out so far decode, by the copy rule of section 3.2.3 of RFC 1951, to the input processed so far, even in a window of just the size chosen; strategy and level restrict them (no copies for Z_HUFFMAN_ONLY, only distance 1 for Z_RLE, no copies of length 5 or less for Z_FILTERED and none of length 3 from further than TOO_FAR under lazy evaluation, none beyond MAX_DIST); after a flush that leaves output space the blocks alone decode to all input supplied; what follows a completed full flush decodes without what came before; and once the stream has ended the blocks, the last of them marked so, decode to the whole input |
| `Deflate.DeflateState.StreamDecodes` | mips-side/libsrc/zlib/deflate.c:1926-2049 | at every moment the blocks and the buffered tokens decode to the input read, less the lookahead and the one literal that lazy evaluation defers; a window of `w_size` is enough; they keep the rule of level and strategy; and those since the last full flush decode alone |
| `Deflate.DeflateState.EndedStreamDecodes` | mips-side/libsrc/zlib/deflate.c:1040-1072 | at the end of the stream the blocks alone, the last of them marked so, decode to the whole input |
| `Deflate.DeflateState.AllInBlocks` | mips-side/libsrc/zlib/zlib.h:290-326 | when nothing waits, the blocks alone decode to all input |
| `Lz77.WindowSuffices` | mips-side/libsrc/zlib/deflate.c:816-835 | a decoder that keeps only a window behind its output gives the same bytes, exactly when no token reaches back further than the window, whose size the header announces |
| `RollingHash.UpdateAgrees` | mips-side/libsrc/zlib/deflate.c:163 | the update on numbers cut to `hash_bits` bits does not depend on the bits cut off |
| `RollingHash.Forgets` | mips-side/libsrc/zlib/deflate.c:316-319 | after three updates the key does not depend on what it was before, because three shifts leave the key |
| `RollingHash.ThirdByte` | mips-side/libsrc/zlib/deflate.c:1350-1360 | equal keys and equal first two bytes give equal third bytes, which is why the third byte of a match is never compared |
| `HashChains.InsertKeepsChains` | mips-side/libsrc/zlib/deflate.c:163-190 | inserting a string keeps every link pointing at the newest older position of the same bucket that is still in reach |
| `HashChains.GrowKeepsChains` | mips-side/libsrc/zlib/deflate.c:1525-1561 | reading more input behind the window changes no link |
| `HashChains.SlideKeepsChains` | mips-side/libsrc/zlib/deflate.c:201-225 | subtracting the window size from all links, with those below it made 0, is the same chains seen from the slid window |
| `HashChains.NewestSlides` | mips-side/libsrc/zlib/deflate.c:201-225 | a link that survives the slide still leads to the same string |
| `HashChains.ClearedChains` | mips-side/libsrc/zlib/deflate.c:192-194 | with all heads cleared nothing is reachable |
| `Lz77.CopyIsExact` | mips-side/libsrc/zlib/deflate.h:333-342 | a copy of bytes that repeat the input expands to exactly those bytes, overlapping copies included |
| `Lz77.DecodePush` | mips-side/libsrc/zlib/deflate.h:326-342 | one more token decodes to what was decoded so far and the meaning of that token |
| `Lz77.DecodeConcat` | mips-side/libsrc/zlib/deflate.c:1605-1620 | tokens decoded in one go and block by block give the same bytes |
| `Lz77.DecodedLength` | mips-side/libsrc/zlib/deflate.c:1605-1620 | the decoded length is the total length of the tokens |
| `Lz77.BlocksDecode` | mips-side/libsrc/zlib/deflate.c:1605-1620 | blocks that each mean their stretch of the input decode to the input as one stream |
| `Lz77.BlocksPush` | mips-side/libsrc/zlib/deflate.c:1605-1620 | a block whose tokens, and whose raw bytes if the window still has them, mean the next stretch extends the stream |
| `Deflate.PushBlock` | mips-side/libsrc/zlib/deflate.c:1605-1620 | when a block is handed over its length is the total length of its tokens and its raw form is what they decode to |
| `Deflate.RestartHere` | mips-side/libsrc/zlib/zlib.h:313-317 | between blocks a point can be chosen from which the stream decodes without anything before it |
| `Deflate.CommonRunIsLongest` | mips-side/libsrc/zlib/deflate.c:1335-1368 | the common run is how far two strings are the same, up to a cap, and no further |
| `Deflate.Search.Follows` | mips-side/libsrc/zlib/deflate.c:1372-1374 | following a link skips no candidate, and where a link leaves the reach of the search no candidate is left |
| `Deflate.Search.OneMoreSeen` | mips-side/libsrc/zlib/deflate.c:1372-1374 | each step along the chain meets exactly the next older candidate |
| `Deflate.Search.EnoughSeen` | mips-side/libsrc/zlib/deflate.c:1372-1374 | with as many candidates met as the chain limit allows, only older ones were not looked at |
| `Deflate.DeflateState.InsertString` | mips-side/libsrc/zlib/deflate.c:182-190 | the string enters its chain, whose former head is returned, and no other position enters or leaves the dictionary |
| `Deflate.DeflateState.SlideHash` | mips-side/libsrc/zlib/deflate.c:201-225 | both tables become the slid tables, and the dictionary the positions that survive, shifted |
| `Deflate.DeflateState.ReadBuf` | mips-side/libsrc/zlib/deflate.c:1164-1189 | the next bytes of the input arrive in the window |
| `Deflate.DeflateState.SlideWindow` | mips-side/libsrc/zlib/deflate.c:1502-1524 | the upper half moves down; positions, links, match and block start keep meaning the same input |
| `Deflate.DeflateState.InsertPending` | mips-side/libsrc/zlib/deflate.c:1540-1561 | exactly the strings that had to wait for a third byte are inserted, as many as have one now |
| `Deflate.DeflateState.ZeroTail` | mips-side/libsrc/zlib/deflate.c:1569-1598 | bytes that a search may look at beyond the input are initialised |
| `Deflate.DeflateState.FillWindow` | mips-side/libsrc/zlib/deflate.c:1482-1599 | afterwards there is enough lookahead or no input left, every invariant kept, nothing lost |
| `Deflate.DeflateState.MatchRun` | mips-side/libsrc/zlib/deflate.c:1335-1360 | the length of the run found is a true common run although the third byte is not compared |
| `Deflate.DeflateState.TryCandidate` | mips-side/libsrc/zlib/deflate.c:1283-1360 | a candidate is rejected unread only if it cannot beat the best so far |
| `Deflate.DeflateState.SearchChain` | mips-side/libsrc/zlib/deflate.c:1236-1376 | every index is inside the window and initialised, the search ends, and the best is a true match with a candidate; unless it is as long as the nice length, none of as many of the newest candidates as the chain limit allows is longer |
| `Deflate.DeflateState.LongestMatch` | mips-side/libsrc/zlib/deflate.c:1236-1377 | for every level and window. Sound: a result above `prev_length` is a true match inside the lookahead with a candidate (an inserted string of the bucket strictly closer than MAX_DIST, or the head of the chain). Exhaustive: unless it has the nice length, no longer match exists among as many of the newest candidates as the chain limit allows; and the head of the chain is never missed |
| `Deflate.DeflateState.FindMatch` | mips-side/libsrc/zlib/deflate.c:1954-1961 | the match found is a true repetition in the input and, unless it has the nice length, the longest with the newest candidates |
| `Deflate.DeflateState.TallyLit` | mips-side/libsrc/zlib/deflate.h:326-332 | the literal is appended to the buffered tokens; the block is full one token early |
| `Deflate.DeflateState.TallyDist` | mips-side/libsrc/zlib/deflate.h:333-342 | the copy is appended; distance and length survive their 16 and 8 bits |
| `Deflate.DeflateState.FlushBlockOnly` | mips-side/libsrc/zlib/deflate.c:1605-1616 | all buffered tokens become one block that covers exactly `block_start` to `strstart`, with its raw bytes while the window holds them |
| `Deflate.DeflateState.SlowSearch` | mips-side/libsrc/zlib/deflate.c:1954-1983 | a match kept after the search is a true match of the current string better than the previous one |
| `Deflate.DeflateState.InsertInsideMatch` | mips-side/libsrc/zlib/deflate.c:2000-2006 | exactly the strings inside an emitted match that still have three bytes are inserted |
| `Deflate.DeflateState.EmitPrevious` | mips-side/libsrc/zlib/deflate.c:1988-2012 | exactly the copy of the previous step is put out and the position moves behind it |
| `Deflate.DeflateState.PutDeferred` | mips-side/libsrc/zlib/deflate.c:2014-2022 | the deferred byte, and nothing else, is added to the tokens, which then cover everything before the position |
| `Deflate.DeflateState.EmitLiteral` | mips-side/libsrc/zlib/deflate.c:2014-2027 | exactly the byte deferred by the previous step is put out as a literal |
| `Deflate.DeflateState.SlowStep` | mips-side/libsrc/zlib/deflate.c:1934-2034 | the rule of lazy evaluation: the previous match is put out unless the current one is longer, otherwise the previous byte |
| `Deflate.DeflateState.SettleInput` | mips-side/libsrc/zlib/deflate.c:2037-2042 | the deferred literal, if there is one, is put out, and the strings still to insert are counted |
| `Deflate.DeflateState.FinishInput` | mips-side/libsrc/zlib/deflate.c:2043-2049 | the rest of the input is flushed, as the last block exactly for Z_FINISH |
| `Deflate.DeflateState.DeflateSlow` | mips-side/libsrc/zlib/deflate.c:1926-2049 | resumable at any point; ends only with all input processed or no room |
| `Deflate.DeflateState.FastStep` | mips-side/libsrc/zlib/deflate.c:1842-1907 | one token for the current string: a literal when its chain has no head in reach, and otherwise at least as long a copy as the head of the chain gives |
| `Deflate.DeflateState.DeflateFast` | mips-side/libsrc/zlib/deflate.c:1824-1917 | as deflate_slow, without lazy evaluation |
| `Deflate.DeflateState.RunLength` | mips-side/libsrc/zlib/deflate.c:2081-2097 | the run of the previous byte from here, up to 258 |
| `Deflate.DeflateState.RleStep` | mips-side/libsrc/zlib/deflate.c:2064-2119 | one token for the current byte: a copy at distance one or a literal |
| `Deflate.DeflateState.DeflateRle` | mips-side/libsrc/zlib/deflate.c:2057-2126 | as deflate_slow, for runs |
| `Deflate.DeflateState.DeflateHuff` | mips-side/libsrc/zlib/deflate.c:2130-2163 | as deflate_slow, literals only |
| `Deflate.DeflateState.PutMarker` | mips-side/libsrc/zlib/deflate.c:1019-1026 | an empty block, and nothing else, is added, which adds no bytes to the decoded stream |
| `Deflate.DeflateState.ForgetHistory` | mips-side/libsrc/zlib/deflate.c:1027-1035 | after a full flush the dictionary is empty and the stream can be decoded from here |
| `Deflate.DeflateState.PutFlush` | mips-side/libsrc/zlib/deflate.c:1016-1044 | a completed flush leaves nothing waiting, or the output is full; only a full flush sets the point of restart |
| `Deflate.DeflateState.Begin` | mips-side/libsrc/zlib/deflate.c:768-847 | the order of checks: exactly which calls return Z_STREAM_ERROR, Z_BUF_ERROR or Z_OK before anything is compressed; otherwise nothing is pending |
| `Deflate.DeflateState.Continue` | mips-side/libsrc/zlib/deflate.c:993-1045 | the compression function of the level and strategy, the flush behind it, and when to return; a completed flush leaves nothing waiting, and a full flush sets the point of restart |
| `Deflate.DeflateState.DeflateCall` | mips-side/libsrc/zlib/deflate.c:763-1073 | exactly when which error is returned; Z_OK only with the output full or all input taken; a flush that leaves output space has put out everything, as has Z_STREAM_END |
| `Deflate.DeflateState.constructor` | mips-side/libsrc/zlib/deflate.c:240-348 | for all parameters that deflateInit2_ accepts, a window of 256 bytes for zlib included, the first state satisfies every invariant |
| `StoredStream.AnyStoredRun` | mips-side/libsrc/zlib/deflate.c:1643-1815 | level 0, any sequence of calls: blocks put out, bytes waiting in the window and unread input are the input; after a flush that leaves output space all input is in the blocks, and after Z_SYNC_FLUSH or Z_FULL_FLUSH the output alone is a stream of it; at the end the output is a zlib stream, or a raw deflate stream, of the whole input |
| `StoredStream.Stream.StreamConserves` | mips-side/libsrc/zlib/deflate.c:1643-1815 | conservation between calls, and the window keeps the last `w_size` bytes read since its last restart |
| `StoredStream.Stream.EndedDecodes` | mips-side/libsrc/zlib/deflate.c:1043-1072 | the finished output is a valid stream of the input and no shorter than stored blocks can be |
| `StoredStream.Stream.FlushedDecodes` | mips-side/libsrc/zlib/zlib.h:290-326 | after a completed flush to a byte boundary the output so far is a stream of all input so far |
| `StoredStream.BufferOverflows` | mips-side/libsrc/zlib/trees.c:211-223 | a value that crosses the end of the 16-bit buffer: the full buffer and the rest of the value are the same bits |
| `StoredStream.Stream.PutByte` | mips-side/libsrc/zlib/deflate.h:281 | the byte follows all bytes of the stream, because none of the pending ones was taken out |
| `StoredStream.Stream.PutShortMsb` | mips-side/libsrc/zlib/deflate.c:716-722 | the two bytes follow all bytes of the stream, high byte first |
| `StoredStream.Stream.SendBits` | mips-side/libsrc/zlib/trees.c:211-223 | exactly the bits of the value are added to the stream |
| `StoredStream.Stream.BiFlush` | mips-side/libsrc/zlib/trees.c:1173-1185 | whole bytes leave the bit buffer and the stream stays the same |
| `StoredStream.Stream.BiWindup` | mips-side/libsrc/zlib/trees.c:1190-1203 | zeros are added up to the byte boundary |
| `StoredStream.Stream.FlushPending` | mips-side/libsrc/zlib/deflate.c:730-750 | bytes move from the pending buffer to the output, as many as fit, and the stream stays the same |
| `StoredStream.Stream.TrStoredBlock` | mips-side/libsrc/zlib/trees.c:863-881 | a stored block of the given bytes is added to the stream |
| `StoredStream.Stream.TrAlign` | mips-side/libsrc/zlib/trees.c:896-905 | an empty static block is added to the stream |
| `StoredStream.Stream.ReadBuf` | mips-side/libsrc/zlib/deflate.c:1164-1189 | the next bytes of the input, with the Adler-32 of all input read kept up to date |
| `StoredStream.Stream.DirectHeader` | mips-side/libsrc/zlib/deflate.c:1691-1704 | the lengths written over an empty block make the header of a block of `len` bytes |
| `StoredStream.Stream.DirectData` | mips-side/libsrc/zlib/deflate.c:1706-1734 | first the bytes that wait in the window, then unread input, follow the header |
| `StoredStream.Stream.DirectBlock` | mips-side/libsrc/zlib/deflate.c:1691-1734 | a block holding exactly the next bytes of the input is added |
| `StoredStream.Stream.DirectStep` | mips-side/libsrc/zlib/deflate.c:1661-1735 | one round: when it writes, room shrinks, and when it does not, neither the header nor a worthwhile block fits; with room for everything it takes 65535 bytes, or the rest as the last block |
| `StoredStream.Stream.DirectBlocks` | mips-side/libsrc/zlib/deflate.c:1661-1735 | the loop ends; with room for everything it uses five bytes for each block and no more |
| `StoredStream.Stream.KeepHistory` | mips-side/libsrc/zlib/deflate.c:1743-1766 | on all three paths the window again ends with the last bytes read, `w_size` of them if there are |
| `StoredStream.Stream.FillRest` | mips-side/libsrc/zlib/deflate.c:1779-1797 | the window takes unread input until it is full or there is none, sliding when it must and can |
| `StoredStream.Stream.StoreToPending` | mips-side/libsrc/zlib/deflate.c:1803-1815 | a block worth writing goes to the pending buffer, which is never exceeded; afterwards the output is full, or, without a flush, all input is taken |
| `StoredStream.Stream.BlockIsAll` | mips-side/libsrc/zlib/deflate.c:1799-1811 | when no block can be put straight out, the block for the pending buffer fills the output, or without a flush holds all there is |
| `StoredStream.Stream.DeflateStored` | mips-side/libsrc/zlib/deflate.c:1643-1815 | what each return state means: need_more and finish_started come only with a full output, or without a flush and with all input taken; and progress: with room and work to do, output or input moves |
| `StoredStream.Stream.EndFlush` | mips-side/libsrc/zlib/deflate.c:1019-1041 | the marker of a completed flush adds no data; afterwards nothing is pending or the output is full, and a synchronising marker ends on a byte |
| `StoredStream.Stream.PutHeader` | mips-side/libsrc/zlib/deflate.c:814-847 | the two header bytes, and the checksum started anew |
| `StoredStream.Stream.HeaderOut` | mips-side/libsrc/zlib/deflate.c:814-847 | as much of the two header bytes as the output has room for |
| `StoredStream.Stream.Begin` | mips-side/libsrc/zlib/deflate.c:768-847 | the order of checks: exactly which calls return Z_STREAM_ERROR, Z_BUF_ERROR or Z_OK before anything is stored, and exactly when an error follows pending output; otherwise nothing is pending, so nothing pending can be overwritten |
| `StoredStream.Stream.PutTrailer` | mips-side/libsrc/zlib/deflate.c:1047-1072 | the checksum of the whole input follows the last block |
| `StoredStream.Stream.DeflateCall` | mips-side/libsrc/zlib/deflate.c:763-1073 | Z_OK only with the output full or all input taken, and with input, or with a flush other than Z_NO_FLUSH and Z_BLOCK, only after some progress; a flush that leaves output space has put out everything; exactly when which error is returned; errors add nothing to the stream and take no input, but bytes that were pending go out first exactly when there are some, there is room, and the error is not Z_STREAM_ERROR; with room for the stored size one call completes the stream in exactly that size |
| `Zlib.ErrorBehindOutput` | mips-side/libsrc/zlib/deflate.c:787-812 | a call that puts out a pending byte and then returns Z_BUF_ERROR |
| `StoredStream.Stream.constructor` | mips-side/libsrc/zlib/deflate.c:240-348 | for all parameters that deflateInit2_ accepts at level 0 without gzip wrapper, the first state satisfies every invariant |
| `StoredStream.HeaderIsValid` | mips-side/libsrc/zlib/deflate.c:816-835 | for every window size the header names method 8 and that size, no dictionary, and passes the check of section 2.2 of RFC 1950 |
| `Rfc1951.StoredReads` | mips-side/libsrc/zlib/trees.c:863-881 | the bits of a stored block are read back as its bytes (section 3.2.4 of RFC 1951) |
| `Rfc1951.InflateAppends` | mips-side/libsrc/zlib/trees.c:863-905 | blocks added at the end of an unfinished stream are read after those already there |
| `Rfc1951.EndedStable` | mips-side/libsrc/zlib/deflate.c:1047-1072 | what follows the last block does not change what the stream means |
| `Rfc1951.AddStored` | mips-side/libsrc/zlib/trees.c:863-881 | a stored block adds its bytes, and ends the stream when it is marked last |
| `Rfc1951.AddMarker` | mips-side/libsrc/zlib/trees.c:896-905 | the empty static block adds nothing and ends nothing |
| `Compress.BoundSuffices` | mips-side/libsrc/zlib/compress.c:81-86 | the 32-bit bound is enough for level 0 exactly when its sum does not overflow |
| `Compress.BoundTooSmall` | mips-side/libsrc/zlib/compress.c:81-86 | for the longest source the 32-bit bound is about a million |
| `Compress.Round` | mips-side/libsrc/zlib/compress.c:45-60 | one round of the loop: with room for the stored size it is the only one, otherwise output space shrinks until the buffer error |
| `Compress.Compress2Stored` | mips-side/libsrc/zlib/compress.c:22-65 | at level 0 compress2 returns Z_OK exactly when the destination holds the stored size, then the destination is a zlib stream of the source of exactly that size; otherwise Z_BUF_ERROR; it never exceeds the destination and always returns |
| `Compress.CompressWithinBound` | mips-side/libsrc/zlib/compress.c:71-86 | with the room that compressBound asks for, and no overflow in it, compress2 at level 0 cannot fail |
| `Crc32.CrcConcat` | mips-side/libsrc/zlib/crc32.c:202-234 | running on is the same as starting over with the concatenation |
| `Crc32.RegisterPacked` | mips-side/libsrc/zlib/crc32.c:109-114 | n bits of input can be added to the register at once and then shifted through |
| `Crc32.BurstDetected` | mips-side/libsrc/zlib/crc32.c:109-114 | two messages that differ only in a stretch of at most 32 bits have the same register exactly when the stretches are the same |
| `Crc32.FourBytesDetected` | mips-side/libsrc/zlib/crc32.c:260-297 | changing any run of at most four bytes always changes the checksum, and only that does |
| `Gf2.StepsAdd` | mips-side/libsrc/zlib/crc32.c:88-131 | shifting is linear over exclusive or |
| `Gf2.OperatorApplies` | mips-side/libsrc/zlib/crc32.c:344-358 | a matrix with the right columns is the operator for all vectors |
| `Crc32Tables.MakeCrcTable` | mips-side/libsrc/zlib/crc32.c:88-131 | table k is table 0 followed by k zero bytes, tables 4-7 are the byte-swapped ones, and the polynomial is built from its terms |
| `Crc32Tables.Crc32Bytewise` | mips-side/libsrc/zlib/crc32.c:202-234 | the byte-at-a-time form is the bit-at-a-time register |
| `Crc32Tables.DoLit4` | mips-side/libsrc/zlib/crc32.c:260-262 | one step over four tables is four byte steps, little-endian |
| `Crc32Tables.DoBig4` | mips-side/libsrc/zlib/crc32.c:300-302 | the same over the swapped tables, big-endian |
| `Crc32Tables.Crc32Little` | mips-side/libsrc/zlib/crc32.c:266-297 | the sliced form is the register for every length, start value and alignment |
| `Crc32Tables.Crc32Big` | mips-side/libsrc/zlib/crc32.c:306-337 | so is its byte-swapped conjugate |
| `Crc32Tables.Crc32Z` | mips-side/libsrc/zlib/crc32.c:202-234 | both byte orders give the checksum of the register |
| `Crc32Combine.MatrixTimes` | mips-side/libsrc/zlib/crc32.c:344-358 | the product of matrix and vector over GF(2) |
| `Crc32Combine.MatrixSquare` | mips-side/libsrc/zlib/crc32.c:361-369 | the square of the operator for n zero bits is the operator for 2n |
| `Crc32Combine.OneZeroBit` | mips-side/libsrc/zlib/crc32.c:386-393 | the matrix set up first is the operator for one zero bit |
| `Crc32Combine.Crc32CombineZeros` | mips-side/libsrc/zlib/crc32.c:372-425 | the loop applies exactly the operator for `len2` zero bytes |
| `Crc32Combine.CrcOfConcatenation` | mips-side/libsrc/zlib/crc32.c:372-425 | the checksum of a concatenation from the checksums of its parts |
| `Crc32Combine.Crc32CombineMessages` | mips-side/libsrc/zlib/crc32.c:372-442 | crc32_combine of the checksums of two messages is the checksum of their concatenation |
| `Adler32.DeferredReduction` | mips-side/libsrc/zlib/adler32.c:63-131 | reducing once at the end is the same as reducing after every byte, as section 8.2 of RFC 1950 does |
| `Adler32.Mod28` | mips-side/libsrc/zlib/adler32.c:40-47 | the division-free form is the remainder for every value below 2^28 |
| `Adler32.Mod` | mips-side/libsrc/zlib/adler32.c:32-38 | the division-free form is the remainder for every value below 2^32 |
| `Adler32.Mod63IsMod` | mips-side/libsrc/zlib/adler32.c:48-55 | the three folds of MOD63 leave one subtraction for every non-negative 64-bit value |
| `Adler32.NmaxIsLargest` | mips-side/libsrc/zlib/adler32.c:12-14 | from reduced values the second accumulator can leave 32 bits exactly when a run is longer than 5552 bytes |
| `Adler32.FullSums` | mips-side/libsrc/zlib/adler32.c:12-14 | both sums of a run of bytes of 255 |
| `Adler32.BlockFits` | mips-side/libsrc/zlib/adler32.c:96-110 | within a run of NMAX bytes neither accumulator leaves 32 bits, from any 16-bit halves |
| `Adler32.StartReduced` | mips-side/libsrc/zlib/adler32.c:96-131 | reducing the start of a run does not change the result |
| `Adler32.SumsContinue` | mips-side/libsrc/zlib/adler32.c:96-131 | a run can be continued from reduced sums |
| `Adler32.DoBytes` | mips-side/libsrc/zlib/adler32.c:16-20 | the accumulators are the two sums |
| `Adler32.DoSixteens` | mips-side/libsrc/zlib/adler32.c:16-20 | so they are sixteen bytes at a time |
| `Adler32.ReducedRun` | mips-side/libsrc/zlib/adler32.c:96-128 | a run of at most NMAX bytes, unrolled and then one by one, with the reductions behind it |
| `Adler32.LongSums` | mips-side/libsrc/zlib/adler32.c:96-131 | both sums over any length, reduced |
| `Adler32.ShortSums` | mips-side/libsrc/zlib/adler32.c:86-95 | one subtraction is enough for the first sum of fewer than sixteen bytes |
| `Adler32.OneByteSum` | mips-side/libsrc/zlib/adler32.c:72-81 | the one-byte path is right exactly when its second sum needs at most one subtraction |
| `Adler32.OneByteUnreduced` | mips-side/libsrc/zlib/adler32.c:72-81 | a start for which the one-byte path is wrong |
| `Adler32.Adler32Z` | mips-side/libsrc/zlib/adler32.c:63-131 | the checksum is that of section 8.2 of RFC 1950 for every length and start, with the exact condition for the one-byte path |
| `Adler32.SumsOfConcatenation` | mips-side/libsrc/zlib/adler32.c:143-169 | the sums of a concatenation in closed form |
| `Adler32.Adler32Combine` | mips-side/libsrc/zlib/adler32.c:143-169 | for all checksums every intermediate fits in 32 bits, and the conditional subtractions suffice exactly for combinable halves |
| `Adler32.ReducedCombine` | mips-side/libsrc/zlib/adler32.c:143-169 | reduced halves are always combinable |
| `Adler32.UnreducedCombine` | mips-side/libsrc/zlib/adler32.c:143-169 | two checksums that are not |
| `Adler32.Adler32CombineMessages` | mips-side/libsrc/zlib/adler32.c:143-186 | adler32_combine of the checksums of two messages is the checksum of their concatenation |
| `GzRead.AnyGzRun` | mips-side/libsrc/zlib/gzread.c:21-604 | any sensible sequence of reads, gets, pushes, seeks (past the end too), rewinds and tells gives what it gives on a plain cursor with push-back, however read(2) slices the file; a run can fail only by an error of read(2) or by a push-back without room, and then gives the same up to there |
| `GzRead.Perform` | mips-side/libsrc/zlib/gzread.c:375-604 | each operation acts as on the plain cursor, and fails only by an error of read(2) or a push-back without room |
| `GzRead.GzFile.RoomMeans` | mips-side/libsrc/zlib/zlib.h:1519-1529 | one byte can always be pushed back when none is outstanding, and a whole output buffer of them while nothing was read since the start |
| `GzRead.LineIsLongest` | mips-side/libsrc/zlib/gzread.c:543-604 | what a line is: no newline before its end, and it stops early only at a newline or at the end |
| `GzRead.LineSplits` | mips-side/libsrc/zlib/gzread.c:577-598 | bytes without a newline start the line, and the rest of it follows them |
| `GzRead.AdvanceDrops` | mips-side/libsrc/zlib/gzread.c:294-372 | advancing the cursor drops what was delivered |
| `GzRead.GzFile.GzLoad` | mips-side/libsrc/zlib/gzread.c:21-46 | all bytes asked for or all there are, in order, whatever the short counts; `eof` only at the end |
| `GzRead.GzFile.GzAvail` | mips-side/libsrc/zlib/gzread.c:56-79 | the input buffer holds the last bytes read |
| `GzRead.GzFile.GzLook` | mips-side/libsrc/zlib/gzread.c:91-168 | on a file without gzip magic copying starts, losing nothing, unless the file is empty |
| `GzRead.GzFile.GzFetch` | mips-side/libsrc/zlib/gzread.c:229-256 | data in the output buffer or the end of the file; nothing lost |
| `GzRead.GzFile.GzSkip` | mips-side/libsrc/zlib/gzread.c:259-289 | exactly `len` bytes are passed over, or all there are |
| `GzRead.GzFile.Settle` | mips-side/libsrc/zlib/gzread.c:308-312 | a pending seek is carried out; past the end it stops at the end |
| `GzRead.GzFile.ReadLoop` | mips-side/libsrc/zlib/gzread.c:315-368 | as many bytes as asked for or there are, in order; room for a push-back is left |
| `GzRead.GzFile.Gzread` | mips-side/libsrc/zlib/gzread.c:375-408 | as on the plain cursor; -1 exactly on an error of read(2) or a request beyond INT_MAX, and after one |
| `GzRead.GzFile.Gzgetc` | mips-side/libsrc/zlib/gzread.c:447-474 | as on the plain cursor |
| `GzRead.GzFile.Gzungetc` | mips-side/libsrc/zlib/gzread.c:483-540 | as on the plain cursor; it fails exactly on an error of read(2) while a seek is carried out, or when a byte is pushed to a full output buffer and no seek waits |
| `GzRead.GzFile.Gzgets` | mips-side/libsrc/zlib/gzread.c:543-604 | the line of the plain cursor, terminated by a zero |
| `GzRead.GzFile.Gzseek` | mips-side/libsrc/zlib/gzlib.c:366-440 | as on the plain cursor for targets in the file or beyond; for targets before the start exactly what happens instead |
| `GzRead.SeekAmongPushed` | mips-side/libsrc/zlib/gzlib.c:366-440 | a seek that returns a negative position although it moved |
| `GzRead.SeekForgotten` | mips-side/libsrc/zlib/gzlib.c:366-440 | a seek that fails and forgets the one that waits |
| `GzRead.SeekPastEnd` | mips-side/libsrc/zlib/gzread.c:308-312 | a seek past the end that waits ends at the end of the file, one made while copying does not |
| `GzRead.GzFile.Gzrewind` | mips-side/libsrc/zlib/gzlib.c:343-363 | back to the start |
| `GzRead.GzFile.Gztell` | mips-side/libsrc/zlib/gzlib.c:455-469 | the position of the plain cursor |
| `GzRead.GzFile.constructor` | mips-side/libsrc/zlib/gzlib.c:75-88 | the state of a newly opened file |
| `AudioLink.AnyInterleaving` | arm-side/arm9/source/main.c:190-262 | every interleaving of the application, the command handler, the main loop and the sound interrupt: the overrun error is never met, and what was played of a stream is what was submitted to it, in order; what was submitted is what was played, then the ring of the ARM9, the packet under way and what is not sent yet |
| `AudioLink.Link.StreamIsFaithful` | arm-side/arm9/source/audio.c:57-101 | samples played, in the ring of the ARM9, under way and unsent are, in this order, those submitted; acknowledged, in flight and due counts add up to the number played; a count that is due is pending |
| `AudioLink.Link.Submit` | mips-side/libsrc/libds2/ds2_ds/audio.c:58-107 | the samples accepted are those that will be played |
| `AudioLink.Link.Start` | mips-side/libsrc/libds2/ds2_ds/requests.c:66-113 | a new stream begins empty |
| `AudioLink.Link.Stop` | mips-side/libsrc/libds2/ds2_ds/requests.c:115-136 | a stream that is on is asked to stop, and nothing of it is sent any more |
| `AudioLink.Link.TakePending` | arm-side/arm9/source/main.c:190-230 | taking a count and clearing it keeps every sample accounted for |
| `AudioLink.Link.Deliver` | mips-side/libsrc/libds2/ds2_ds/card_protocol.c:207-223 | the Supercard's count catches up; a status never meets the wrong stream |
| `AudioLink.Link.FetchAudio` | mips-side/libsrc/libds2/ds2_ds/audio.c:43-51 | the first unsent samples leave the Supercard as a packet, and no others |
| `AudioLink.Link.FetchRequests` | mips-side/libsrc/libds2/ds2_ds/requests.c:177-188 | the requests leave the Supercard and are cleared there |
| `AudioLink.Link.StorePacket` | arm-side/arm9/source/audio_encoding_0.c:28-60 | the packet always fits |
| `AudioLink.Link.CarryOutRequests` | arm-side/arm9/source/requests.c:33-46 | a stream is on afterwards exactly when a start was requested or one was on that was not to stop; a new one begins with an empty ring |
| `AudioLink.Link.SoundInterrupt` | arm-side/arm9/source/audio.c:57-101 | the hardware gets the next samples of the stream, and silence only when none is there |
| `AudioRing.Receiver.AudioUpdate` | arm-side/arm9/source/audio.c:57-101 | the first samples of the ring, then silence; the ring loses exactly those, the count grows by them, and the notice is pending |
| `AudioRing.Receiver.AudioEncoding0` | arm-side/arm9/source/audio_encoding_0.c:43-59 | refused exactly when the samples do not fit; otherwise they extend the ring, around its end too |
| `AudioRing.LowestIsLowest` | arm-side/arm9/source/main.c:50-56 | the bit taken is set, is a single bit, and no lower one is set |
| `AudioRing.RemovedLeaves` | arm-side/arm9/source/main.c:45-56 | the bits that stay and the bit taken make up what was pending |
| `AudioRing.TakenIs` | arm-side/arm9/source/main.c:50-56 | the lowest bit is taken and the others stay |
| `AudioRing.Receiver.AudioStart` | arm-side/arm9/source/audio.c:103-143 | an empty ring with one spare slot, and the status is due if it was asked for |
| `AudioRing.Receiver.AudioStop` | arm-side/arm9/source/audio.c:145-161 | no count is due any more, and the status is if it was asked for |
| `AudioRing.Sender.GetFreeAudioSamples` | mips-side/libsrc/libds2/ds2_ds/audio.c:31-41 | exactly the room that is left, in every status; it is 0 exactly when the unplayed samples of the last stream fill its buffer, and the largest 32-bit number before the first stream |
| `AudioRing.FreeBeforeFirstStream` | mips-side/libsrc/libds2/ds2_ds/audio.c:31-41 | before the first stream the result is not 0 as documented |
| `AudioRing.FreeAfterStop` | mips-side/libsrc/libds2/ds2_ds/audio.c:31-41 | nor is it after a stream was stopped |
| `AudioRing.Sender.SubmitRound` | mips-side/libsrc/libds2/ds2_ds/audio.c:76-103 | some samples are accepted exactly when there are some and there is room; the gap of one slot is kept |
| `AudioRing.Sender.EncodePacket` | mips-side/libsrc/libds2/ds2_ds/audio_encoding_0.c:26-60 | the packet is the first samples that were not sent, around the end of the buffer too |
| `AudioRing.Sender.AudioDequeue` | mips-side/libsrc/libds2/ds2_ds/audio.c:43-51 | the packet leaves the unsent samples, and more is pending exactly while some are left |
| `AudioRing.Sender.AudioConsumed` | mips-side/libsrc/libds2/ds2_ds/audio.c:53-56 | exactly the samples reported are freed |
| `AudioRing.Sender.StartAudio` | mips-side/libsrc/libds2/ds2_ds/requests.c:66-113 | an empty ring, and the request is pending |
| `AudioRing.Sender.StopAudio` | mips-side/libsrc/libds2/ds2_ds/requests.c:115-136 | nothing is sent any more, and the request is pending |
| `AudioRing.RingGrows` | arm-side/arm9/source/audio_encoding_0.c:53-58 | samples copied behind the end of a ring extend it, around the end of the buffer too |
| `AudioRing.RingDrops` | arm-side/arm9/source/audio.c:90-91 | moving the start of a ring drops samples from its front |
| `ClockSpeed.ClockRegisters.SetClockSpeed` | mips-side/libsrc/libds2/pm.c:53-148 | the clocks are at most those asked for; a division by zero occurs exactly for requests out of scale; the PLL is in range exactly for sound requests; the registers hold what was chosen |
| `ClockSpeed.Choose` | mips-side/libsrc/libds2/pm.c:55-127 | the dividers are the smallest allowed ones, their ratio a whole number below 24, the clocks at most those asked for, and EINVAL is returned exactly when none is allowed |
| `ClockSpeed.BothFastChosen` | mips-side/libsrc/libds2/pm.c:119-127 | when both clocks asked for are fast, the PLL is set to twice the lower one |
| `ClockSpeed.DoubledFits` | mips-side/libsrc/libds2/pm.c:119-132 | then the clocks are at most those asked for, and exactly which requests leave the range of the PLL, of the memory timing and of 32 bits |
| `ClockSpeed.PllTooFast` | mips-side/libsrc/libds2/pm.c:119-127 | for both clocks at 300 MHz the PLL is set to 600 MHz |
| `ClockSpeed.MemoryTooFast` | mips-side/libsrc/libds2/pm.c:41-51 | for both clocks at 1010 MHz the memory would run at 1008 MHz, for which the refresh computation divides by zero |
| `ClockSpeed.SoundBelow252MHz` | mips-side/libsrc/libds2/pm.c:119-127 | below 2^31 Hz a request is sound exactly when not both clocks are fast or the lower one is below 252 MHz |
| `ClockSpeed.PllTarget` | mips-side/libsrc/libds2/pm.c:66-83 | the PLL clock aimed at is within its limits and some divider brings it down to the CPU clock |
| `ClockSpeed.ChooseDividers` | mips-side/libsrc/libds2/pm.c:91-110 | the first divider for the CPU and the first allowed one for the memory, or none exactly when none is allowed |
| `ClockSpeed.FindDivider` | mips-side/libsrc/libds2/pm.c:91-94 | the smallest divider that suffices |
| `ClockSpeed.FindMultiple` | mips-side/libsrc/libds2/pm.c:100-101 | the smallest divider that suffices and is a multiple of the CPU's |
| `ClockSpeed.ClockRegisters.SdramConvert` | mips-side/libsrc/libds2/pm.c:41-51 | the refresh counter stays between 1 and 255, and a division by zero happens exactly for clocks of 0 or above 1 GHz |
| `ClockSpeed.PllReadBack` | mips-side/libsrc/libds2/pm.c:134-136 | the multiplier and divider written are read back and the other fields stay |
| `ClockSpeed.DividersReadBack` | mips-side/libsrc/libds2/pm.c:138-144 | the dividers written are read back |
| `ClockSpeed.SetThenGet` | mips-side/libsrc/libds2/pm.c:53-186 | with the PLL on and its output divider off, the clocks read back are those reported as achieved, exactly for the requests whose PLL clock fits in 32 bits before the division and whose multiplier is at least 2 |
| `ClockSpeed.ReadBackIsExact` | mips-side/libsrc/libds2/pm.c:134-186 | what DS2_GetClockSpeed computes from the multiplier and dividers written, against what was reported |
| `ClockSpeed.StandardSpeed` | mips-side/libsrc/libds2/pm.c:150-166 | the three documented speeds are reached exactly |
| `GzipHeader.AnySchedule` | mips-side/libsrc/zlib/deflate.c:849-991 | whatever the calls and however they cut the output space, what comes out is the start of the header of section 2.3 of RFC 1952, as long as the room of all calls from the first one that is not refused allows |
| `GzipHeader.Writer.Call` | mips-side/libsrc/zlib/deflate.c:763-991 | a call that deflate refuses puts out nothing; any other puts out exactly what fits of the rest of the header, nothing repeated or skipped |
| `GzipHeader.Writer.Refused` | mips-side/libsrc/zlib/deflate.c:785-812 | until the header is out, exactly the calls without room and the first calls without input and flush are refused |
| `GzipHeader.Writer.WriteHeader` | mips-side/libsrc/zlib/deflate.c:849-991 | the states from the one that was reached to the end of the header, or to a full output |
| `GzipHeader.Writer.PutFixed` | mips-side/libsrc/zlib/deflate.c:851-898 | the fixed fields and the length of the extra field |
| `GzipHeader.Writer.ExtraPart` | mips-side/libsrc/zlib/deflate.c:900-926 | the extra field, through a pending buffer smaller than it |
| `GzipHeader.Writer.StringPart` | mips-side/libsrc/zlib/deflate.c:927-969 | a string and its zero byte, resumable at any byte |
| `GzipHeader.Writer.HcrcPart` | mips-side/libsrc/zlib/deflate.c:970-990 | the low 16 bits of the CRC-32 of all header bytes before it |
| `GzipHeader.Writer.HcrcUpdate` | mips-side/libsrc/zlib/deflate.c:755-760 | the running checksum covers exactly the bytes put so far |
| `GzipParse.HeaderRoundTrip` | mips-side/libsrc/zlib/deflate.c:849-991 | a reader of section 2.3 of RFC 1952 gets back the header record, with the extra field cut to 16 bits of length |

## Left out

- The Huffman coder of `trees.c` and all of inflate: `_tr_flush_block` takes the whole token buffer and puts out an arbitrary number of bytes; its frequency counts are not kept.
- Levels 1 to 9 down to the bytes: `Deflate.DeflateState.FlushPending` counts pending bytes only, and the gzip and zlib headers and trailers of those levels are counted, not written; `StoredStream` and `GzipHeader` write them.
- `Deflate.DeflateState.ReadBuf`: the running checksum and total of the source are kept only in `StoredStream`.
- `deflateParams`, `deflateTune`, `deflatePrime`, `deflateCopy`, `deflateSetDictionary` and changes between level 0 and other levels; the preset-dictionary branch of the zlib header with them. The overlay of the pending buffer with the token buffers.
- The wrap-around of `total_in` and `total_out`, and of `left + avail_in` in `deflate_stored`, which cannot happen while both buffers lie in one 32-bit address space.
- Levels other than 0 in `Compress.Compress2Stored`; allocation failure everywhere.
- `Deflate.DeflateState.FillWindow`: its loop is one round, since one round is proved to be enough.
- `GzRead.GzFile.GzFetch`: its loop is one round and the gzip branch is absent; decompression, writing, file opening, gzbuffer after allocation, error texts, gzclearerr and gzdirect are not modelled.
- `GzRead.GzFile.Gzungetc`: not before the buffers exist, where the source writes through a null pointer.
- `GzRead.GzFile.Gzseek`: file offsets do not wrap at the width of `z_off64_t`, and lseek(2) succeeds.
- `GzRead.AnyGzRun`: seeks to a place before the start that forget a waiting seek or move among pushed-back bytes, which only `Gzseek` describes, and push-backs before the first read.
- `AudioRing.Receiver.AudioEncoding0`: samples are kept whole, so the check that a packet holds a whole number of them, and the copy of the bytes over the card bus, are absent; ring buffers are sequences.
- The waiting loops of DS2_StartAudio, DS2_StopAudio and DS2_SubmitAudio are steps that are possible only in the right state; other requests, video, input and the reset path of the ARM9 main loop are other notifications at most.
- The wait for the PLL in DS2_SetClockSpeed, usleep and sleep; the fields of the clock registers are digits of their value.
- `ClockSpeed.ClockRegisters.GetClockSpeed`: divider fields beyond the table, for which the source reads out of bounds.
- `AudioLink.Link.constructor`: the Supercard asks for status notices from the start, as its library does in the first exchange, which is not modelled.
- `StoredStream.Stream.constructor`: not with the gzip wrapper.
- `GzipHeader.Writer.Call`: ends where compression starts, and the gzip trailer is not written.
- UNALIGNED_OK, ASMV, FASTEST and 16-bit variants, DYNAMIC_CRC_TABLE locking, the generated `crc32.h`, debug tracing.
