# LZ4, verified

A model in Dafny of the LZ4 library that is vendored under `openvpn/src/main/cpp/lz4`, with proofs
that what goes into it comes out again. Memory is one array of bytes and a pointer is an index
into it, so that contiguity, overlap, copies that write too much and buffers that callers reuse
are all visible; streams and contexts are classes with the fields of the original structs. The
loops and branches of the modelled functions have their counterparts, but for what is listed at
the end. `dfyconfig.toml` names all files, so that `dafny verify dfyconfig.toml` checks the
project.

| files | what they model |
|---|---|
| `BlockFormat`, `Encoding` | the block format: a byte-at-a-time reference decoder, an encoder, their round trip |
| `Memory`, `MatchCopy`, `MatchCount`, `SequenceWriter`, `Emitter` | copying, counting and writing in place; the worst-case bound |
| `FastDecoder` | `LZ4_decompress_generic`, refining the reference decoder |
| `FastSearch`, `FastCompressor`, `DestSize`, `BlockApi` | `LZ4_compress_generic`, the destSize variant, the one-shot functions |
| `Streaming`, `StreamRuns`, `RingBuffer` | both stream objects, whole runs of both ends, the ring buffer examples |
| `HcSearch`, `HcCompressor`, `HcOptimal`, `HcStream` | the HC match finder, the lazy and the optimal parser, the HC stream |
| `FrameFormat`, `FrameHistory`, `FrameDecoder`, `FrameReading`, `FrameLimits` | the frame format as a reader of bytes, the resumable decoder that refines it, and where its history ends |
| `BlockStream`, `FrameBlocks`, `FramePlan`, `FrameCompressor`, `FrameRoundTrip` | the frame compressor, the plan of its blocks, the round trip |
| `XxHash`, `SparseFile` | streaming hashes, the sparse-file writer |

A block is *faithful* to a source behind a history if it is a legal encoding, within the parsing
restrictions and with all offsets in 1..65535, that the reference decoder turns into the source;
the decoder results say that such a block cannot be refused.

## Findings

Paths are relative to `openvpn/src/main/cpp/lz4`.

Four situations in which the code does not give back what it was given. The conditions `Works`,
`Sure`, `Reliable`, `Savable` and `SmallRooms` speak of preferences, sizes, room and positions only,
and each has its converse: a witness for every violation of the first three (with room for the
source less one byte in `Sure`), a call that runs away for every violation of `Savable`, and a frame
for every room that is not small.

- **Acceleration a positive multiple of 2^26** (`lib/lz4.c:595`). The search counter is computed in
  32 bits and starts at 0, the search does not advance, and a position is found as a match of
  itself; the offset 0 decodes to zeros. Every source size above 13 is affected
  (`BlockApi.GoesWrong`, `StreamRuns.GoesWrong`). The frame compressor reaches it through negative
  levels (`lib/lz4frame.c:656`, `:666`).
- **An external dictionary of one to three bytes that are all the stream has seen**
  (`lib/lz4.c:605-618`). Index 0 of an unused table entry passes for a position in that
  dictionary, and the four bytes compared run over its end. Sources of more than 13 bytes are affected
  (`StreamRuns.GoesWrong`); when the result has to be smaller than the source, as in a frame, those
  of more than 16, because the mistake leaves a shorter one as large as it was. A frame is affected
  when blocks are linked, the level is below 3, and the first block that is made straight from the
  caller's buffer after one to three bytes have gone before has more than 16 bytes
  (`FrameRoundTrip.GoesWrong`).
- **History of 2 GB and more in the frame decoder** (`lib/lz4frame.c:1457`, `:1492`). The size of the
  history is converted to int. With linked blocks, a call that has delivered 2^31 bytes or more goes
  on to decode behind something else: a size that has become negative makes
  `LZ4_decompress_safe_usingDict` look for history 4 GB before its end, with no offset checked;
  from 2^32 on the size is small again, and the history looked at lies at the wrong end. No call
  that is given room for 2^31 bytes or less is affected unless output stays in place
  (`FrameReading.DecodeInPieces`), and with more room some frame always is (`FrameLimits.LongCall`).
- **History of 2 GB and more in the HC stream** (`lib/lz4hc.c:818`). `LZ4_saveDictHC` keeps the size
  of the prefix in an int. A prefix of 2^31 bytes or more makes it negative, and the size of the copy
  huge. A frame of linked blocks on level 3 and above gets there in one update without `stableSrc`.
  The prefix starts over when indices exceed 2 GB, so that not all large updates are affected:
  `FrameRoundTrip.Savable` is exact for every sequence of updates and flushes. Updates below 2^31
  bytes never are (`SmallUpdatesSave`), a first one of exactly 2^31 bytes always is
  (`TwoGigabytesRunAway`).

As far as the last two limits are kept, a frame comes back for all data exactly when each of its
blocks is made at level 3 or above, or has at most 13 bytes, or is made with an acceleration that
works and is not the block of the second situation.

Other places where the code says more, or less, than its documentation:

- Offset 0, which the format calls invalid, is accepted and decodes to zeros
  (`lib/lz4.c:1266`); the reference decoder says the same.
- The shortcut of the decoder accepts blocks outside the parsing restrictions that the careful
  path refuses (`lib/lz4.c:1217-1229`). Such blocks are still decoded as the reference does; only
  for those within the restrictions is it certain which answer comes.
- `LZ4F_flush` looks for room for size field and data but not for a block checksum
  (`lib/lz4frame.c:826`), and `LZ4F_compressEnd` does not look for room for the end mark at all: it
  writes beyond the room just when its result, which is exact in `FrameCompressor.End`, is more
  than the room. With the room `LZ4F_compressBound` asks for that does not happen.
- `LZ4F_compressBound` without preferences does not allow for block checksums
  (`lib/lz4frame.c:281-283`); the bounds here are for the same preferences on both sides.
- `LZ4F_resetDecompressionContext` leaves `frameRemainingSize` (`lib/lz4frame.c:957-962`); the frame
  results start from a context that is new or has finished a frame.
- `LZ4_compress_destSize` may leave room unused although source is left
  (`lib/lz4.c:931-932`): at most `DestSize.Slack`, which is nothing in a room of up to fifteen
  bytes, one byte up to some 64 KB, and one more for each further 64 KB.
- The ring buffer example gives the decoder `MESSAGE_MAX_BYTES` of room whatever the message
  takes. Within that room the decoder may write past the message; that what later blocks refer to
  survives this is proved for blocks made behind at most 8192 bytes of history
  (`RingBuffer.TestDecompress`).

## Model

| member | source | states |
|---|---|---|
| `FrameRoundTrip.RoundTrip` | openvpn/src/main/cpp/lz4/lib/lz4frame.c:499-1654 | The frame round trip: for all preferences (levels, block sizes, linked or independent, checksums, a right content size) and any sequence of updates and flushes whose blocks can all be relied on, a decoding caller that offers the frame in any pieces with any room never fails, only ever gets a prefix of the content, and has all of it when told the frame is over; and if it is also `Manageable` (blocks are not linked, or there are less than 2 GB of content, or no call is given room for more than 2 GB), it is told so once it has offered enough. Compression gets to its end when there is room and the calls are `Savable`. All three conditions look at preferences, sizes and room only. Both callers overwrite their buffers between calls. |
| `FrameRoundTrip.GoesWrong` | openvpn/src/main/cpp/lz4/lib/lz4frame.c:632-773 | The converse, for every shape of calls that is not `Reliable`: the same calls with other data of the same sizes make a frame from which no reader gets that data. Together with `RoundTrip` this makes `Reliable` the exact condition for the blocks to say their data. |
| `FrameRoundTrip.CompressAll` | openvpn/src/main/cpp/lz4/lib/lz4frame.c:713-885 | With the room `LZ4F_compressBound` asks for, whatever is flushed and however content is cut, begin, updates, flushes and end do not fail if the calls are `Savable`, unless an announced content size is wrong; if they are not `Savable`, they never get to their end. The result is byte for byte a frame of the format whose blocks hold the content. |
| `FrameRoundTrip.SmallUpdatesSave` | openvpn/src/main/cpp/lz4/lib/lz4frame.c:775-782 | Calls whose updates are below 2 GB each are always `Savable`, in any number and for all preferences: between two updates no more than 64 KB of history stay. |
| `FrameRoundTrip.TwoGigabytesRunAway` | openvpn/src/main/cpp/lz4/lib/lz4frame.c:697-702 | A first update of exactly 2 GB into linked blocks of any size on an HC level is not: the history to be saved then has a size that is no int. |
| `FrameReading.DecodeInPieces` | openvpn/src/main/cpp/lz4/lib/lz4frame.c:1216-1654 | Whatever pieces of a frame in order are offered with whatever room, no call fails, what was delivered is a prefix of the content, the end is announced only with the last byte, and then everything has been delivered; a call goes astray only if it is given room for more than 2 GB, the blocks are linked and the content has 2 GB or more; if none does, the end is announced when the last byte has been read, and enough offers get there. |
| `FrameLimits.LongCall` | openvpn/src/main/cpp/lz4/lib/lz4frame.c:1451-1460 | The converse for the room: with any room above 2 GB in one call, a certain frame of linked blocks in order leads the call astray, all zeros so far; the block it has come to, decoded with the size of its history as an int, gives bytes that stand 4 GB before, instead of the zeros it stands for. |
| `FrameLimits.TooDeep` | openvpn/src/main/cpp/lz4/lib/lz4frame.c:1216-1654 | Why there is no way around it: of that frame no reader can know more than 2 GB without having decompressed the block that lies behind 2 GB of linked content. |
| `BlockApi.DecompressSafeUsingNegative` | openvpn/src/main/cpp/lz4/lib/lz4.c:1468-1478 | What `LZ4_decompress_safe_usingDict` makes of a negative dictionary size: it decodes behind the 64 KB that end that much before the start of the dictionary, with no offset refused. |
| `StreamRuns.Run` | openvpn/src/main/cpp/lz4/lib/lz4.c:1066-1155 | Streaming over whole runs: from two new streams on, through any sequence of loading a dictionary, saving it elsewhere, overwriting memory neither end needs, and messages placed anywhere (in front, apart, over part of the dictionary), every message comes back as it was sent, and the decoder keeps tracking the encoder's dictionary; a run stops only at an operation that was visibly not allowed. |
| `StreamRuns.GoesWrong` | openvpn/src/main/cpp/lz4/lib/lz4.c:1066-1110 | The converse of the condition on size, room and acceleration in `Run`: for each combination that is not sure, with room for at least the source less one byte, a new stream that has seen `k` bytes (1 to 3 of them where the dictionary is to blame) makes of some source a block that nobody with those `k` bytes, or more, decodes to the source. |
| `RingBuffer.EndToEnd` | openvpn/src/main/cpp/lz4/examples/blockStreaming_ringBuffer.c:48-111 | Both drivers of the unsynchronised ring buffers composed, over the fast or the HC stream: any sequence of messages of 1 to `MESSAGE_MAX_BYTES` bytes comes out as it went in. |
| `BlockApi.RoundTrip` | openvpn/src/main/cpp/lz4/lib/lz4.c:736-753 | The block round trip: for every source up to `LZ4_MAX_INPUT_SIZE` and every acceleration that is no positive multiple of 2^26 (or any, up to 13 bytes), a positive result decodes, with any capacity from the source size on, to exactly the source; with the worst-case room the result is positive. |
| `BlockApi.GoesWrong` | openvpn/src/main/cpp/lz4/lib/lz4.c:592-619 | The converse: for every acceleration that is a positive multiple of 2^26 and every supported size above 13 there is a source for which a positive result comes back that does not decode to it. |
| `DestSize.RoundTrip` | openvpn/src/main/cpp/lz4/lib/lz4.c:954-966 | Compressing to any target of at least one byte: the result is positive and within the target, and what it says was consumed is exactly what it decodes to, with any capacity from that size on. |
| `FastDecoder.DecompressGeneric` | openvpn/src/main/cpp/lz4/lib/lz4.c:1169-1344 | For any input, full decoding with known input size (as all the `safe` functions use it): writes only to the output space; a result that is not negative is the length the byte-at-a-time reference decoder produces over dictionary, prefix and output, with exactly its bytes in place; a block within the parsing restrictions that fits is never refused. Stated for the part of the dictionary that no output can overwrite. |
| `FastDecoder.EmptyOutput` | openvpn/src/main/cpp/lz4/lib/lz4.c:1202 | With no room at all only the block of one zero token is accepted, and that is what the reference decoder makes of it. |
| `FastDecoder.DecodeSequence` | openvpn/src/main/cpp/lz4/lib/lz4.c:1205-1333 | One turn of the main loop, shortcut or not: it does to the window what the reference decoder does with the sequence at that index, or stops with an error, which it must not for a sequence within the parsing restrictions. |
| `FastDecoder.Shortcut` | openvpn/src/main/cpp/lz4/lib/lz4.c:1213-1229 | The 16 and 18 bytes copied blindly leave exactly the true literals and the true match behind the window. |
| `FastDecoder.WriteOffset` | openvpn/src/main/cpp/lz4/lib/lz4.c:1262-1266 | The four-byte write of the offset harms neither window nor input, and makes offset 0 refer to zeros. |
| `FastDecoder.ReadLiteralRun` | openvpn/src/main/cpp/lz4/lib/lz4.c:1231-1240 | A run that fits in the input is read exactly as by the reference; where the loop stops early the length overruns the input, so that the checks behind it fail. |
| `MatchCopy.CopyFirst8` | openvpn/src/main/cpp/lz4/lib/lz4.c:1308-1317 | Whatever the offset, eight bytes with the period of the offset are written, and the source pointer is left at a distance at which copying goes on with that period: what the two tables are for. |
| `MatchCopy.CopyMatchInSegment` | openvpn/src/main/cpp/lz4/lib/lz4.c:1306-1332 | Four bytes, then eight at a time, then byte by byte: the match is byte for byte periodic, overlapping or not; it fails exactly when it would end in the last five bytes of the buffer; nothing is written past the buffer. |
| `MatchCopy.CopyMatchFromDict` | openvpn/src/main/cpp/lz4/lib/lz4.c:1281-1304 | A match that starts in the external dictionary, whether or not it runs on into the segment and overlaps itself there: the dictionary bytes first, then the period of the offset. |
| `Memory.WildCopy` | openvpn/src/main/cpp/lz4/lib/lz4.c:280-288 | The range is copied, also when its source is written on the way at a distance of at least eight; and how far beyond the end it may write is bounded, for an empty range too. |
| `BlockFormat.CopyMatchUnique` | openvpn/src/main/cpp/lz4/doc/lz4_Block_format.md:97-104 | The overlap match of the format is well defined: the byte-at-a-time copy is the only extension of the window by that length with that period. |
| `BlockFormat.RestrictedLeavesInput` | openvpn/src/main/cpp/lz4/doc/lz4_Block_format.md:107-117 | The parsing restrictions keep the decoder inside its input: at least six bytes are left behind every match of a block within them. |
| `BlockFormat.DecodeNeedsOnly64K` | openvpn/src/main/cpp/lz4/doc/lz4_Block_format.md:75-78 | Once 65535 bytes are there, more history in front of them decides neither whether a block decodes nor what it decodes to. |
| `BlockApi.DecompressSafe` | openvpn/src/main/cpp/lz4/lib/lz4.c:1348-1351 | `DecompressGeneric` without history, in terms of the block and the output alone. |
| `BlockApi.DecompressSafeUsingDict` | openvpn/src/main/cpp/lz4/lib/lz4.c:1468-1484 | The choice between no history, prefix of 64 KB, shorter prefix and external dictionary: in each case the block is decoded as by the reference behind that dictionary. |
| `BlockApi.HistoryGrows` | openvpn/src/main/cpp/lz4/lib/lz4.c:1190 | Why offsets need no check once the dictionary has 64 KB: more history never makes a block one that may be refused, and beyond 65535 bytes less of it does not either. |
| `BlockApi.SeesSource` | openvpn/src/main/cpp/lz4/lib/lz4.c:1400-1404 | A decoder that has all of the history a block was made with, or its last 65535 bytes, must take the block and gets its source. |
| `Encoding.BlockRoundTrip` | openvpn/src/main/cpp/lz4/doc/lz4_Block_format.md:30-120 | The format itself: tokens, length runs, literals and offsets of any well-formed sequences decode to their expansion, and the block keeps the parsing restrictions when the sequences keep clear of the end. |
| `Emitter.SequenceCost` | openvpn/src/main/cpp/lz4/lib/lz4.h:156-157 | The heart of the worst-case bound: a sequence never costs more than the source it stands for plus one byte for each 255 bytes of source so far. |
| `BlockApi.BoundFitsInt` | openvpn/src/main/cpp/lz4/lib/lz4.h:156-157 | The bound is positive exactly for supported sizes, grows at least as fast as the size, and fits a 32-bit int for the largest. |
| `SequenceWriter.WriteLiterals` | openvpn/src/main/cpp/lz4/lib/lz4.c:624-641 | Token, length run and eight-at-a-time literals stand there as the format wants them, although up to seven bytes too many were written. |
| `SequenceWriter.WriteMatch` | openvpn/src/main/cpp/lz4/lib/lz4.c:643-683 | Offset and length, in each of the three ways the compressors write length runs (one by one, in pairs, 0xFF words written ahead), complete the exact encoding of the sequence. |
| `SequenceWriter.WriteLastLiterals` | openvpn/src/main/cpp/lz4/lib/lz4.c:713-728 | The last literals are encoded exactly, and nothing else is written. |
| `MatchCount.NbCommonBytesCounts` | openvpn/src/main/cpp/lz4/lib/lz4.c:343-363 | For different words the result is exactly the number of low bytes on which they agree. |
| `MatchCount.Count` | openvpn/src/main/cpp/lz4/lib/lz4.c:416-439 | By words, half words and bytes: exactly the number of bytes that agree before the limit, no less and no more. |
| `FastSearch.CounterCannotWrap` | openvpn/src/main/cpp/lz4/lib/lz4.c:595-602 | The skip counter cannot wrap around before the search has left a source of supported size. |
| `FastSearch.FindMatch` | openvpn/src/main/cpp/lz4/lib/lz4.c:592-619 | The skipping search ends, finds only candidates in reach whose first four bytes agree, and enters only positions that the table may hold; a search that is sound never finds one that runs over the end of an external dictionary. It also says what is found when the counter starts at zero. |
| `FastCompressor.CatchUp` | openvpn/src/main/cpp/lz4/lib/lz4.c:621-622 | Going backwards keeps the candidate real, within its own segment and in front of no literal already written. |
| `FastCompressor.MatchLength` | openvpn/src/main/cpp/lz4/lib/lz4.c:647-665 | The counted length is all real, across the border from dictionary to source as well, and ends in time for the last five bytes. |
| `FastCompressor.EmitSequence` | openvpn/src/main/cpp/lz4/lib/lz4.c:624-683 | Writes exactly one more sequence: the literals since the last one and a real match of at least four bytes; stays within the worst-case cost; gives up only in limited mode with less than the worst-case room. |
| `FastCompressor.TestNextPosition` | openvpn/src/main/cpp/lz4/lib/lz4.c:690-707 | The position right behind a match: entered in the table, and taken only with a real candidate. |
| `FastCompressor.CompressGeneric` | openvpn/src/main/cpp/lz4/lib/lz4.c:532-733 | All dictionary modes and both table types: a positive result is the size of a block that is the encoding of some sequences and last literals and, when the call can be relied on, decodes to the source behind its history, within the parsing restrictions and with all offsets in 1..65535; positive for certain with worst-case room; the table afterwards holds old entries and indices of this source only. |
| `FastCompressor.StuckIsWrong` | openvpn/src/main/cpp/lz4/lib/lz4.c:595-602 | A block whose first match has offset 0 decodes to a zero where the source has none, for every reader and every history. |
| `FastCompressor.StraddleIsWrong` | openvpn/src/main/cpp/lz4/lib/lz4.c:653-665 | A first match that runs over the end of a history of one to three bytes makes every reader repeat the first byte where the source has another one. |
| `BlockApi.CompressFastExtState` | openvpn/src/main/cpp/lz4/lib/lz4.c:736-753 | One-shot compression: with worst-case room never 0; faithful to every source if acceleration or size are right, and misread by everyone for every confusing source if not. |
| `DestSize.DestMatch` | openvpn/src/main/cpp/lz4/lib/lz4.c:884-906 | A match shortened because its length bytes would not fit is still a real match of at least four bytes, encoded exactly, and leaves room for a token and five literals. |
| `DestSize.DestLast` | openvpn/src/main/cpp/lz4/lib/lz4.c:926-951 | However much of the last literals fits, the block stands for exactly what is reported as consumed; if that is not everything, what is left unused of the room is at most what the rounding of the length bytes loses (nothing in up to fifteen bytes). |
| `DestSize.CompressDestSize` | openvpn/src/main/cpp/lz4/lib/lz4.c:954-966 | For every source size and target: refused exactly when the size is not supported or the target below 1; otherwise at most `target` bytes that decode to exactly the consumed prefix, within the parsing restrictions; everything is consumed when the target is the worst-case bound. |
| `Streaming.EncoderStream.LoadDict` | openvpn/src/main/cpp/lz4/lib/lz4.c:1015-1044 | The last 64 KB are kept; although the table is not cleared, every entry that a later search may select stems from this dictionary and names a byte of it under the right hash. |
| `Streaming.EncoderStream.RenormDict` | openvpn/src/main/cpp/lz4/lib/lz4.c:1047-1063 | When indices grow too large all of them are moved down: two entries that could be selected for the same byte still can, all others cannot be selected any more, and 32 bits suffice. |
| `Streaming.EncoderStream.TrimDict` | openvpn/src/main/cpp/lz4/lib/lz4.c:1077-1085 | Of a dictionary that the source is about to overwrite exactly the end behind the source is kept, at most 64 KB and not less than four bytes. |
| `Streaming.EncoderStream.CompressFastContinue` | openvpn/src/main/cpp/lz4/lib/lz4.c:1066-1110 | Prefix mode and external dictionary mode: a positive result is faithful to the source behind the history used whenever `Sure` holds, which is about sizes, acceleration and the tiny dictionary; for the trapped sources of the other shapes it misleads everyone; the source becomes the dictionary in any case, indices stay below 2^32, and with worst-case room the result is positive. |
| `Streaming.EncoderStream.SaveDict` | openvpn/src/main/cpp/lz4/lib/lz4.c:1141-1155 | The end of the dictionary moves as it is, overlapping or not; table entries keep their meaning. |
| `Streaming.DecoderStream.SetStreamDecode` | openvpn/src/main/cpp/lz4/lib/lz4.c:1388-1396 | Afterwards the decoder's history is exactly that dictionary. |
| `Streaming.DecoderStream.DecompressSafeContinue` | openvpn/src/main/cpp/lz4/lib/lz4.c:1406-1430 | Decodes as the reference does behind external dictionary and prefix; the history kept ends with what was used followed by what was produced, also when the output does not continue the prefix. |
| `StreamRuns.SendBlock` | openvpn/src/main/cpp/lz4/lib/lz4.c:1066-1110 | One message: if the decoder tracks what the encoder is going to use, the message comes back, and afterwards the decoder tracks all of the encoder's new dictionary. |
| `RingBuffer.TestCompress` | openvpn/src/main/cpp/lz4/examples/blockStreaming_ringBuffer.c:48-79 | Every block is faithful to its message behind a history that is part of what was sent and fits the ring together with the message, so that the decoding side cannot have lost it, though the two rings wrap at different blocks. |
| `RingBuffer.TestDecompress` | openvpn/src/main/cpp/lz4/examples/blockStreaming_ringBuffer.c:82-111 | From such blocks every message comes back, when the call is given the room its message takes; or the room of the example, for blocks made behind no more than 8192 bytes. |
| `RingBuffer.TestCompressHc` | openvpn/src/main/cpp/lz4/examples/HCStreaming_ringBuffer.c:54-86 | The same promise for the HC stream, where the rest of the previous lap stays in use as external dictionary for a whole lap; for every level. |
| `HcSearch.Insert` | openvpn/src/main/cpp/lz4/lib/lz4hc.c:100-118 | All positions up to the target are entered; chain links step back by at least one, always to positions that were entered or are too old to be used. |
| `HcSearch.CountPattern` | openvpn/src/main/cpp/lz4/lib/lz4hc.c:136-163 | By words and bytes: exactly how far memory goes on repeating the pattern. |
| `HcSearch.ReverseCountPattern` | openvpn/src/main/cpp/lz4/lib/lz4hc.c:168-182 | Exactly how far back memory repeats the pattern, in the right phase. |
| `HcSearch.PrefixMatch` | openvpn/src/main/cpp/lz4/lib/lz4hc.c:221-244 | A candidate in the prefix, extended both ways, is byte-equal over its whole length, within the limits, and at least four bytes long. |
| `HcSearch.DictMatch` | openvpn/src/main/cpp/lz4/lib/lz4hc.c:245-264 | So is one in the external dictionary, also where it runs on into the prefix. |
| `HcSearch.NextCandidate` | openvpn/src/main/cpp/lz4/lib/lz4hc.c:266-293 | The next candidate lies strictly before, also after a jump through a repeated pattern, and has been entered into the tables unless it is out of reach: the search ends. |
| `HcSearch.InsertAndGetWiderMatch` | openvpn/src/main/cpp/lz4/lib/lz4hc.c:186-297 | Whatever it reports as longer is byte-equal over its whole length, also across the segments, at most 65535 bytes back, and between the two limits; for any number of attempts, with and without pattern analysis. |
| `HcCompressor.EncodeSequenceHc` | openvpn/src/main/cpp/lz4/lib/lz4hc.c:324-391 | Writes exactly the literals and the match, and keeps the block faithful to the text written so far; gives up only in limited mode. |
| `HcCompressor.Search2Step` | openvpn/src/main/cpp/lz4/lib/lz4hc.c:444-472 | From `_Search2`: whatever is found, written or taken back, the matches under consideration are real, in order, long enough to be cut, and their end grows. |
| `HcCompressor.Search3Step` | openvpn/src/main/cpp/lz4/lib/lz4hc.c:474-574 | From `_Search3`: the same, for the correction, for two sequences written at once, for the removed second match and for the one that takes its place. |
| `HcCompressor.WriteFirst` | openvpn/src/main/cpp/lz4/lib/lz4hc.c:511-573 | Three matches: the first is written whole or shortened, never below four bytes, the second starts where it ends, and what remains is a state the parser may be in. |
| `HcCompressor.CompressHashChain` | openvpn/src/main/cpp/lz4/lib/lz4hc.c:397-613 | Every run of the goto machine ends; whatever tables, levels and limits, a positive result is a block faithful to the source behind the history; without limit the result is positive. |
| `HcOptimal.PriceIsSize` | openvpn/src/main/cpp/lz4/lib/lz4opt.h:47-67 | A price is the number of bytes that encoding the sequence takes. |
| `HcOptimal.CheckFurther` | openvpn/src/main/cpp/lz4/lib/lz4opt.h:184-281 | Every entry of the table up to the last position stays a literal or a real match that ends there and starts at or after 0, whatever prices decide; so is the step chosen. |
| `HcOptimal.ReverseTraversal` | openvpn/src/main/cpp/lz4/lib/lz4opt.h:283-302 | Turning the table around in place comes out exactly at 0 and leaves a path of steps that tiles the range up to the end of the last step. |
| `HcOptimal.EncodePath` | openvpn/src/main/cpp/lz4/lib/lz4opt.h:304-316 | Writing the matches of a path in order keeps the block faithful, and ends where the path does or behind the last position. |
| `HcOptimal.CompressOptimal` | openvpn/src/main/cpp/lz4/lib/lz4opt.h:98-350 | A positive result is a block faithful to the source behind the history, for every number of searches, sufficient length and both update modes; without limit it is positive. |
| `HcStream.CompressLevel` | openvpn/src/main/cpp/lz4/lib/lz4hc.c:616-667 | The same for every level, whichever parser it selects. |
| `HcStream.HcEncoder.LoadDict` | openvpn/src/main/cpp/lz4/lib/lz4hc.c:736-747 | The last 64 KB become the prefix, all but their last three bytes entered in tables that are good. |
| `HcStream.HcEncoder.SetExternalDict` | openvpn/src/main/cpp/lz4/lib/lz4hc.c:752-763 | The prefix becomes the external dictionary, the old one is dropped; every chain link stays good. |
| `HcStream.HistoryIsSuffix` | openvpn/src/main/cpp/lz4/lib/lz4hc.c:765-793 | Starting over when indices grow too large, a source elsewhere, a source that overwrites the dictionary: the history of the next call is always the end of what the stream has seen, as memory holds it. |
| `HcStream.HcEncoder.CompressHcContinue` | openvpn/src/main/cpp/lz4/lib/lz4hc.c:765-804 | For every level: a positive result is faithful to the source behind that history; with worst-case room it is positive; the tables stay good for any number of calls. |
| `HcStream.HcEncoder.CompressHcExtState` | openvpn/src/main/cpp/lz4/lib/lz4hc.c:672-681 | One-shot HC compression decodes to the source, for every level and without condition; worst-case room suffices. |
| `HcStream.HcEncoder.SaveDict` | openvpn/src/main/cpp/lz4/lib/lz4hc.c:815-831 | The end of the prefix moves as it is and is the whole history afterwards; the tables stay good. A prefix of 2 GB and more, which is no int, makes the size negative exactly when it is at least 2^31 bytes, and then nothing is promised. |
| `HcStream.ViewExtent` | openvpn/src/main/cpp/lz4/lib/lz4hc.c:765-793 | How far indices and prefix come depends on the sizes of the blocks and on whether each follows the one before, and on nothing else; starting over included. |
| `FrameCompressor.WithinBound` | openvpn/src/main/cpp/lz4/lib/lz4frame.c:277-303 | The arithmetic of the bound: all full blocks, and one that is not full if it is flushed, fit with their headers and checksums, and leave room for the end. |
| `FrameCompressor.PublicBoundHolds` | openvpn/src/main/cpp/lz4/lib/lz4frame.c:620-623 | The public bound covers every amount that may be buffered. |
| `FrameCompressor.EndWithinBound` | openvpn/src/main/cpp/lz4/lib/lz4frame.c:858-885 | What `LZ4F_compressEnd` may write is within the bound for no input. |
| `FrameCompressor.OptimalKeepsBound` | openvpn/src/main/cpp/lz4/lib/lz4frame.c:257-269 | A smaller block size chosen for a small source does not change what the frame may take. |
| `FrameCompressor.FrameBoundHolds` | openvpn/src/main/cpp/lz4/lib/lz4frame.c:305-315 | The frame bound asked for on behalf of the caller's preferences is the one for the changed preferences. |
| `FrameCompressor.CompressFrame` | openvpn/src/main/cpp/lz4/lib/lz4frame.c:327-383 | Refused exactly when the room is below the frame bound; otherwise no larger than it, a frame that holds the source in blocks that all say their data if size, level and block size are such that all can be relied on, and for a source made for it, one that does not, if they are not. |
| `FrameCompressor.FrameCompressor.Begin` | openvpn/src/main/cpp/lz4/lib/lz4frame.c:499-596 | Refused exactly below the largest header size; the header is the one of the format, no larger than that; buffer, stream and hash are ready for a first block. |
| `FrameBlocks.MakeBlock` | openvpn/src/main/cpp/lz4/lib/lz4frame.c:632-651 | Compressed or stored, with or without checksum: a block of the format that holds the data and says it if the call can be relied on; never larger than stored; the stream's past moves on by the source either way, so that both sides keep the same history. |
| `FrameCompressor.FrameCompressor.CompressUpdate` | openvpn/src/main/cpp/lz4/lib/lz4frame.c:713-807 | Takes all input: what it writes are blocks that continue the frame within the internal bound, the rest is buffered; which blocks follows from sizes alone; buffer limits and the 64 KB of history survive, and without a promise of the caller nothing outside the context is needed afterwards. It runs away exactly when `RunsAway`, which looks at the sizes of this update and of what the stream has seen, says that history of 2 GB and more has to be saved. |
| `FrameCompressor.FrameCompressor.SaveHistory` | openvpn/src/main/cpp/lz4/lib/lz4frame.c:697-702 | The history of linked blocks moves to the start of the buffer and stays what the stream remembers, with room behind it; except on HC levels exactly with a prefix of 2^31 bytes and more, which runs away. |
| `FrameCompressor.FrameCompressor.Flush` | openvpn/src/main/cpp/lz4/lib/lz4frame.c:818-846 | What is buffered becomes a block; what it may write and when it refuses are exact. |
| `FrameCompressor.FrameCompressor.End` | openvpn/src/main/cpp/lz4/lib/lz4frame.c:858-885 | The rest, the end mark and the checksum of all content; when it refuses is exact, and so is its size, which is more than the room it was given just when it writes beyond it. |
| `FrameCompressor.FrameCompressor.CallersBuffers` | openvpn/src/main/cpp/lz4/lib/lz4frame.c:775-800 | Between two calls a caller that promised nothing may overwrite all of its own memory. |
| `FramePlan.UpdateTotal` | openvpn/src/main/cpp/lz4/lib/lz4frame.c:733-773 | The pieces that an update makes of its input and of what is buffered take everything but what is left, which is less than a block. |
| `FrameHistory.DecodedHistory.UpdateDict` | openvpn/src/main/cpp/lz4/lib/lz4frame.c:1139-1194 | All ways to take in output that went straight to the caller: the last 64 KB of history are right afterwards, even when part of the recorded dictionary is stale. |
| `FrameHistory.DecodedHistory.FlushLinked` | openvpn/src/main/cpp/lz4/lib/lz4frame.c:1505-1517 | Delivering part of a block from the buffer: the bytes are the next ones, and both the rest of the block and the history of the next stay intact. |
| `FrameHistory.DecodedHistory.BringIntoTmp` | openvpn/src/main/cpp/lz4/lib/lz4frame.c:1161-1173 | The copy in front of a block that is being delivered brings as much history as can matter, and no more than fits. |
| `FrameHistory.DecodedHistory.CopyToTmp` | openvpn/src/main/cpp/lz4/lib/lz4frame.c:1175-1193 | New output joined with the old history in the buffer, making room first if there is none. |
| `FrameHistory.DecodedHistory.PlaceTmpOut` | openvpn/src/main/cpp/lz4/lib/lz4frame.c:1473-1487 | A place for a block of the largest size within the buffer, behind all history that matters. |
| `FrameHistory.DecodedHistory.Preserve` | openvpn/src/main/cpp/lz4/lib/lz4frame.c:1619-1649 | After a call whose output may not stay, the history is in the buffer, in the middle of a block as well as between blocks. |
| `FrameFormat.FeedInPieces` | openvpn/src/main/cpp/lz4/lib/lz4frame.c:1216-1654 | Reading a frame does not depend on how its bytes are cut into pieces. |
| `FrameFormat.HeaderReads` | openvpn/src/main/cpp/lz4/lib/lz4frame.c:998-1082 | Every header reads as the parameters it was written for, and not before its last byte is there. |
| `FrameFormat.FrameReads` | openvpn/src/main/cpp/lz4/lib/lz4frame.c:1216-1654 | The reader comes to the end of every frame of valid blocks, with exactly their content and all checksums right. |
| `FrameDecoder.FrameDecoder.DecodeHeader` | openvpn/src/main/cpp/lz4/lib/lz4frame.c:998-1082 | Accepts and refuses the same headers as the format's reader, including skippable frames and headers that are not complete. |
| `FrameDecoder.FrameDecoder.Decompress` | openvpn/src/main/cpp/lz4/lib/lz4frame.c:1216-1654 | One call of the resumable decoder in any stage, with any input and room: an error only if the input shows the frame to be broken or to hold a block some decoder may refuse; otherwise the reader has read exactly what was consumed, what was delivered continues the content, one of input and room is used up unless the frame ended, 0 is returned exactly when it did and everything has been delivered; nothing else is written. A call goes astray only at a block whose history, what was kept and what the call has delivered, has 2^31 bytes or more, and as long as none does, no linked block was decompressed behind so much. |
| `FrameDecoder.FrameDecoder.GivenIsPrefix` | openvpn/src/main/cpp/lz4/lib/lz4frame.c:1216-1654 | At any time, what was delivered is the beginning of what was decoded. |
| `FrameDecoder.FrameDecoder.CallersBuffers` | openvpn/src/main/cpp/lz4/lib/lz4frame.c:1619-1649 | Between two calls, unless the caller promised to keep its output, it may overwrite all of its own memory. |
| `FrameReading.PartWay` | openvpn/src/main/cpp/lz4/lib/lz4frame.c:1216-1654 | Part-way through a frame in order nothing is refused, the content so far is a prefix, and the reader is through exactly with the last byte. |
| `FrameReading.BadFrame` | openvpn/src/main/cpp/lz4/lib/lz4frame.c:1216-1654 | A frame with a block that nobody gets its data from never comes to its end with the content. |
| `XxHash.OneShot` | openvpn/src/main/cpp/lz4/lib/xxhash.c:269-323 | Both widths: stripes, tail and mixing in place compute the hash of the bytes, for every seed. |
| `XxHash.HashState.Update` | openvpn/src/main/cpp/lz4/lib/xxhash.c:384-441 | Any update, of any size, leaves a state that stands for all bytes seen. |
| `XxHash.HashState.Digest` | openvpn/src/main/cpp/lz4/lib/xxhash.c:454-487 | The digest is the one-shot hash of everything seen, whatever the updates were; for XXH32 also when the length counter has wrapped around. |
| `XxHash.SmallTotal` | openvpn/src/main/cpp/lz4/lib/xxhash.c:394-395 | The wrapped length and the flag together tell whether a whole stripe has been seen, for all lengths. |
| `XxHash.Hash32Fits` | openvpn/src/main/cpp/lz4/lib/xxhash.c:269-323 | XXH32 is a 32-bit value. |
| `SparseFile.FwriteSparse` | openvpn/src/main/cpp/lz4/programs/lz4io.c:701-765 | The file and the zeros still owed stand for what was written before and the new buffer; the counter of owed zeros stays within 2 GB for buffers of up to 1 GB. |
| `SparseFile.FwriteSparseEnd` | openvpn/src/main/cpp/lz4/programs/lz4io.c:767-776 | Afterwards the file is exactly the content, in bytes and length. |
| `SparseFile.WriteAll` | openvpn/src/main/cpp/lz4/programs/lz4io.c:701-776 | Any buffers of at most 1 GB each, in any number: the file is their concatenation, holes reading as zeros, with sparse support and without. |

## Left out

- FastDecoder.DecompressGeneric: models full decoding with known input size, which is what all the `safe` functions use. The partial and the endOnOutputSize modes (`LZ4_decompress_safe_partial`, `LZ4_decompress_fast`) are not modelled, and of a negative result only the sign.
- RingBuffer.TestDecompress: with the room the example gives each call, only for blocks made behind at most 8192 bytes of history; `RingBuffer.EndToEnd` gives each call the room its message takes.
- FrameDecoder.FrameDecoder.Decompress: a call that goes astray is followed up to the block it is going to decode with a wrong size, and no further; `FrameLimits.LongCall` decodes that block for one frame.
- HcStream.HcEncoder.SaveDict: when the size is negative the model stops before the copy, and so does every caller; the same holds for `FrameCompressor.FrameCompressor.CompressUpdate`.
- StreamRuns.GoesWrong: with room for less than the source less one byte no witness is given; whether such a call has a result at all depends on how well the source compresses.
- FrameRoundTrip.RoundTrip: its callers do not promise to leave their buffers in place (`stableSrc`, `stableDst` false), which is the harder case; single calls are modelled with both.
- FrameCompressor.FrameCompressor.End: callers own a margin behind their room, which takes up the intermediate writes of the block compressors and what `LZ4F_flush` does not count.
- Limited output modes: intermediate writes may go beyond the limit, because the space check for a match counts 256 where its length bytes count 255 (`lib/lz4.c:668`, `lib/lz4hc.c:375`). Callers of the model own worst-case room; returned size and content are as limited.
- Machines: 64 bits, little-endian. The byPtr table, tests of the address space (`lib/lz4.c:1050`) and of pointer overflow (`lib/lz4.c:1238-1239`) are left out.
- The two bytes behind a block, which the decoder may read before it finds the block broken, have to be readable.
- Comparing words by exclusive or is modelled by the number of low bytes they have in common.
- Memory allocation: buffers of contexts have fixed addresses that are large enough, with a gap around them; it never fails. `initCheck` of an uninitialised stream is left out.
- A compression level of -2^31, whose negation is not a 32-bit int; levels are unbounded integers here.
- HC destSize (`LZ4_compress_HC_destSize` and its streaming form), and `LZ4_compress_forceExtDict`.
- Dictionaries for frames (`LZ4F_CDict`, `LZ4F_decompress_usingDict`), `LZ4F_getFrameInfo`, and preferences or options passed as NULL.
- `LZ4F_compressEnd` on a context with no frame begun.
- The number of full blocks in the frame bound, which the original truncates to 32 bits; sources here are shorter than 2^64 bytes.
- In `LZ4F_compressFrame`, the pretended buffer size that avoids an allocation (`lib/lz4frame.c:342`): the model's context has a buffer, which this path does not use.
- Files, their errors and the circular dictionary buffer of `lz4io.c`; of the file only content and position are modelled.
- LZO, OpenSSL, OpenVPN and JNI code: their codecs are not visible or have no algorithm to prove.
