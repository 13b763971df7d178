# LZ4: a model of the block and frame codecs

The library `lz4` compresses by replacing repeated stretches with matches, and its code is fast
because it takes risks: hash tables that keep stale entries, copies that write too far, buffers
that callers use again. This project models the block codec, its streams, the match search and the
parsers of the high-compression levels, the frame layer and xxHash in Dafny and proves that the risks are covered:
what is compressed decodes to what it was, through every dictionary mode, every cut of the input and
every reuse of a buffer that the documentation allows. Nine times the code does not keep what its
documentation promises. Each of them is shown by runs of the model, and stated with the condition
under which the code does keep it.

The central notion is the reference decoder `BlockFormat.Decode`, which reads a block a byte at a
time behind a flat history, as the LZ4 Block Format Description says. `Represents(block, history,
text)` says that a block means `text` behind `history`, meets the end-of-block restrictions and
keeps to the size bound. Compressors are proved to write blocks that represent their input;
decoders are proved to answer as the reference decoder does. In the same way
`FrameFormat.Frame` is a reference decoder for frames.

| file | what it holds |
|---|---|
| `Bytes`, `BlockFormat`, `BlockEncoding` | bytes, the reference decoder, how a parse is written and read back |
| `FastCopy`, `BlockDecoder`, `BlockApi` | the overlapping copies, the decoder with its fast and safe loops, its entry points and its stream |
| `MatchFinder`, `MatchLength`, `SequenceWriter`, `BlockCompressor` | the greedy compressor |
| `BlockStream`, `StreamLimits` | the compression stream, and the calls that it does not serve well |
| `RoundTrip`, `DecodeLimits` | compression and decompression together, in whole runs, and what a decoder loses |
| `EqualBytes`, `FillLimits` | what becomes of inputs without differences and without repetitions |
| `XxHash`, `XxHashValues` | the two hash functions, in one go and in parts, and some of their values |
| `FrameFormat`, `FrameHistory`, `FrameDecoder`, `FrameRun` | what a frame means, and the resumable decoder |
| `FrameEncoding`, `FrameValues`, `FrameEncoder`, `FrameRoundTrip` | what a frame is made of, the buffering encoder, and both sides together |
| `FrameLimits` | what a caller of the frame decoder has to know |
| `HcChains`, `HcSearch`, `HcMatchFinder`, `HcLimits` | the match search of the high-compression levels, and where it reads too far |
| `HcParser`, `HcOptimal`, `HcStream`, `HcRoundTrip` | the lazy and the optimal parser, their stream, and whole runs |

Pointers are indices into buffers, 16 and 32-bit widths are written out where they matter, and the
hash functions of the match finder are arbitrary. The modelled configuration is a 64-bit
little-endian machine with `LZ4_FAST_DEC_LOOP` set and `LZ4_DISTANCE_MAX` 65535. A method's
memory is what its caller has in its buffers at that time; functions of the library that read the
caller's memory without writing to it take its contents as a sequence.

Most predicates in contracts are compared with `true`. That keeps the verifier from taking them
apart where they are only handed on.

## Findings

1. A ring buffer cannot have any size (`lz4.h:332`). The overlap check of `LZ4_compress_fast_continue`
   looks at inputs that end inside the dictionary, and misses those that end at its end or behind it
   (`lz4.c:1591`). `BlockStream.Stream.CompressFastContinue` proves that all others are safe, and so are inputs
   of less than 13 bytes; `StreamLimits.OverrunFails` has a wrong block for every such input of 13
   bytes or more, whatever the sizes and places. A ring is safe if it is twice as large as the largest input
   (`RoundTrip.RingIsEnough`), and not if it is smaller (`StreamLimits.RingTooSmall`). The check of
   `LZ4_compress_HC_continue` (`lz4hc.c:1125-1134`) drops all that an input touches: there rings of any size are
   safe, and so is every other place (`HcRoundTrip.SendInputs`, `HcRoundTrip.RingWritesInputs`).
2. A dictionary whose address is that of the input cannot be told from it (`lz4.c:1079`). Matches
   inside the input are counted right, for all bytes, if and only if the input has at most 6 bytes
   more than the dictionary (`MatchLength.CountingIsRight`), and up to there blocks are right (`Faithful`). From 7
   bytes on there is a wrong block for every size (`StreamLimits.AttachedConfusion`, `StreamLimits.OwnConfusion`).
3. An empty call leaves an attached dictionary attached although the next input then follows it in
   prefix mode. Such a call (`LeavesBehind`) is the only one that does so; after it every dictionary and every
   block of four bytes or more has an input whose block copies from the dictionary instead of from what precedes
   it (`StreamLimits.StaleDictionaryFails`). Blocks of one to three bytes are dropped from the dictionary by the next call.
4. `LZ4F_resetDecompressionContext` does not clear `frameRemainingSize`, which `LZ4F_decodeHeader` sets only if
   a size is announced (`lz4frame.c:1197`). `FrameLimits.AfterReset` says for all frames which of them a context decodes
   after a reset, in both directions, and `FrameLimits.LostFrame` has a valid one that it rejects.
5. `LZ4_decompress_safe_continue` changes segments before it knows whether there is output (`lz4.c:2345`). After an
   empty block at another place the external dictionary is the prefix itself. `DecodeLimits.EmptyCallKeeps` says
   for which sizes that does no harm, in both directions, and `DecodeLimits.EmptyCallFails` has a block that is decoded
   wrong for each of the others.
6. `LZ4F_decompress` can need one byte of room more than the text, in front of a compressed block that
   stands for nothing (`lz4frame.c:1527`). `FrameRun.DecodeAtOnce` says for which frames, in both directions, and
   `FrameLimits.TightCall` has one.
7. `LZ4HC_FindLongerMatch` can read up to three bytes behind an external dictionary (`lz4hc.c:293-300`): the jump
   to another chain (`lz4hc.c:316-335`) can lead to one of its last three positions, where four bytes are compared.
   Whatever is there, the match that is found is genuine (`HcMatchFinder.HcContext.InsertAndGetWiderMatch`), and blocks are right. It happens only
   if there is room for it between the dictionary and `ip` (`MayReadBehind`), and for all indices with that
   room there are contents with which it does (`HcLimits.ReadsBehind`); `HcLimits.OverreadInRun` is a run with the hash
   of the library.
8. The result of `LZ4F_decompress` is said to be what is left of the block and the next block header (`lz4frame.c:1378-1380`). Within
   a compressed block that was begun in an earlier call, the block checksum is counted twice (`lz4frame.c:1630-1632`),
   and in front of a skippable frame a block header is asked for, too (`lz4frame.c:1439`). So the hint leads behind
   the end of the frame within a last block with a checksum if the content has none, and in front of a skippable frame of less than three
   bytes, and in no other place (`AsksTooMuch` in `FrameDecoder.Dctx.Decompress`, in both directions). `FrameLimits.HintBehindEnd` is a run.
9. `LZ4_compress_destSize` is said to fill its target completely, if it does not take all the input (`lz4.h:209`). It
   can leave one byte, and never more (`BlockStream.CompressDestSize`): exactly if the room behind the last match is 16 more than a
   multiple of 256, so that another literal would need another byte for the length (`FilledUp`, `FillLimits.FilledExactly`). `FillLimits.OneByteFree` is a run.

## Model

| member | source | states |
|---|---|---|
| BlockFormat.RepeatsIsCopyMatch | openvpn/src/main/cpp/lz4/doc/lz4_Block_format.md:100-105 | a copy whose length exceeds its offset gives exactly the bytes that each repeat the one `offset` places earlier, and nothing else does |
| BlockFormat.DecodeWindow | openvpn/src/main/cpp/lz4/doc/lz4_Block_format.md:76-79 | because offsets stop at 65535, history in front of a full window changes nothing of what a block means: neither its output nor whether it is malformed |
| BlockEncoding.BlockRoundTrip | openvpn/src/main/cpp/lz4/doc/lz4_Block_format.md:108-135 | any parse whose matches refer to something that is there, written as sequences, means the text it stands for; if it keeps the last literals and match rules, the written block meets the end-of-block restrictions |
| BlockEncoding.BlockSizeBound | openvpn/src/main/cpp/lz4/lib/lz4.h:171-171 | no parse of n bytes, written as a block, takes more than n + n/255 + 16 bytes |
| FastCopy.WildCopy32 | openvpn/src/main/cpp/lz4/lib/lz4.c:456-470 | two copies of 16 bytes at a time leave the bytes that a bytewise overlapping copy leaves, for every distance of at least 16; what is written too far stays within the stated slack |
| FastCopy.MemcpyUsingOffset | openvpn/src/main/cpp/lz4/lib/lz4.c:417-506 | the table-driven first eight bytes, the eight-byte pattern for offsets 1, 2, 4 and the wild copies leave `out[i] = out[i - offset]` for every offset from 1 on, and do not touch what is in front |
| BlockDecoder.ReadVariableLength | openvpn/src/main/cpp/lz4/lib/lz4.c:1707-1729 | the bytes of a length are read up to the first that is not 255, their sum taken modulo 2^32, and each of the two errors is reported exactly when its check says so |
| BlockDecoder.DecompressGeneric | openvpn/src/main/cpp/lz4/lib/lz4.c:1738-2163 | whatever the mode of the history, fast loop and safe loop together: a non-negative answer is the size of the output, and the output is what the block means behind its history; every block that meets the end conditions and fits is accepted; a partial decode stops at the target with the front of that output |
| BlockApi.DecompressSafe | openvpn/src/main/cpp/lz4/lib/lz4.c:2171-2176 | answers as the reference decoder does without history; bytes outside the output are not changed |
| BlockApi.DecompressSafePartial | openvpn/src/main/cpp/lz4/lib/lz4.c:2179-2185 | for every block that meets the end conditions, min(target, decoded size) bytes, which are the front of the decoded block |
| BlockApi.DecompressSafeUsingDict | openvpn/src/main/cpp/lz4/lib/lz4.c:2404-2417 | answers as the reference decoder does behind the dictionary, in front of the output or somewhere else |
| BlockApi.StreamDecode.DecompressSafeContinue | openvpn/src/main/cpp/lz4/lib/lz4.c:2322-2359 | answers as the reference decoder does behind the history of the stream, whichever of the three segments cases applies; afterwards that history is the old one and the output, and the places of prefix and external dictionary are stated exactly |
| MatchLength.Count | openvpn/src/main/cpp/lz4/lib/lz4.c:603-626 | counting by eight, four, two and one bytes gives the length of the common prefix up to the limit |
| MatchFinder.FindMatch | openvpn/src/main/cpp/lz4/lib/lz4.c:900-1013 | whatever the hash function and whatever earlier calls have left in the table, in every dictionary mode: a match that is found is genuine, inside the history or the input and at most 65535 back; the search ends as the tables lead it (`SearchFrom`): with the first of the positions tried, in steps that grow, whose entry passes the tests, or without a match |
| MatchLength.CatchUp | openvpn/src/main/cpp/lz4/lib/lz4.c:1016-1019 | moving a match back keeps it genuine, and stops at the anchor, at the start of its segment or at the first difference |
| MatchLength.MatchCode | openvpn/src/main/cpp/lz4/lib/lz4.c:1076-1095 | a match is counted to its full length, through the end of an external dictionary and on from the start of the input, unless the two segments begin at the same address; then what is counted is stated as it is |
| MatchLength.CountingIsRight | openvpn/src/main/cpp/lz4/lib/lz4.c:1079-1090 | with the dictionary at the address of the input, every match within the input is counted right for all bytes if and only if the input has at most 6 bytes more than the dictionary |
| SequenceWriter.WriteMatchLength | openvpn/src/main/cpp/lz4/lib/lz4.c:1118-1136 | token and optional bytes encode the match length, with at most three bytes written too far |
| BlockCompressor.FitMatch | openvpn/src/main/cpp/lz4/lib/lz4.c:1097-1117 | a match that is too long for the output is cut to what leaves room for the last literals, and the table then holds no position from there on |
| BlockCompressor.Compress | openvpn/src/main/cpp/lz4/lib/lz4.c:851-1240 | for every dictionary mode, table type and output mode: the block means the input, or its first `consumed` bytes, behind the history, meets the end conditions and the size bound, and stays inside the output; there is none only if the output was limited and smaller than the bound; the table is fit for later calls; inputs below 13 bytes are stored as literals. Unless the output is to be filled (`Greedy`): every sequence is that of the match which the tables lead to behind the one before, up to where they lead to nothing more; every match goes as far as it can, forward and back; and there is no block exactly if the one for this parse does not fit. If the output is to be filled (`Fills`): behind the sequences there are as many literals as fit. Only if the dictionary begins at the address of the input and the input goes on well behind it, the block can mean something else, or the search lead behind its own position; the first match is then stated as it is counted |
| BlockStream.Stream.PrepareTable | openvpn/src/main/cpp/lz4/lib/lz4.c:805-843 | after it, entries of earlier calls are gone or lie a 64 KB gap below the new indices; a 16-bit table has room for the input |
| BlockStream.Stream.CompressFastExtStateFastReset | openvpn/src/main/cpp/lz4/lib/lz4.c:1316-1351 | on a state as earlier calls have left it: the block means the input without history; it is the one that the search arrives at, or there is none exactly if that does not fit (`Searched`); the state stays reusable |
| BlockStream.CompressFast | openvpn/src/main/cpp/lz4/lib/lz4.c:1354-1370 | the block means the input and is the one that the search arrives at; none only if the size is unsupported, or if that block does not fit and the room is less than LZ4_compressBound |
| BlockStream.CompressDestSize | openvpn/src/main/cpp/lz4/lib/lz4.c:1382-1409 | at most the target is written, and the block means the first `consumed` bytes of the input; with the room of LZ4_compressBound, all of them; if not all, at most one byte of the target is left |
| FillLimits.FilledExactly | openvpn/src/main/cpp/lz4/lib/lz4.c:1203-1217 | for an input in which no byte occurs twice, the block is one of literals, and the target is filled completely, unless all the input fits, if and only if its size is not 16 more than a multiple of 256 |
| FillLimits.OneByteFree | openvpn/src/main/cpp/lz4/lib/lz4.h:205-214 | twenty bytes for a target of 16, for every hash function: 14 are taken, and a byte is left |
| BlockStream.Stream.LoadDict | openvpn/src/main/cpp/lz4/lib/lz4.c:1475-1515 | the last 64 KB are the history; the table holds every third position, or a later one with its slot, and nothing else |
| BlockStream.Stream.AttachDictionary | openvpn/src/main/cpp/lz4/lib/lz4.c:1517-1542 | a stream that was just reset takes over the history of the dictionary stream, and indices leave room for it |
| BlockStream.Stream.RenormDict | openvpn/src/main/cpp/lz4/lib/lz4.c:1545-1562 | indices start again at 64 KB: distances below 64 KB stay what they were, and all other entries are emptied; the history stays the same |
| BlockStream.Stream.TrimDict | openvpn/src/main/cpp/lz4/lib/lz4.c:1580-1597 | the dictionary that is left, exactly; and whether it can be trusted |
| BlockStream.Stream.CompressFastContinue | openvpn/src/main/cpp/lz4/lib/lz4.c:1565-1637 | from any sound state and for every input: the block means the input behind the bytes that the call sees, if its two segments can be told apart, and the input becomes part of the history even if the block did not fit; unless they cannot be told apart, the block is the one that the search arrives at. If the caller has kept the conditions (`Faithful`), the block means the input behind the history, and the state is good again |
| BlockStream.Stream.SaveDict | openvpn/src/main/cpp/lz4/lib/lz4.c:1668-1689 | the end of the window is moved, overlapping or not, and the stream goes on with the same history |
| StreamLimits.CallFails | openvpn/src/main/cpp/lz4/lib/lz4.c:1565-1637 | where a call `Fails`, the bytes that LZ4_compress_fast_continue leaves in its output do not decode to the input behind the history, if it leaves any, whatever the room |
| StreamLimits.OverrunFails | openvpn/src/main/cpp/lz4/lib/lz4.c:1589-1597 | for every place and size of the dictionary and every input of at least 13 bytes that runs over its end, which the overlap check does not notice, in memory of any size: a stream and bytes for which the call `Fails`. With `CompressFastContinue`, whose promise covers all inputs that do not run over the end, the condition is exact |
| StreamLimits.LoadedDictionaryFails | openvpn/src/main/cpp/lz4/lib/lz4.c:1475-1515 | the same in a run from the start: load eight bytes, and an input over their end `Fails` |
| StreamLimits.StaleDictionaryFails | openvpn/src/main/cpp/lz4/lib/lz4.c:1599-1637 | for every attached dictionary, wherever it is and whatever its size, in a run from the start: an empty call, a block of any size from four bytes on at the same place, and every later input of at least 13 bytes `Fails`, because its block copies from the dictionary although that is no longer what precedes |
| StreamLimits.AttachedConfusion | openvpn/src/main/cpp/lz4/lib/lz4.c:1079-1090 | for every attached dictionary, in a run from the start: an input of any size that begins at its address and has at least 7 bytes more `Fails`, because its first match is counted past the end of the dictionary |
| StreamLimits.OwnConfusion | openvpn/src/main/cpp/lz4/lib/lz4.c:1079-1090 | the same for a dictionary that is the block before, whatever that was: an input at its address with at least 7 bytes more `Fails` |
| StreamLimits.RingTooSmall | openvpn/src/main/cpp/lz4/lib/lz4.h:332-332 | for every ring buffer that is smaller than twice the largest input: a stream, and a turn that keeps to the ring, with an input of that size that `Fails` |
| StreamLimits.BeginsRepeats | openvpn/src/main/cpp/lz4/lib/lz4.c:1070-1073 | a block that begins with a match at its second byte stands for a text only behind histories that hold the bytes of the match |
| RoundTrip.RoundTripFast | openvpn/src/main/cpp/lz4/lib/lz4.c:1354-1370 | LZ4_compress_fast and then LZ4_decompress_safe into exactly as many bytes gives the input back, for every hash function, room and acceleration |
| RoundTrip.RoundTripDestSize | openvpn/src/main/cpp/lz4/lib/lz4.c:1399-1409 | LZ4_compress_destSize and then LZ4_decompress_safe gives back the bytes that were consumed, within any target |
| RoundTrip.Link.SendAll | openvpn/src/main/cpp/lz4/lib/lz4.h:318-334 | a whole run of LZ4_compress_fast_continue and LZ4_decompress_safe_continue, in which every call has its own memory, room and output place: as long as the caller keeps the conditions, what comes out is what went in, and a call fails only if it has less room than LZ4_compressBound; empty blocks may be decoded anywhere as long as the window is in the prefix |
| RoundTrip.RingIsEnough | openvpn/src/main/cpp/lz4/lib/lz4.h:332-332 | a ring buffer of any size keeps the conditions if it is twice as large as the largest input; `StreamLimits.RingTooSmall` has the other direction |
| RoundTrip.SeparateIsEnough | openvpn/src/main/cpp/lz4/lib/lz4.h:328-330 | separate buffers used in turn, at least one byte apart, keep the conditions, whatever their sizes |
| RoundTrip.AppendingIsEnough | openvpn/src/main/cpp/lz4/lib/lz4.c:2333-2345 | a decoder whose output is simply continued keeps its conditions |
| DecodeLimits.WindowDecides | openvpn/src/main/cpp/lz4/doc/lz4_Block_format.md:76-79 | a decoder that has another history decodes all blocks as it should if and only if the two histories end alike as far as a match can reach |
| DecodeLimits.EmptyCallKeeps | openvpn/src/main/cpp/lz4/lib/lz4.c:2345-2352 | the history that a decoder is left with after an empty block at another place is as good as the one before, for all bytes, if and only if there was no external dictionary or the prefix alone covers the window |
| DecodeLimits.EmptyCallFails | openvpn/src/main/cpp/lz4/lib/lz4.c:2322-2359 | for all other sizes, in a run from the start: a dictionary, a block apart from it, an empty block somewhere else, and a valid block behind the first one, which is accepted and decoded to something else |
| XxHash.HashInParts32 | openvpn/src/main/cpp/lz4/lib/xxhash.c:452-543 | however the input is cut into updates, the 32-bit digest is the hash of the whole, also when the length wraps |
| XxHash.HashInParts64 | openvpn/src/main/cpp/lz4/lib/xxhash.c:912-1003 | the same for 64 bits |
| XxHashValues.Nothing32 | openvpn/src/main/cpp/lz4/lib/xxhash.c:278-287 | the hash of nothing, as a number |
| XxHashValues.ZeroStripe32 | openvpn/src/main/cpp/lz4/lib/xxhash.c:352-389 | the hash of 16 zero bytes, as a number |
| XxHashValues.CountUp32 | openvpn/src/main/cpp/lz4/lib/xxhash.c:263-389 | the hash of 39 bytes that count up, with a seed, as a number: two stripes with four different lanes, a word and three single bytes |
| XxHashValues.Nothing64 | openvpn/src/main/cpp/lz4/lib/xxhash.c:688-696 | the same for 64 bits: nothing |
| XxHashValues.ZeroStripe64 | openvpn/src/main/cpp/lz4/lib/xxhash.c:810-852 | 32 zero bytes |
| XxHashValues.CountUp64 | openvpn/src/main/cpp/lz4/lib/xxhash.c:666-852 | two stripes, and behind them words of eight and four bytes and single bytes, with a seed |
| XxHash.XXH32 | openvpn/src/main/cpp/lz4/lib/xxhash.c:291-389 | the one-shot loop over stripes, and the switch that falls through its cases for the last bytes, compute the hash that is specified without loops or state |
| XxHash.XXH64 | openvpn/src/main/cpp/lz4/lib/xxhash.c:701-852 | the same for 64 bits |
| FrameFormat.FrameEndsBehindHeader | openvpn/src/main/cpp/lz4/doc/lz4_Frame_format.md:61-80 | a frame ends behind its header and inside the input |
| FrameFormat.RoomMatters | openvpn/src/main/cpp/lz4/lib/lz4frame.c:1520-1530 | with room for its text a frame has the same meaning as without a limit, unless the room is exactly used up in front of a compressed block, which a frame only has there if that stands for nothing (`PackedAtEnd`) |
| FrameDecoder.Dctx.DecodeHeader | openvpn/src/main/cpp/lz4/lib/lz4frame.c:1113-1205 | the header is read, rejected, or found to be too short, exactly as the format says, from the input or from what was stored, whatever the counter of the content held before; that is replaced only if the header announces a size; the dictionary ID is read as well, and an error says something true about these bytes (`Explains`) |
| FrameDecoder.Dctx.GetFrameInfo | openvpn/src/main/cpp/lz4/lib/lz4frame.c:1253-1289 | the header is read and nothing else; a frame that is begun in this way leaves its announced size in the counter; errors as for `DecodeHeader` |
| FrameDecoder.Dctx.UpdateDict | openvpn/src/main/cpp/lz4/lib/lz4frame.c:1295-1362 | whichever of the branches applies, what the dictionary leads to afterwards ends in the last 64 KB of the text so far |
| FrameDecoder.Dctx.Step | openvpn/src/main/cpp/lz4/lib/lz4frame.c:1412-1841 | one stage: it keeps the invariant of the stage it leads to, or says why it stops; and if it goes on, it has taken input or comes to a lower stage |
| FrameDecoder.Dctx.Preserve | openvpn/src/main/cpp/lz4/lib/lz4frame.c:1844-1874 | after it the caller may use its output buffers for something else, and the history is still at hand |
| FrameDecoder.Dctx.Decompress | openvpn/src/main/cpp/lz4/lib/lz4frame.c:1384-1879 | one call from any point of a frame: what it puts out is the next part of the text of the frame; 0 is returned exactly at the end; it stops only for want of input, or of room for output that is there, or in front of a compressed block; an error is that of the first thing that is wrong with the frame (`Reports`). The hint (`Hinted`) is, stage by stage, the rest of the header, block or checksum that the call waits in, with the next block header where the code adds one, and 1 within the checksum of a stored block; it leads no further than the end of the frame, except in the cases of `AsksTooMuch`, and always in these |
| FrameDecoder.Dctx.DecompressUsingDict | openvpn/src/main/cpp/lz4/lib/lz4frame.c:1886-1899 | the same with a dictionary, which is taken as long as no block has begun |
| FrameLimits.HintBehindEnd | openvpn/src/main/cpp/lz4/lib/lz4frame.c:1630-1632 | a run: within the last block of a frame with block checksums and without a content checksum, eight bytes in front of the end, twelve are asked for |
| FrameLimits.AfterReset | openvpn/src/main/cpp/lz4/lib/lz4frame.c:1097-1103 | for all frames and all headers in front of them: after a reset behind a header, the next frame is decoded to its text if the counter was 0 or the new header announces a size, and is rejected with ERROR_frameSize_wrong otherwise |
| FrameLimits.LostFrame | openvpn/src/main/cpp/lz4/lib/lz4frame.c:1197-1198 | such a run: a valid frame that is rejected |
| FrameRun.DecodePieces | openvpn/src/main/cpp/lz4/lib/lz4frame.c:1384-1899 | a frame, cut in any way, into any output buffers, which the caller overwrites after every call, with some calls that bring nothing, on a context that is new or reset with a counter that the frame accepts: the run ends, with the text of the frame and at its end |
| FrameRun.DecodeAtOnce | openvpn/src/main/cpp/lz4/lib/lz4frame.c:1384-1899 | one call with all the input and room for the text puts out the whole text; it does not end the frame if and only if there is not a byte of room to spare and a compressed block comes behind the text; and it is rejected exactly if the counter of the context does not fit the frame |
| FrameLimits.TightCall | openvpn/src/main/cpp/lz4/lib/lz4frame.c:1520-1530 | such a frame: header, a compressed block that stands for nothing, end mark, and no room |
| FrameEncoding.HeaderReadBack | openvpn/src/main/cpp/lz4/lib/lz4frame.c:672-706 | the header that is written is read back with all its fields, the dictionary ID among them, behind which the blocks follow |
| FrameValues.ShortHeader | openvpn/src/main/cpp/lz4/lib/lz4frame.c:672-706 | the seven bytes of a header without optional fields, as numbers |
| FrameValues.LongHeader | openvpn/src/main/cpp/lz4/lib/lz4frame.c:672-706 | the nineteen bytes of a header with flags, content size and dictionary ID, as numbers |
| FrameEncoding.FrameReadBack | openvpn/src/main/cpp/lz4/lib/lz4frame.c:740-763 | header, blocks that stand for the text in their block mode, stored or compressed, and the suffix are a frame of that text |
| FrameEncoding.UpdateBoundCovers | openvpn/src/main/cpp/lz4/lib/lz4frame.c:324-349 | the bound without a context is at least the bound for any amount that is buffered |
| FrameEncoder.Cctx.MakeBlock | openvpn/src/main/cpp/lz4/lib/lz4frame.c:740-763 | one block that a decoder turns into the input behind the history: the answer of the block compressor within n - 1 bytes, and stored exactly if that has none; n equal bytes, from 13 on, take at most n/255 + 11 bytes and the block header and checksum, for every hash function; the linked stream carries on in both cases |
| EqualBytes.EqualBytesAreShort | openvpn/src/main/cpp/lz4/lib/lz4.c:900-1136 | a block for n equal bytes, from 13 on, has at most n/255 + 11 bytes, and there is one if there is that much room, whatever the hash function and the tables |
| FrameEncoder.Cctx.LocalSaveDict | openvpn/src/main/cpp/lz4/lib/lz4frame.c:809-814 | the window moves to the front of the buffer, with the stream |
| FrameEncoder.Cctx.CompressUpdate | openvpn/src/main/cpp/lz4/lib/lz4frame.c:825-926 | after it the blocks that were put out stand for all the input but what is buffered; it writes no more than the bound less the frame end; it fails exactly if there is no frame or the room is below the bound |
| FrameEncoder.Cctx.Flush | openvpn/src/main/cpp/lz4/lib/lz4frame.c:938-975 | nothing is buffered afterwards, and the blocks stand for all the input |
| FrameEncoder.Cctx.CompressEnd | openvpn/src/main/cpp/lz4/lib/lz4frame.c:986-1022 | the suffix follows; a content size that was announced and not met is an error |
| FrameEncoder.Cctx.CompressBegin | openvpn/src/main/cpp/lz4/lib/lz4frame.c:598-707 | the header is out, with all fields of the preferences, and the encoder is in front of the first block with the dictionary it was given |
| FrameEncoder.Cctx.CompressFrameUsingCDict | openvpn/src/main/cpp/lz4/lib/lz4frame.c:373-419 | it succeeds for every room of at least LZ4F_compressFrameBound for the preferences of the caller, before they are adjusted, and what it writes is a frame of the input, whose header carries the dictionary ID of the caller, the size of the input if the caller asks for a content size, the checksum flags, and the block size and links as adjusted (`Headed`) |
| FrameEncoder.CompressFrame | openvpn/src/main/cpp/lz4/lib/lz4frame.c:429-467 | the same without a dictionary, on a context of its own |
| FrameEncoder.CreateCDict | openvpn/src/main/cpp/lz4/lib/lz4frame.c:490-512 | a dictionary stream that can be attached, with the last 64 KB of what it was given |
| FrameRoundTrip.EncodePieces | openvpn/src/main/cpp/lz4/lib/lz4frame.c:598-1022 | input that comes in pieces into one buffer that is used again, flushed anywhere, becomes a frame of the whole input |
| FrameRoundTrip.SendFrame | openvpn/src/main/cpp/lz4/lib/lz4frame.c:598-1899 | that frame, decoded piece by piece in any way, gives the input back |
| HcLimits.ReadsBehind | openvpn/src/main/cpp/lz4/lib/lz4hc.c:293-335 | for all indices that leave room for it, and all numbers of attempts from two on: contents of memory and tables with which the search reads behind the dictionary |
| HcLimits.OverreadInRun | openvpn/src/main/cpp/lz4/lib/lz4hc.c:1291-1312 | two blocks at different places, compressed with the hash of the library, and a search in the second that reads behind the first |
| HcSearch.BetterChain | openvpn/src/main/cpp/lz4/lib/lz4hc.c:316-331 | the sampling loop returns the distance of one of the chains along the match, never a shorter one than that of the candidate itself |
| HcSearch.Stepped | openvpn/src/main/cpp/lz4/lib/lz4hc.c:408-409 | following the chain of the candidate, or without an external dictionary that of any place in the match, no candidate that could give a longer match is passed over |
| HcSearch.PatternStep | openvpn/src/main/cpp/lz4/lib/lz4hc.c:349-405 | the shortcut for repeated bytes, through the end of the dictionary and around its last three bytes: the match it takes without comparing is genuine, no candidate that it passes over is better than the one it goes to, and its overflow guards never fire |
| HcSearch.SearchChain | openvpn/src/main/cpp/lz4/lib/lz4hc.c:274-411 | the whole search from any head of a chain, with all shortcuts: sound in every case, whatever bytes lie behind the dictionary; exhaustive if the tables are up to date and attempts are left, with the jump to other chains if there is no external dictionary; and reading behind the dictionary only where there is room for that |
| HcMatchFinder.HcContext.Insert | openvpn/src/main/cpp/lz4/lib/lz4hc.c:118-136 | every position goes in front of the chain of its hash, and the tables stay up to date with the memory |
| HcMatchFinder.HcContext.SetExternalDict | openvpn/src/main/cpp/lz4/lib/lz4hc.c:1083-1099 | the prefix becomes the dictionary, without the positions at which four bytes cannot be read; the tables stay up to date |
| HcMatchFinder.HcContext.InsertAndGetWiderMatch | openvpn/src/main/cpp/lz4/lib/lz4hc.c:235-443 | for every hash function, in prefix and dictionary, also moving back: a match that is found is genuine, inside the limits and at most 65535 back, even if memory has changed since positions were inserted; if it has not and attempts are left, no match is longer, with `chainSwap` if there is no external dictionary; with more attempts than indices in reach some always are left; it reads behind the dictionary only if the indices leave room for that, and does if the chains lead there |
| HcMatchFinder.HcContext.InsertAndFindBestMatch | openvpn/src/main/cpp/lz4/lib/lz4hc.c:445-458 | the longest match of at least four bytes, or none if there is none, if attempts are left |
| HcMatchFinder.HcContext.FindLongerMatch | openvpn/src/main/cpp/lz4/lib/lz4hc.c:1291-1312 | the same above a given length, with both shortcuts and whatever dictionary is there, shortened to 18 if that is easier to decode |
| HcMatchFinder.HcContext.InitInternal | openvpn/src/main/cpp/lz4/lib/lz4hc.c:100-114 | a new space behind all indices that were used before, so that nothing in the tables leads into it; the tables are cleared beyond 1 GB |
| HcMatchFinder.MatchDecodes | openvpn/src/main/cpp/lz4/lib/lz4hc.c:235-443 | a decoder behind the text before the match copies it to the text that follows |
| HcParser.EncodeSequence | openvpn/src/main/cpp/lz4/lib/lz4hc.c:463-544 | a match that can be written, behind literals: the block so far then stands for the input up to the end of the match; it is refused only if the output is smaller than LZ4_compressBound |
| HcParser.StepSecond | openvpn/src/main/cpp/lz4/lib/lz4hc.c:595-621 | the lazy parser with one match in hand: whatever the search finds, the matches it goes on with are genuine, at least four bytes long, behind what is written and far enough from the end of the input; with enough attempts, it is written whole only if no longer one begins two or three bytes before its end |
| HcParser.StepThird | openvpn/src/main/cpp/lz4/lib/lz4hc.c:623-727 | the same with two or three overlapping matches, which are shifted, cut, dropped or written: none ever becomes shorter than four bytes, and the search moves on |
| HcParser.CompressHashChain | openvpn/src/main/cpp/lz4/lib/lz4hc.c:549-784 | for every hash function, all tables, all numbers of attempts: the block means the input behind the dictionary and the prefix; it is that of a parse, or there is none exactly if that does not fit (`Lazily`). With tables that are up to date and more attempts than indices in reach, the parse is attentive (`AllPrompt`): a sequence has at most two literals where a match could have begun, and two or three bytes before the end of the match in front of them no longer one begins; or it follows at most four bytes behind the match before it; behind the last one there is no match. n equal bytes become at most n/255 + 11 bytes |
| HcOptimal.UseMatch | openvpn/src/main/cpp/lz4/lib/lz4hc.c:1463-1496 | every entry of the table of ways that a match opens or makes cheaper is the end of a genuine match, which begins at an earlier position; the last position is that of a match that was tried; afterwards no length of the match leads to a way that is cheaper than the one in the table, no price has risen, and the match ends at most three positions behind the last one |
| HcOptimal.Explore | openvpn/src/main/cpp/lz4/lib/lz4hc.c:1412-1511 | whatever the prices are: all positions up to the last one have such an entry, within the array, and the choice for the walk back is one that can be written. With tables that are up to date, enough attempts and no dictionary, every position has been looked at (`Looked`): the next one costs no more, or no match in reach leads more than three positions behind the last one, and, at the highest level, none leads to a cheaper way, except perhaps in its last three bytes; unless a match that is long enough is taken at once, which is the longest one |
| HcOptimal.Reverse | openvpn/src/main/cpp/lz4/lib/lz4hc.c:1514-1532 | the walk back from the choice ends at the first position, and leaves a way forth to the same place |
| HcOptimal.CompressOptimal | openvpn/src/main/cpp/lz4/lib/lz4hc.c:1314-1615 | the same as for the lazy parser: the block means the input behind the dictionary and the prefix, and is that of a parse, or none exactly if that does not fit (`Optimally`). With tables that are up to date, enough attempts and no dictionary, the parse is eager (`AllSoon`): the first sequence begins at most three positions behind the first match, and where literals go on for more than 4096 positions behind a match, there is none in the rest of them. n equal bytes become at most n/255 + 11 bytes if the match is longer than what the level calls sufficient |
| HcStream.StreamHC.CompressExtStateFastReset | openvpn/src/main/cpp/lz4/lib/lz4hc.c:935-945 | on a state as earlier calls have left it, at every level: the block means the input without history, and is that of a parse, or none exactly if that does not fit; the parse is attentive or eager if the input is no longer than the number of attempts (`Answers`); n equal bytes become at most n/255 + 11 bytes (`OneMatch`) |
| HcStream.StreamHC.LoadDict | openvpn/src/main/cpp/lz4/lib/lz4hc.c:1056-1075 | the last 64 KB become the history |
| HcStream.StreamHC.CompressContinue | openvpn/src/main/cpp/lz4/lib/lz4hc.c:1102-1144 | at every level, wherever the input is: the block means the input behind the history, if nothing but the input has replaced bytes of the last 64 KB; it fails only for want of room, and the input becomes part of the history in any case. Beyond 2 GB the stream starts anew behind the end of its prefix |
| HcStream.StreamHC.SaveDict | openvpn/src/main/cpp/lz4/lib/lz4hc.c:1158-1178 | the end of the prefix is moved, overlapping or not, and the stream goes on with the same history |
| HcRoundTrip.RoundTripHC | openvpn/src/main/cpp/lz4/lib/lz4hc.c:947-967 | LZ4_compress_HC and then LZ4_decompress_safe gives the input back, for every level, hash function and room |
| HcRoundTrip.SendInputs | openvpn/src/main/cpp/lz4/lib/lz4hc.h:112-133 | a whole run of LZ4_compress_HC_continue and LZ4_decompress_safe_usingDict, in one memory in which the caller writes nothing but the inputs, wherever they are: what comes out is what went in |
| HcRoundTrip.RingWritesInputs | openvpn/src/main/cpp/lz4/lib/lz4hc.h:115-117 | a ring buffer of any size that an input fits into is such a memory |
| HcMatchFinder.ParsePriceIsSize | openvpn/src/main/cpp/lz4/lib/lz4hc.c:1259-1283 | the prices of the sequences and last literals of a parse, which the optimal parser adds up, are the size of the block that is written for it |

## Left out

- CompressFastContinue: `Sound` allows the states that the calls of this model lead to. In an `Ambiguous` call a
  miscounted match can make the search go on with entries of the table that lie behind its own position, where the
  code asserts `matchIndex < current` (`lz4.c:1002`); the model then stops, with `lost` and without a block.
- OverrunFails: its stream is one that `Valid` allows, not one that a run of calls was shown to lead to; `LoadedDictionaryFails` has such a run.
  Calls that renormalise their indices are not among those that are shown to fail.
- OwnConfusion: dictionaries of four bytes, and inputs of 13 bytes, for which an input at the same address is not shown to fail.
- DecompressSafeContinue: the output may not overlap the segments that are kept, so decoder ring buffers in
  which a block overwrites the oldest part of its own window are not covered.
- Acceptance of malformed blocks: a match of offset 0, and lengths that a 32-bit counter cannot hold, are
  `Unspecified`; for other malformed blocks an error is not promised either, only that no wrong
  output is claimed to be right.
- FrameEncoder: levels of LZ4HC_CLEVEL_MIN and above, which go to the compressor in `HcStream`; input that lies
  directly behind the encoder's own buffer; sizes beyond 256 TB.
- CompressBegin: the place of a newly allocated buffer is a parameter, since allocation is not modelled; so is the failure of malloc.
- Checksums in frames: the running hash is kept as the bytes that were fed to it, and compared through
  the one-shot hash; that the two agree is the result of `XxHash`.
- InsertAndGetWiderMatch: without a dictionary context (`lz4hc.c:413-440`). `iLowLimit + longest` has to lie behind `ip`, as
  its callers see to. With `chainSwap` and an external dictionary it is sound but not shown to be exhaustive: the last three positions of the
  dictionary are in no chain, so that a match across them can be passed over, and the chain can stand still there.
- ReadsBehind: its tables are some that `Valid` allows; `OverreadInRun` has tables that a run leads to.
- PatternStep: a pattern is one repeated byte, which is all that its caller confirms; the counting functions
  also serve patterns of two and four bytes.
- CompressOptimal: that the way which is taken is the cheapest of all. `Looked` is about the prices in the table, and they are not
  tied to the size of the way: an entry keeps its number of literals when the way in front of it changes. With `favorDecSpeed`, which skips matches
  nearer than 8 bytes, and with an external dictionary, `Optimally` does not say that matches are used.
- CompressDestSize: that matches are used when an output is filled; `Fills` is about what follows them.
- CompressHashChain: output that is to be filled (`LZ4_compress_HC_destSize`), here and in `CompressOptimal`. Without enough attempts, or with tables that are not up to date, `Lazily` does not say that matches are used. How
  overlapping matches are cut is stated only as far as all of them stay genuine and at least four bytes long.
- CompressContinue: `LZ4_attach_HC_dictionary`, and a NULL buffer in `SaveDict`.
- Big-endian machines, 32-bit `byPtr` tables, alignment, and the deprecated `LZ4_decompress_fast*` functions.
- LZ4F_getFrameInfo behind the header of a frame, and version checks: they would add easy members.
- Everything outside the LZ4 library.
