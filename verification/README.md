# Verified models of the LZ4 codec, ADIOS and BBRv3

This project models four parts of the kernel build repository in Dafny and proves what they promise. Each
part keeps the form of its source: methods with loops over arrays and cursors for the codec, classes with
mutable fields for the stream state, the HC index, the I/O scheduler and the congestion control, and plain
functions where the source only computes. `dafny verify dfyconfig.toml` checks everything.

## The four parts

**LZ4 block codec** (`lib/lz4/lz4.c`). `Lz4Format` is the meaning of a block: how bytes are read, what a
match copies, what a block decodes to behind a history, and when it keeps the end-of-block rules. Everything
else is stated against it. `Lz4Copy` holds the overshooting copies, `Lz4Decoder` the decoder with its fast
loop, shortcut, partial mode and dictionary modes, `Lz4PlainDecoder` the byte-at-a-time decoder,
`Lz4Emit` and `Lz4Compressor` the greedy compressor in its three output modes, `Lz4Stream` and
`Lz4StreamDecoder` the states that live across calls. `Lz4Accept` is a walk over lengths and positions that says
exactly which blocks the optimised decoder accepts. `Lz4RoundTrip` joins both sides. A decoding job is
described by a ghost goal, the meaning of the whole block; every intermediate state says that the rest of the
input, decoded behind the output so far, still has this meaning. The compressor is proved for every content of
the hash table that keeps the index invariant, so nothing depends on the hash function.

**LZ4HC** (`lib/lz4/lz4hc.c`). `Lz4hcSearch` is the index with its 16-bit wrapping chain and the search
along it, compared with a plain scan for same-hash positions. `Lz4hcLazy` is the parser that juggles three
overlapping matches; its labels are an explicit control state, and an invariant for each label says which
matches are true and where they may start. `Lz4hcOptimal` is the parser with a price table that is reversed in
place. `Lz4hcMid` is the two-table parser of levels 1 and 2. `Lz4hc` has the level table and the state that is
reused and streams contiguous blocks, and `Lz4hcRoundTrip` joins all levels to the decoder.

**ADIOS** (`block/adios.c`, added by `patches/adios_ioscheduler_6.6.patch`). `AdiosQueues` has the deadline
tree as an ordered list of FIFO groups and the packed in-flight word, `Adios` the scheduler as a class, one
method a driver call, with ghost histories of what was inserted, dispatched, merged and completed. The order of
barriers is proved through ranks: a request gets the number of barriers before it, and dispatching never goes
back in rank. `AdiosRun` states the results for whole runs.

**BBRv3** (`tcp_bbr3.c`, added by `patches/BBRV3/bbrv3-android12-5.10-lts.patch`). `Bbr` is the per-connection
state with modes, PROBE_BW phases, the two-slot maximum filter, short-term bounds and the loss arithmetic.
A ghost sequence of phases entered is proved to be a walk along the state diagram.

Inputs the models take as they come: clocks, random waits, the congestion window and rate samples of BBR; the
predicted latencies, the settings and the merge decisions of the block layer for ADIOS, and the direction of its
elevator; the memory contents around the buffers of the codec. The machine is a little-endian one with 64-bit
words, and the fast decoding loop is on, as `lib/lz4/Makefile` asks.

## Where the code differs from what is said about it

- ADIOS tests barriers with `cmd_flags & REQ_OP_FLUSH`. REQ_OP_FLUSH is the number 2, not a mask, so discards
  (number 3) are barriers as well. The model follows the code.
- The ADIOS comment promises that requests before a barrier have completed. The code only orders dispatch:
  `AdiosRun.BarrierBeforeCompletion` dispatches a barrier with an earlier request on the device. The promise holds
  exactly when the device is empty at the release (`AdiosRun.ReleaseAndCompletion`).
- The ADIOS comment puts `prio_queue[0]` first. The code takes queue 1 first when both have requests.
- In elevator order ADIOS sorts queue 1 of a page only when more than one write was taken, although the queue
  holds every request that may wait. Sortedness is proved under that condition.
- ADIOS releases a barrier only when trees and pages are empty, so with calls as atomic steps its order holds;
  insertions at the head, and those before the models are stable, are outside it by design.
- The safe LZ4 decoder accepts some blocks that break the end rules: through its shortcut
  (`Lz4Accept.ShortcutIsLenient`) and when the capacity is larger than the output (`Lz4Accept.CapacityIsLenient`).
  What it accepts is exactly what the walk of `Lz4Accept` accepts, and `Lz4Accept.AcceptedConforms` says which of
  these blocks conform.
- With an output size of 0 the LZ4 decoder accepts only the one-byte block 0 and refuses the other conforming blocks
  without output (`Lz4Accept.RefusedAtZero`, `Lz4Accept.BlocksWithoutOutput`).
- The packed word of ADIOS loses its meaning for good only when 65536 requests are counted at once; an overflow of
  its fields heals when enough requests complete (`AdiosQueues.InStep`, `Adios.WordIsExact`).
- After an input above LZ4_MAX_INPUT_SIZE a stream state counts a dictionary larger than its index
  covers. The documentation calls the state undefined after an error (`lib/lz4/lz4.h:486`), and the model promises
  nothing about it either.
- The bound that BBR computes from a lost packet may be one above what was in flight; with 5427 packets in
  flight, 106 lost and a packet of 102 segments it is.
- `bbr_inflight_with_headroom` compares as signed 32-bit numbers, so a bound above 31 bits counts as small.

## Model

| member | source | states |
|---|---|---|
| `Lz4Format.ConformingDecodes` | lib/lz4/lz4.c:191-203 | a block that keeps the end-of-block rules against an output length decodes completely, to exactly that length |
| `Lz4Format.EncodeDecodes` | lib/lz4/lz4.c:1226-1393 | the bytes written for any list of sequences and a last run decode, behind any history, to that history, the expansion of the sequences and the run; with the end rules kept the block conforms |
| `Lz4Format.ConformAll` | lib/lz4/lz4.c:1274-1281 | a block conforms when its last part does and every sequence before it leaves the margins of the end rules |
| `Lz4Format.CopyMatchUnique` | lib/lz4/lz4.c:2919-2956 | the byte-at-a-time match copy is the only extension of the output in which every new byte repeats the one `offset` before it, so every way of copying that achieves this is that copy |
| `Lz4Format.MoreHistory` | lib/lz4/lz4.c:2380-2968 | older history never changes the meaning of a block, once decoding succeeded or 65535 bytes of history are there |
| `Lz4Format.MoreHistoryConforms` | lib/lz4/lz4.c:2380-2968 | older history never makes a block conform or stop conforming |
| `Lz4Format.LengthBytesSize` | lib/lz4/lz4.c:1248-1253 | a length continued in bytes of 255 takes v / 255 + 1 bytes |
| `Lz4Format.ParseSequence` | lib/lz4/lz4.c:2204-2323 | reading a written sequence gives back its literals, offset and match length, and ends where it ends |
| `Lz4Copy.WildCopy8From` | lib/lz4/lz4.c:421-433 | strides of 8 bytes from the input write exactly the wanted bytes and touch nothing beyond the next multiple of the stride |
| `Lz4Copy.WildCopy32From` | lib/lz4/lz4.c:484-497 | the same for strides of 32 bytes |
| `Lz4Copy.WildCopy8` | lib/lz4/lz4.c:421-433 | inside the output, at a distance of at least 8, strides of 8 equal the forward copy of one byte at a time, with a bounded overshoot |
| `Lz4Copy.WildCopy32` | lib/lz4/lz4.c:484-497 | inside the output, at a distance of at least 16, strides of two 16-byte halves equal the forward byte copy, with a bounded overshoot |
| `Lz4Copy.StartMatch` | lib/lz4/lz4.c:2919-2935 | the 4 + 4 byte start driven by the two tables writes the bytes of the forward copy for every offset below 8, and leaves a source that is a whole number of periods, at least 8 bytes, behind |
| `Lz4Copy.CopyUsingOffsetBase` | lib/lz4/lz4.c:455-482 | start and strides together equal the forward byte copy for every offset of at least 1; the overshoot is bounded |
| `Lz4Copy.CopyUsingOffset` | lib/lz4/lz4.c:502-541 | the same through the repeated 8-byte pattern for offsets 1, 2 and 4, at most 12 bytes beyond the end |
| `Lz4Copy.Pattern` | lib/lz4/lz4.c:508-533 | the pattern starts with the period and repeats it over 8 bytes |
| `Lz4Copy.Extend` | lib/lz4/lz4.c:2919-2956 | a stride from several periods back continues a repetition of the period itself |
| `Lz4Decoder.DecompressGeneric` | lib/lz4/lz4.c:2380-2968 | for any input bytes: it ends, reads and writes only the given ranges, returns at most the output size; what it returns without error is the meaning of the block (a prefix of it in partial mode) unless an offset is 0; a conforming block gives the smaller of its size and the output size in partial mode, and its exact size decoding in full if it fits, but for capacity 0, where exactly the byte 0 is accepted and everything else gives -1; and decoding in full, the size returned and the refusal are exactly those of the walk over lengths and positions |
| `Lz4Decoder.DecompressBlock` | lib/lz4/lz4.c:2407-2968 | fast loop and safe loop together end in a final state or report an error, the latter never for a conforming block |
| `Lz4Decoder.FastLoop` | lib/lz4/lz4.c:2443-2640 | each exit of the loop with overshooting copies hands over a state from which the remaining input still means the same, and an error is never reported for a conforming block |
| `Lz4Decoder.SafeLoop` | lib/lz4/lz4.c:2642-2962 | the loop for the end of the block ends in a final state or with an error, never an error for a conforming block |
| `Lz4Decoder.ReadVariableLength` | lib/lz4/lz4.c:2334-2370 | reads the 255-continued length of the format, and fails only if that length runs beyond the limit |
| `Lz4Decoder.Shortcut` | lib/lz4/lz4.c:2652-2700 | the two-stage shortcut stays inside both buffers and either completes the sequence or leaves its match to the general path |
| `Lz4Decoder.SafeLiteralCopy` | lib/lz4/lz4.c:2719-2822 | literals near the end are copied exactly, cut to what fits in partial mode; otherwise the run must be the last of the block, and an error never concerns a conforming block |
| `Lz4Decoder.SafeMatchCopy` | lib/lz4/lz4.c:2841-2960 | a match near the end is copied as the format says, within the buffer, whether it starts in the dictionary, crosses into the prefix or lies in the output |
| `Lz4Decoder.CopyFromDict` | lib/lz4/lz4.c:2859-2890 | a match that starts in the external dictionary and may run on into the output equals the byte copy over dictionary and output joined |
| `Lz4Decoder.PartialMatchCopy` | lib/lz4/lz4.c:2897-2917 | in partial mode a match is cut where the output ends; what is there is a prefix of the full decoding |
| `Lz4Decoder.CopyMatchNearEnd` | lib/lz4/lz4.c:2936-2956 | a match that ends close to the end of the buffer is copied exactly without a byte beyond the end |
| `Lz4Accept.ConformingVerdict` | lib/lz4/lz4.c:2407-2968 | the walk that says what the decoder accepts agrees with conformance: a conforming block reaches its size if it fits and there is room or the block is the byte 0, and at capacity 0 every other one is refused |
| `Lz4Accept.BlocksWithoutOutput` | lib/lz4/lz4.c:2421-2426 | the blocks that conform with no output are exactly the single bytes below 16 |
| `Lz4Accept.RefusedAtZero` | lib/lz4/lz4.c:2421-2426 | each of these conforms, and at capacity 0 all but the byte 0 are refused |
| `Lz4Accept.AcceptedConforms` | lib/lz4/lz4.c:2642-2962 | an accepted block without a bad offset conforms exactly when its sequences keep the end rules: a match starts 12 bytes and ends 5 bytes before the end |
| `Lz4Accept.ShortcutIsLenient` | lib/lz4/lz4.c:2652-2700 | for any 14 literals, the 18-byte block with a match of four at distance 8 behind them is accepted at capacity 32 and does not conform, as the match ends the block |
| `Lz4Accept.CapacityIsLenient` | lib/lz4/lz4.c:2719-2822 | a block whose last match starts too close to the end of its output is accepted when the capacity is larger, and does not conform |
| `Lz4Accept.FarEnough` | lib/lz4/lz4.c:3028-3037 | history beyond 65535 bytes makes no difference to what is accepted |
| `Lz4PlainDecoder.PlainIffConforming` | lib/lz4/lz4.c:2204-2323 | the plain decoder accepts a prefix of the input as a block of the wanted size if and only if that prefix conforms, and then yields its meaning |
| `Lz4PlainDecoder.AcceptedConforms` | lib/lz4/lz4.c:2204-2323 | whatever the plain decoder accepts conforms and decodes to its output |
| `Lz4PlainDecoder.ConformingAccepted` | lib/lz4/lz4.c:2204-2323 | whatever conforms is accepted, with the number of bytes it occupies |
| `Lz4PlainDecoder.DecompressUnsafe` | lib/lz4/lz4.c:2204-2323 | the in-place loop writes the output of that decoder and nothing else, and returns the consumed size, or -1 when it rejects |
| `Lz4Emit.EmitLiterals` | lib/lz4/lz4.c:1226-1263 | token, length and literals are those of the format; the overshoot of the copy is at most 8 bytes |
| `Lz4Emit.EmitMatchLength` | lib/lz4/lz4.c:1380-1391 | the 4-byte writes of 255 leave exactly the length bytes and overshoot by at most 3 |
| `Lz4Emit.EmitMatch` | lib/lz4/lz4.c:1283-1393 | offset and match length complete the sequence whose token was written before, changing only the low half of the token |
| `Lz4Emit.EmitLast` | lib/lz4/lz4.c:1493-1528 | the last run is written exactly |
| `Lz4Compressor.CommonBytes` | lib/lz4/lz4.c:547-664 | the first differing byte of two words: that many bytes agree, the next one does not |
| `Lz4Compressor.Count` | lib/lz4/lz4.c:666-704 | the count of word steps and tails is the length of the longest common prefix up to the limit |
| `Lz4Compressor.TryEntry` | lib/lz4/lz4.c:1189-1209 | for every table content that keeps the index invariant, an accepted entry is a true four-byte match at distance 1..65535 inside the history; stale entries of earlier inputs fail one of the tests |
| `Lz4Compressor.Search` | lib/lz4/lz4.c:1084-1213 | the skipping search ends with a true match or with too little input left, and the table keeps its invariant |
| `Lz4Compressor.CatchUp` | lib/lz4/lz4.c:1214-1225 | widening a match backwards keeps it true, at the same distance, and does not leave dictionary, prefix or the open literals |
| `Lz4Compressor.DictMatchCode` | lib/lz4/lz4.c:1298-1322 | a match that runs out of the dictionary into the current input is counted to its full length, across the seam |
| `Lz4Compressor.MatchCode` | lib/lz4/lz4.c:1292-1334 | the match is true over its whole length and cannot be extended, except by the end rules |
| `Lz4Compressor.FitMatch` | lib/lz4/lz4.c:1336-1373 | a match is shortened only when the output is to be filled, then to exactly the length whose bytes fill it, and entries beyond it leave the table |
| `Lz4Compressor.ClearAhead` | lib/lz4/lz4.c:1352-1373 | positions that the shortened match no longer covers are dropped, so no entry lies ahead of the cursor |
| `Lz4Compressor.TestNextPosition` | lib/lz4/lz4.c:1428-1487 | the position behind a match is accepted as the start of the next one only when that is a true match |
| `Lz4Compressor.EncodeMatches` | lib/lz4/lz4.c:1265-1490 | a chain of matches without literals between keeps the block a list of true sequences that tile the input so far, within the bound |
| `Lz4Compressor.LastRun` | lib/lz4/lz4.c:1493-1515 | the last run is cut only to fill the output, and then still leaves the margins of the end rules |
| `Lz4Compressor.FittedRun` | lib/lz4/lz4.c:1497-1507 | the length to which the run is cut fits the room, and keeps five and eight bytes where there is room for them |
| `Lz4Compressor.EncodeLast` | lib/lz4/lz4.c:1493-1534 | the block is complete: a conforming encoding of the consumed input, within the bound; nothing is returned only when the limited output is smaller than the worst case |
| `Lz4Compressor.SequenceSize` | lib/lz4/lz4.h:253-256 | one sequence costs at most its own share of n + n/255, so the bound carries over from prefix to prefix |
| `Lz4Compressor.CompressValidated` | lib/lz4/lz4.c:994-1534 | for every hash table content that keeps the index invariant and in all three output modes: the block encodes exactly the consumed input, no byte beyond the bound or the capacity is touched, the size is at most n + n/255 + 16 or the capacity, and the table keeps its invariant |
| `Lz4Stream.Stream.constructor` | lib/lz4/lz4.c:1811-1826 | a new stream is empty and has no entries |
| `Lz4Stream.Stream.PrepareTable` | lib/lz4/lz4.c:945-986 | after preparation the table is either cleared or all its entries are farther back than any match may reach; 16-bit indexes have room for the input |
| `Lz4Stream.Admissible` | lib/lz4/lz4.c:1189-1203 | entries left by earlier inputs are harmless: out of reach, below the prefix limit, or in the history, so the compressor may be run on them |
| `Lz4Stream.EntriesAfter` | lib/lz4/lz4.c:861-884 | after a call every entry lies below the new offset and fits its width |
| `Lz4Stream.Stream.CompressGeneric` | lib/lz4/lz4.c:1540-1574 | sizes, errors and the block as promised, for empty, oversized and ordinary inputs; offset and dictionary size advance by the input |
| `Lz4Stream.Stream.CompressFastExtState` | lib/lz4/lz4.c:1576-1625 | a block that encodes the input, within the capacity; success is certain from the worst-case size on |
| `Lz4Stream.Stream.CompressFastReset` | lib/lz4/lz4.c:1634-1702 | the same on a state that earlier compressions have used, which stays usable |
| `Lz4Stream.Stream.ResetFast` | lib/lz4/lz4.c:1834-1838 | a reset leaves a state that streaming can continue from |
| `Lz4Stream.Stream.CompressDestSize` | lib/lz4/lz4.c:1722-1758 | never more than the target; the block encodes exactly the consumed prefix; with a target of the worst case all input is consumed |
| `Lz4Stream.Stream.Renorm` | lib/lz4/lz4.c:1960-1981 | when the indexes would overflow, live entries keep their distance, dead ones become unreachable, and the dictionary keeps its end; otherwise nothing changes |
| `Lz4Stream.Stream.DropUnusable` | lib/lz4/lz4.c:2007-2035 | a dictionary that is too small or is overwritten by the source is given up, one that continues into the source is kept |
| `Lz4Stream.Stream.CompressBlock` | lib/lz4/lz4.c:2037-2101 | one block after the choice of dictionary mode: it encodes the input behind the remembered history |
| `Lz4Stream.Stream.CompressFastContinue` | lib/lz4/lz4.c:1983-2101 | for any number of calls: the block encodes the source behind a suffix of what was remembered, the whole of it or its last 64 KB when the source follows on, and the state stays valid across renormalisation |
| `Lz4StreamDecoder.DecompressSafe` | lib/lz4/lz4.c:2996-3004 | writes only the capacity; the result is the meaning of the block; a conforming block that fits gives its size, but at capacity 0 only the byte 0 does and the others are refused; what is accepted, and with which size, is exactly what the walk says |
| `Lz4StreamDecoder.DecompressSafePartial` | lib/lz4/lz4.c:3006-3015 | a conforming block of size n gives min(n, target, capacity) bytes, and they are that prefix of the full decoding |
| `Lz4StreamDecoder.StreamDecode.constructor` | lib/lz4/lz4.c:3138-3143 | no history at first |
| `Lz4StreamDecoder.StreamDecode.SetStreamDecode` | lib/lz4/lz4.c:3161-3178 | the given dictionary becomes the prefix |
| `Lz4StreamDecoder.StreamDecode.Continue` | lib/lz4/lz4.c:3208-3263 | in all four modes the block is decoded behind prefix and external dictionary, and accepted exactly as the walk behind that much history says; the history becomes what was decoded, or the old prefix becomes the dictionary; failures change nothing of it |
| `Lz4StreamDecoder.StreamDecode.Rolling` | lib/lz4/lz4.c:3226-3250 | when the block follows on, each of the three ways of passing the history decodes behind the same history |
| `Lz4StreamDecoder.StreamDecode.Elsewhere` | lib/lz4/lz4.c:3251-3261 | when the block lies elsewhere, the old prefix becomes the external dictionary and is the whole history |
| `Lz4StreamDecoder.SameWindow` | lib/lz4/lz4.c:3028-3037 | decoding with the last 64 KB gives what decoding with the whole history gives |
| `Lz4RoundTrip.EncodedDecodes` | lib/lz4/lz4.c:2996-3004 | whatever a decoder that keeps its contract returns for an encoding of `input` is `input` |
| `Lz4RoundTrip.EncodesBehind` | lib/lz4/lz4.c:1983-2101 | an encoding behind a part of the history is one behind the whole history |
| `Lz4RoundTrip.BlockRoundTrip` | lib/lz4/lz4.c:1704-1720 | for every input, acceleration and capacity: if the compressor succeeds, and it does from the worst-case capacity on, decoding gives back the input |
| `Lz4RoundTrip.ReuseRoundTrip` | lib/lz4/lz4.c:1634-1702 | the same on any valid reused state, which is valid again afterwards |
| `Lz4RoundTrip.DestSizeRoundTrip` | lib/lz4/lz4.c:1760-1783 | fill-output mode: the block is within the target and decodes, into a buffer of exactly that size, to exactly the consumed prefix |
| `Lz4RoundTrip.PartialRoundTrip` | lib/lz4/lz4.c:3006-3015 | partial decoding of a compressed input gives its first min(target, n) bytes |
| `Lz4RoundTrip.DecodersAgree` | lib/lz4/lz4.c:2204-2323 | where the plain decoder accepts, the fast one gives the same size and bytes on the consumed part; where it rejects, no prefix of the input is a conforming block of that size |
| `Lz4RoundTrip.SendBlock` | lib/lz4/lz4.c:1983-2101 | one block of a contiguous stream into any capacity: the encoder keeps its link to the stream, a block that is written encodes the next part behind all parts before, and one is written from the worst-case size on |
| `Lz4RoundTrip.ReceiveBlock` | lib/lz4/lz4.c:3208-3263 | the decoder extends the rebuilt stream by exactly that part |
| `Lz4RoundTrip.StreamRoundTrip` | lib/lz4/lz4.c:1983-2101 | for every input, every way of cutting it into blocks and all capacities: decoding the blocks in order rebuilds the stream as far as they fit, the whole of it when all fit, and they do from the worst-case sizes on |
| `Lz4hcSearch.Inserted` | lib/lz4/lz4hc.c:944-966 | storing a position keeps the invariant of hash heads and the 16-bit wrapping chain: every link of the last 64 K positions leads to the newest earlier position with the same hash, or beyond the window |
| `Lz4hcSearch.LinkStep` | lib/lz4/lz4hc.c:1417-1421 | following one link is one step along the descending list of same-hash positions in the window |
| `Lz4hcSearch.CandidatesExact` | lib/lz4/lz4hc.c:1094-1104 | that list holds exactly the same-hash positions of the window, each once, in descending order |
| `Lz4hcSearch.TablesPrefix` | lib/lz4/lz4hc.c:944-966 | the index of a text is an index of every longer text |
| `Lz4hcSearch.CountBack` | lib/lz4/lz4hc.c:230-254 | the backward count is the longest common suffix within the limits |
| `Lz4hcSearch.CountPattern` | lib/lz4/lz4hc.c:984-1022 | how far a four-byte pattern repeats, no more and no less |
| `Lz4hcSearch.ReverseCountPattern` | lib/lz4/lz4hc.c:1027-1050 | the same backwards, not below the limit |
| `Lz4hcSearch.Measure` | lib/lz4/lz4hc.c:1108-1146 | what is measured at a candidate is a true match, and no longer one at this distance exists unless it is no improvement |
| `Lz4hcSearch.HashChain.constructor` | lib/lz4/lz4hc.c:2002-2021 | zeroed tables hold nothing at or beyond index 1 |
| `Lz4hcSearch.HashChain.Init` | lib/lz4/lz4hc.c:270-288 | whatever tables hold before their end, after the new base has been set they are a valid index of any text with nothing inserted; they are cleared past 1 GB |
| `Lz4hcSearch.HashChain.Insert` | lib/lz4/lz4hc.c:944-966 | all positions up to the cursor are indexed |
| `Lz4hcSearch.HashChain.PatternJump` | lib/lz4/lz4hc.c:1222-1415 | in a run of one byte value the search moves strictly backwards, and any match it takes from the pattern alone is a true one |
| `Lz4hcSearch.HashChain.FollowChain` | lib/lz4/lz4hc.c:1094-1421 | the walk ends; its result is a true match inside the limits, at least as long as asked, and as long as any match at a visited position; with pattern analysis and chain swap off the visited positions are exactly the first same-hash positions of the window, up to the attempt limit |
| `Lz4hcSearch.HashChain.InsertAndGetWiderMatch` | lib/lz4/lz4hc.c:1063-1487 | the same after indexing up to the cursor |
| `Lz4hcSearch.BestInWindow` | lib/lz4/lz4hc.c:1094-1421 | when no attempt limit cut the walk short, the result is as long as any match in the 64 KB window |
| `Lz4hcEncode.EncodeSequenceHc` | lib/lz4/lz4hc.c:295-391 | a sequence that fits is appended to the tiling; one that does not leaves the block as it was, and says so only when the output is smaller than the worst case |
| `Lz4hcEncode.TooSmall` | lib/lz4/lz4hc.c:330-365 | the two space tests of the code fail only when the capacity is below n + n/255 + 16 |
| `Lz4hcEncode.RoomBehind` | lib/lz4/lz4hc.c:330-365 | behind a sequence that passed the tests there is room for the last run |
| `Lz4hcEncode.LongestThatFits` | lib/lz4/lz4hc.c:1759-1775 | the length to which the last match is cut fits the room and is still a match |
| `Lz4hcEncode.Overflow` | lib/lz4/lz4hc.c:1749-1777 | when the output is full, the last match is cut or dropped, and the block still tiles the consumed input |
| `Lz4hcEncode.LastLiterals` | lib/lz4/lz4hc.c:1711-1747 | the block is complete: it conforms, is within the bound and encodes the consumed input |
| `Lz4hcLazy.KeepOrDropFirst` | lib/lz4/lz4hc.c:1573-1589 | whatever is decided between the first and the second match, the matches that stay are true, in order and start early enough for the end rules |
| `Lz4hcLazy.MakeRoom` | lib/lz4/lz4hc.c:1591-1604 | the second match is moved forward, with its end kept, until the first keeps four bytes |
| `Lz4hcLazy.EncodeTwo` | lib/lz4/lz4hc.c:1617-1635 | both matches are written, the first cut to where the second starts |
| `Lz4hcLazy.DropSecond` | lib/lz4/lz4hc.c:1637-1665 | a third match that starts inside the first one removes the second; what is written and what remains still tile |
| `Lz4hcLazy.EncodeFirst` | lib/lz4/lz4hc.c:1672-1708 | three matches in order: the first is written, at least four bytes long, the others move up |
| `Lz4hcLazy.StepSearch2` | lib/lz4/lz4hc.c:1553-1589 | one pass through the label: the block keeps tiling the input, and the search advances |
| `Lz4hcLazy.StepSearch3` | lib/lz4/lz4hc.c:1591-1708 | one pass through the label: the block keeps tiling the input, and the search advances |
| `Lz4hcLazy.CompressHashChain` | lib/lz4/lz4hc.c:1505-1780 | with any valid index of the text before the source: the parser ends; everything written is in order, without overlap, at least four bytes long and a true copy at offset 1..65535, so that the block encodes exactly the consumed input within the bound; of a search only its truth and its length are used |
| `Lz4hcOptimal.PriceIsSize` | lib/lz4/lz4hc.c:2284-2296 | the price of a sequence is the number of bytes the format spends on it |
| `Lz4hcOptimal.CompleteWithLiterals` | lib/lz4/lz4hc.c:2575-2596 | the trailing literal cells keep the table contiguous and leave the rest of it alone |
| `Lz4hcOptimal.InitialPrices` | lib/lz4/lz4hc.c:2393-2449 | the first match fills a contiguous table of valid cells |
| `Lz4hcOptimal.PriceMatch` | lib/lz4/lz4hc.c:2523-2596 | pricing a further match keeps all cells valid, the table contiguous and inside its bounds, and never shrinks it |
| `Lz4hcOptimal.FindLongerMatch` | lib/lz4/lz4hc.c:2298-2318 | a longer true match, or none |
| `Lz4hcOptimal.ChoosePath` | lib/lz4/lz4hc.c:2449-2602 | the table is contiguous and freshly set up to the chosen end, every cell after the first is a step back of at most its position, and the last step is a true match or literal |
| `Lz4hcOptimal.Reverse` | lib/lz4/lz4hc.c:2604-2632 | the in-place reversal ends exactly at cell 0 and leaves a forward path over the chosen span whose steps are true matches and literals |
| `Lz4hcOptimal.EncodePath` | lib/lz4/lz4hc.c:2636-2659 | the forward pass writes true matches and literals that tile the span |
| `Lz4hcOptimal.CompressOptimal` | lib/lz4/lz4hc.c:2320-2740 | the optimal parser ends and the block encodes exactly the consumed input, within the bound, in all output modes |
| `Lz4hcMid.Candidate` | lib/lz4/lz4hc.c:658-683 | a table entry is used only inside window and prefix, and is then measured to the longest common prefix |
| `Lz4hcMid.FindMid` | lib/lz4/lz4hc.c:656-806 | the search of levels 1 and 2 finds a true match of at least four bytes at the position or the next one, or none; no index at or beyond the cursor is left in the tables |
| `Lz4hcMid.CatchBack` | lib/lz4/lz4hc.c:808-815 | widening backwards keeps the match true at its distance, with its end, and stops at the open literals or where bytes differ |
| `Lz4hcMid.EncodeHit` | lib/lz4/lz4hc.c:808-847 | the widened match is written, or the block is left as it was; every index in the tables lies before the new cursor |
| `Lz4hcMid.CompressMid` | lib/lz4/lz4hc.c:603-937 | levels 1 and 2, whatever the tables hold: the block encodes exactly the consumed input, within the bound, in all output modes |
| `Lz4hcMid.FillHTable` | lib/lz4/lz4hc.c:565-591 | the tables of levels 1 and 2 take a dictionary, and hold nothing beyond it |
| `Lz4hc.ReadyOn` | lib/lz4/lz4hc.c:2138-2193 | tables that serve the text of a stream serve every text that continues it |
| `Lz4hc.ReadyBelow` | lib/lz4/lz4hc.c:2031-2046 | whatever the tables served, they hold no index beyond its end, so a reset by moving the base makes all of it stale |
| `Lz4hc.CompressAtLevel` | lib/lz4/lz4hc.c:1805-1828 | the parser of every level 1 to 12, behind any history: sizes, errors and the block as promised, and the tables serve what follows |
| `Lz4hc.StreamHc.constructor` | lib/lz4/lz4hc.c:1982-1990 | a new state is valid and has no prefix |
| `Lz4hc.StreamHc.ResetFast` | lib/lz4/lz4hc.c:2031-2046 | any valid state, clean or dirty, becomes one without prefix, valid for any memory |
| `Lz4hc.StreamHc.CompressGeneric` | lib/lz4/lz4hc.c:1792-1831 | the input joins the prefix; oversized input and a full target are refused without a change; a failure makes the state dirty; a block encodes exactly the consumed part behind the former prefix |
| `Lz4hc.StreamHc.CompressFastReset` | lib/lz4/lz4hc.c:1923-1941 | a used state compresses as a fresh one: within the capacity, an encoding of the input without history, certain success from the worst case on |
| `Lz4hc.StreamHc.CompressExtState` | lib/lz4/lz4hc.c:1943-1962 | the same on a state that is initialised first, whatever it was |
| `Lz4hc.StreamHc.CompressDestSize` | lib/lz4/lz4hc.c:1964-1979 | never more than the target; a block exactly when the input size is supported and the target is positive; it encodes the consumed prefix |
| `Lz4hc.StreamHc.LoadDict` | lib/lz4/lz4hc.c:2069-2098 | the last 64 KB of the dictionary become the prefix, and tables for it are set up |
| `Lz4hc.StreamHc.Continue` | lib/lz4/lz4hc.c:2138-2210 | contiguous blocks for any number of calls: a block encodes the source behind the whole prefix, or behind its last 64 KB when the indexes have passed 2 GB and the tables are loaded anew |
| `Lz4hcRoundTrip.HcRoundTrip` | lib/lz4/lz4hc.c:1954-1962 | at every level, for every input and capacity: if the compressor succeeds, and it does from the worst-case capacity on, decoding gives back the input |
| `Lz4hcRoundTrip.HcReuseRoundTrip` | lib/lz4/lz4hc.c:1923-1941 | the same on any valid used state, whose tables keep what earlier inputs left in them, and which is valid again afterwards |
| `Lz4hcRoundTrip.HcDestSizeRoundTrip` | lib/lz4/lz4hc.c:1964-1979 | the block is within the target and decodes to exactly the consumed prefix |
| `Lz4hcRoundTrip.HcSendBlock` | lib/lz4/lz4hc.c:2197-2210 | one block of a contiguous HC stream into any capacity encodes the next part behind all parts before |
| `Lz4hcRoundTrip.HcStreamRoundTrip` | lib/lz4/lz4hc.c:2138-2210 | for every input, level and way of cutting it into blocks, and all capacities: decoding the blocks in order rebuilds the stream as far as they fit |
| `AdiosQueues.WhatIsABarrier` | patches/adios_ioscheduler_6.6.patch:966-968 | among the operations 0 to 3 the barrier test holds exactly for flushes and discards |
| `AdiosQueues.Deadline` | patches/adios_ioscheduler_6.6.patch:750-762 | no deadline is before the start time; a synchronous request is due at its start time |
| `AdiosQueues.Quantized` | patches/adios_ioscheduler_6.6.patch:764-765 | the key is the multiple of the quantum at or below the deadline |
| `AdiosQueues.AddEntryTree` | patches/adios_ioscheduler_6.6.patch:740-798 | adding an entry keeps keys ascending and groups non-empty |
| `AdiosQueues.AddEntryPlace` | patches/adios_ioscheduler_6.6.patch:740-798 | the entry is inserted at one place of the order and everything else stays |
| `AdiosQueues.AddEntryOrder` | patches/adios_ioscheduler_6.6.patch:740-798 | that place is behind everything with the same or an earlier key and before everything later |
| `AdiosQueues.FirstIsEarliest` | patches/adios_ioscheduler_6.6.patch:1059-1065 | the entry taken first has the earliest key of the tree |
| `AdiosQueues.DropAtPlace` | patches/adios_ioscheduler_6.6.patch:801-816 | removing an entry removes it alone |
| `AdiosQueues.DropAtTree` | patches/adios_ioscheduler_6.6.patch:801-816 | removing an entry keeps keys ascending and drops an empty group |
| `AdiosQueues.LatPerm` | patches/adios_ioscheduler_6.6.patch:1110-1124 | the summed latency does not depend on the order |
| `AdiosQueues.InStep` | patches/adios_ioscheduler_6.1.patch:927-945 | adding or subtracting a packed count and latency moves the 64-bit word exactly as it moves the totals, modulo 2^64, even across an overflow of the latency, as long as the packed count itself fits 16 bits |
| `AdiosQueues.Unpack` | patches/adios_ioscheduler_6.1.patch:927-936 | while the totals fit 16 and 48 bits, the two fields of the word are the totals |
| `AdiosQueues.SortByPosSorted` | patches/adios_ioscheduler_6.6.patch:1067-1077 | sorting by position gives ascending positions |
| `Adios.Scheduler.constructor` | patches/adios_ioscheduler_6.6.patch:1507-1600 | nothing is queued, no bit is set, the books are empty |
| `Adios.Scheduler.EvalState` | patches/adios_ioscheduler_6.6.patch:733-737 | the two-bit field is 0 exactly when both bits are clear and 3 exactly when both are set; its upper bit is the bit of queue 1 |
| `Adios.Scheduler.AddToDlTree` | patches/adios_ioscheduler_6.6.patch:740-798 | the request is in the tree of its type at the place of its deadline; the bits of both trees still agree with emptiness |
| `Adios.Scheduler.DelFromDlTree` | patches/adios_ioscheduler_6.6.patch:801-816 | the entry is gone, the rest stays, the bits agree |
| `Adios.Scheduler.PickTree` | patches/adios_ioscheduler_6.6.patch:1137-1151 | the tree whose turn it is, and whether the bias is to be adjusted |
| `Adios.Scheduler.ChooseOne` | patches/adios_ioscheduler_6.6.patch:1130-1167 | a batch ends exactly when the trees are empty or, past the first request, the next one would break a limit |
| `Adios.NewBias` | patches/adios_ioscheduler_6.6.patch:1169-1177 | the bias moves towards the other tree; without a prediction it turns over |
| `Adios.Scheduler.TakeOne` | patches/adios_ioscheduler_6.6.patch:1125-1190 | the earliest request of the tree whose turn it is moves to the queue of its type or tier; counts and bias follow; otherwise nothing changes |
| `Adios.LimitsMore` | patches/adios_ioscheduler_6.6.patch:1161-1167 | an admitted request keeps every type within its limit and the latency within the window |
| `Adios.Scheduler.FillPage` | patches/adios_ioscheduler_6.6.patch:1125-1191 | the page holds a batch that is a prefix of each tree, in order, within all limits, and that could not have taken one more |
| `Adios.Scheduler.SortQueue` | patches/adios_ioscheduler_6.6.patch:1193-1194 | queue 1 is sorted by position and holds the same requests |
| `Adios.Scheduler.FillBatchQueues` | patches/adios_ioscheduler_6.6.patch:1105-1213 | at least one request moves; trees and page change by exactly this batch; it counts as in flight at once; the word stays in step unless the batch has 65536 requests or more |
| `Adios.BatchSize` | patches/adios_ioscheduler_6.6.patch:1161-1167 | limits below 16384 for each type keep every batch below 65536 requests |
| `Adios.Scheduler.PopNext` | patches/adios_ioscheduler_6.6.patch:1222-1266 | from the first non-empty queue of the front page, at the end the elevator asks for; nothing exactly when the page is empty |
| `Adios.Scheduler.RefillIfDue` | patches/adios_ioscheduler_6.6.patch:1286-1292 | a refill happens exactly when the back page is empty, the trees have work, and the front page is empty or little is in flight; otherwise nothing changes |
| `Adios.Scheduler.RefillAndFlip` | patches/adios_ioscheduler_6.6.patch:1279-1297 | no request is lost between trees and pages; a page with requests comes to the front if there is one |
| `Adios.Scheduler.DispatchFromBq` | patches/adios_ioscheduler_6.6.patch:1274-1313 | nothing exactly when trees and pages are empty; otherwise one request leaves, the next of the front page if any page has requests |
| `Adios.Scheduler.DispatchFromPq` | patches/adios_ioscheduler_6.6.patch:1316-1333 | nothing exactly when both priority queues are empty; otherwise the first of queue 1 if it has any, of queue 0 otherwise |
| `Adios.Scheduler.InsertToPrioQueue` | patches/adios_ioscheduler_6.6.patch:927-944 | the request is at the tail and counts as in flight |
| `Adios.Scheduler.TakeBarrier` | patches/adios_ioscheduler_6.6.patch:1339-1363 | the head goes to priority queue 1, what follows up to the next barrier is taken out, nothing is lost or reordered |
| `Adios.Scheduler.Release` | patches/adios_ioscheduler_6.6.patch:1335-1384 | one barrier is released with the requests up to the next one, which settle in the trees in their order or merge; what remains starts with a barrier |
| `Adios.Scheduler.Dispatch` | patches/adios_ioscheduler_6.6.patch:1387-1420 | returns nothing exactly when nothing is queued; otherwise one request leaves, the one the active queues give next if they have any, the head barrier if only barriers are queued; barriers are respected before and after |
| `Adios.Scheduler.HasWork` | patches/adios_ioscheduler_6.6.patch:1494-1498 | the state word is non-zero exactly when something is queued |
| `Adios.Scheduler.InsertRequest` | patches/adios_ioscheduler_6.6.patch:1013-1040 | the request is queued or merged, never both and never lost; barriers are respected unless the insertion is at the head or before the models are stable |
| `Adios.Scheduler.InsertPreStability` | patches/adios_ioscheduler_6.6.patch:988-1010 | priority queue 1, or 0 at the head; the models may become stable |
| `Adios.Scheduler.InsertPostStability` | patches/adios_ioscheduler_6.6.patch:947-985 | at the head to priority queue 0; behind a pending barrier, or as one, to the tail of the barrier queue; otherwise to its tree unless merged |
| `Adios.Scheduler.RequestMerged` | patches/adios_ioscheduler_6.6.patch:866-874 | the request leaves its place in the tree for the one its deadline gives it now; nothing else changes |
| `Adios.Scheduler.MergedRequests` | patches/adios_ioscheduler_6.6.patch:877-885 | the request is gone from its tree and counted as merged |
| `Adios.Scheduler.BioMerge` | patches/adios_ioscheduler_6.6.patch:888-908 | merging succeeds exactly without a pending barrier, with the lock free and a target; a refusal changes nothing |
| `Adios.Scheduler.Completed` | patches/adios_ioscheduler_6.6.patch:1431-1443 | the request leaves the device; count and total in flight are exact as long as they fit the word |
| `Adios.Scheduler.BeginHistory` | patches/adios_ioscheduler_6.6.patch:1007-1010 | an idle scheduler may forget its past: the books and the order of barriers start anew, so pre-stability requests do not matter |
| `Adios.WordIsExact` | patches/adios_ioscheduler_6.1.patch:927-945 | the fields of the packed word are the number and the summed latency of the requests in priority queues, batch pages or the device whenever these fit 16 and 48 bits, whatever happened before |
| `Adios.EarlierRank` | patches/adios_ioscheduler_6.6.patch:947-985 | of two requests with a barrier among them, the one inserted first has the lower rank |
| `Adios.BarrierOrder` | patches/adios_ioscheduler_6.6.patch:1335-1420 | when the later one of such a pair has been dispatched, the earlier one is not queued any more and was never dispatched behind it |
| `Adios.BarrierAndCompletion` | patches/adios_ioscheduler_6.6.patch:1335-1384 | when only barriers and the device hold requests, all that was inserted before the head barrier has been completed or merged if and only if the device is empty |
| `AdiosRun.Perform` | patches/adios_ioscheduler_6.6.patch:1387-1420 | every driver call keeps books, bits and order; every insertion takes place; a dispatch sends a request exactly when something is queued |
| `AdiosRun.Run` | patches/adios_ioscheduler_6.6.patch:947-1420 | after any run of calls every request has been inserted and none has overtaken a barrier or been overtaken by one, for any number of requests and barriers; the in-flight word is exact whenever what is in flight fits it, if no single batch had 65536 requests |
| `AdiosRun.EveryState` | patches/adios_ioscheduler_6.6.patch:947-1420 | the same in every intermediate state |
| `AdiosRun.Drain` | patches/adios_ioscheduler_6.6.patch:1387-1420 | dispatching until nothing comes back ends, and by then every queued request has been dispatched or merged |
| `AdiosRun.Settle` | patches/adios_ioscheduler_6.6.patch:988-1010 | runs can start: a new scheduler reaches the stable idle state from which the order of barriers holds |
| `AdiosRun.ReleaseAndCompletion` | patches/adios_ioscheduler_6.6.patch:1335-1420 | when only barriers are queued, all that was inserted before the head barrier is done exactly when the device is empty, that is when the word counts nothing in flight |
| `AdiosRun.BarrierBeforeCompletion` | patches/adios_ioscheduler_6.6.patch:1387-1420 | an input on which a barrier is dispatched while the request before it is still on the device |
| `Bbr.LostSkbBound` | patches/BBRV3/bbrv3-android12-5.10-lts.patch:1783-1837 | the computed bound is less than one packet below the exact crossing; when the whole packet made the loss rate too high it is at most one packet above what was in flight |
| `Bbr.CrossingIsExact` | patches/BBRV3/bbrv3-android12-5.10-lts.patch:1775-1782 | at the crossing the loss rate equals the threshold |
| `Bbr.OneAboveIsReached` | patches/BBRV3/bbrv3-android12-5.10-lts.patch:1783-1837 | the excess of one packet does occur |
| `Bbr.LossCut` | patches/BBRV3/bbrv3-android12-5.10-lts.patch:1913-1922 | a cut never goes below what was delivered in the latest round, nor above the old bound or that |
| `Bbr.Slope` | patches/BBRV3/bbrv3-android12-5.10-lts.patch:1707-1719 | between one and the window, so the division by it is safe |
| `Bbr.Connection.constructor` | patches/BBRV3/bbrv3-android12-5.10-lts.patch:2657-2758 | STARTUP, nothing reached, nothing sampled |
| `Bbr.Connection.Bw` | patches/BBRV3/bbrv3-android12-5.10-lts.patch:959-964 | the smaller of the filtered maximum and the short-term bound |
| `Bbr.Connection.TakeMaxBwSample` | patches/BBRV3/bbrv3-android12-5.10-lts.patch:1553-1558 | the maximum never falls and covers the sample |
| `Bbr.Connection.AdvanceMaxBwFilter` | patches/BBRV3/bbrv3-android12-5.10-lts.patch:1561-1569 | a window without samples is kept; otherwise the newest window alone remains, so a positive maximum stays positive |
| `Bbr.Connection.AdaptLowerBounds` | patches/BBRV3/bbrv3-android12-5.10-lts.patch:1949-1976 | no cut while probing; a loss cuts by the fixed factor but not below the latest delivery, and never to a bandwidth of 0 |
| `Bbr.Connection.UpdateCongestionSignals` | patches/BBRV3/bbrv3-android12-5.10-lts.patch:2052-2074 | the maximum covers every valid sample that is not application-limited or reaches the maximum; round signals end with the round; the bounds move only then and only outside probing |
| `Bbr.Connection.LatestDeliverySignals` | patches/BBRV3/bbrv3-android12-5.10-lts.patch:2014-2047 | running maxima of the round, replaced by the newest sample when the round ends |
| `Bbr.Connection.HandleInflightTooHigh` | patches/BBRV3/bbrv3-android12-5.10-lts.patch:2205-2225 | once per probe: the bound is cut unless application-limited, and PROBE_UP ends |
| `Bbr.Connection.ProbeInflightHiUpward` | patches/BBRV3/bbrv3-android12-5.10-lts.patch:1722-1743 | the bound grows by one for every slope-many acknowledged packets, none are lost in the remainder, and only while the window uses it fully |
| `Bbr.Connection.AdaptUpperBounds` | patches/BBRV3/bbrv3-android12-5.10-lts.patch:2232-2286 | the filter advances exactly at the end of a probe; a risky probe that went well is repeated at once; the bound falls only for samples of a probe and otherwise follows what was in flight |
| `Bbr.Connection.CheckTimeToProbeBw` | patches/BBRV3/bbrv3-android12-5.10-lts.patch:2289-2318 | REFILL starts exactly when it is time or marks ceased without loss |
| `Bbr.Connection.InflightWithHeadroom` | patches/BBRV3/bbrv3-android12-5.10-lts.patch:1843-1856 | the bound less the headroom, at least one packet, where that lies between the minimal window and 31 bits, otherwise the minimal window; no bound stays no bound |
| `Bbr.Connection.UpdateCyclePhase` | patches/BBRV3/bbrv3-android12-5.10-lts.patch:2331-2439 | PROBE_UP is entered from REFILL exactly at a round start, CRUISE from DOWN exactly when the flight is below both limits; too high a loss ends PROBE_UP |
| `Bbr.Connection.CheckProbeUpDone` | patches/BBRV3/bbrv3-android12-5.10-lts.patch:2398-2418 | PROBE_UP ends exactly at the former too-high bound or on a plateau that the bound did not cause |
| `Bbr.Connection.CheckEcnTooHighInStartup` | patches/BBRV3/bbrv3-android12-5.10-lts.patch:1621-1638 | marks fill the pipe exactly after the required number of rounds in a row; a round without them starts the count anew |
| `Bbr.Connection.CheckLossTooHighInStartup` | patches/BBRV3/bbrv3-android12-5.10-lts.patch:2467-2491 | losses fill the pipe exactly at the end of a recovery round with enough loss events and too high a rate |
| `Bbr.Connection.CheckFullBwReached` | patches/BBRV3/bbrv3-android12-5.10-lts.patch:2501-2524 | the pipe counts as full only after three rounds without growth by a quarter; growth starts the count anew |
| `Bbr.Connection.CheckDrain` | patches/BBRV3/bbrv3-android12-5.10-lts.patch:2527-2548 | STARTUP with a full pipe goes to DRAIN, and DRAIN to PROBE_BW exactly when the flight fits the estimate |
| `Bbr.Connection.ExitProbeRtt` | patches/BBRV3/bbrv3-android12-5.10-lts.patch:2442-2461 | back to CRUISE if the pipe was full, to STARTUP otherwise, without short-term bounds |
| `Bbr.Connection.InProbeRttMode` | patches/BBRV3/bbrv3-android12-5.10-lts.patch:1492-1509 | PROBE_RTT ends exactly after its time and a round trip of low flight |
| `Bbr.Connection.UpdateMinRtt` | patches/BBRV3/bbrv3-android12-5.10-lts.patch:1457-1513 | PROBE_RTT is entered exactly when the estimate expired without a restart from idle |
| `Bbr.Connection.SkbMarkedLost` | patches/BBRV3/bbrv3-android12-5.10-lts.patch:2776-2801 | too high a loss while probing ends the probe and sets a bound at or above the computed one, at most one packet above the flight; otherwise only the loss is noted |
| `Bbr.Connection.RunLossProbeRecovery` | patches/BBRV3/bbrv3-android12-5.10-lts.patch:2803-2822 | a repaired tail loss counts as one lost packet of the latest flight |
| `Bbr.Connection.Ssthresh` | patches/BBRV3/bbrv3-android12-5.10-lts.patch:2844-2857 | the bounds and the window are saved; in recovery and PROBE_RTT the largest window stays saved |
| `Bbr.Connection.UndoCwnd` | patches/BBRV3/bbrv3-android12-5.10-lts.patch:2825-2841 | no bound is left below what was saved or what it was, the window is the saved one, and the full-pipe verdict stays |
| `Bbr.Connection.TxStart` | patches/BBRV3/bbrv3-android12-5.10-lts.patch:1104-1121 | PROBE_RTT may end with a restart from idle |
| `Bbr.Connection.SetState` | patches/BBRV3/bbrv3-android12-5.10-lts.patch:2935-2960 | entering loss makes the larger of window and saved window the short-term bound outside probing; leaving it restores the window |
| `Bbr.Connection.Acknowledge` | patches/BBRV3/bbrv3-android12-5.10-lts.patch:2613-2655 | one acknowledgement keeps the invariant: DRAIN and PROBE_BW imply a full pipe, the full pipe is never taken back, and any valid positive sample, application-limited or not, leaves the bandwidth at least 1 from then on |
| `Bbr.Step` | patches/BBRV3/bbrv3-android12-5.10-lts.patch:2613-2655 | the same for every call of the TCP stack |
| `Bbr.Run` | patches/BBRV3/bbrv3-android12-5.10-lts.patch:652-671 | over any run the phases walk along the diagram: PROBE_UP is entered from REFILL only, DRAIN from STARTUP only, STARTUP again from PROBE_RTT only, CRUISE and REFILL inside PROBE_BW only; DRAIN and PROBE_BW imply a full pipe; after the first valid positive sample the estimate stays at least 1 |
| `Bbr.DownBeforeUp` | patches/BBRV3/bbrv3-android12-5.10-lts.patch:2331-2439 | before every CRUISE, REFILL or PROBE_UP there was a DOWN, with nothing but CRUISE and REFILL in between |

## Left out

- `LZ4_loadDict`, `LZ4_attach_dictionary`, dictionary contexts, `LZ4_saveDict`: the histories considered come from the stream itself.
- In-place decompression, and the slack it needs: the input is a sequence that no write can reach.
- Ring buffers in which new output overwrites a dictionary in use, and `LZ4_decoderRingBufferSize`.
- Lz4StreamDecoder.StreamDecode.Continue: requires the external dictionary to lie apart from the output, which ring buffers without slack do not give.
- Lz4PlainDecoder.DecompressUnsafe: covers inputs that do not end inside a block and have no offset 0, because the code reads on without a limit and leaves such output open.
- Lz4Decoder.DecompressGeneric: does not say what offset 0 writes, because the paths of the code differ there; only safety is proved for it.
- Lz4RoundTrip.StreamRoundTrip: covers contiguous blocks; blocks with an external dictionary are covered call by call.
- Lz4Stream.Stream.CompressBlock: covers prefix and external dictionary, not an attached dictionary context, because no function that attaches one is modelled.
- Lz4Stream.Stream.CompressFastContinue: covers any history in memory, not an attached dictionary context, for the same reason.
- Lz4hcSearch.HashChain.PatternJump: covers one segment of text; the extra tests at the seam of an external dictionary are not modelled.
- Lz4hcSearch.HashChain.InsertAndGetWiderMatch: covers one segment of text, without external dictionary and dictionary context.
- Lz4hc.StreamHc.Continue: covers blocks that follow each other in memory, because only these keep one segment of text.
- Lz4hcSearch.HashChain.FollowChain: covers one segment of text, and says which positions are visited only with pattern analysis and chain swap off, because both skip positions on purpose.
- Lz4hcOptimal.CompressOptimal: does not state that the chosen path is the cheapest, because match cells of the code use an approximate literal count.
- LZ4HC: external dictionaries, attached contexts, `LZ4_saveDictHC`, `LZ4_compress_HC_continue_destSize`, a change between levels of different table kinds inside a stream.
- Pointer tables, other word sizes and byte orders, alignment checks, memory allocation, exported symbols, the NEON decoder.
- ADIOS: how latencies are predicted, the elevator direction from head positions, locks inside a call, the red-black tree itself, failed allocations, sysfs, wrap-around of 64-bit deadlines and of the bias.
- BBR: pacing rates, gains, the window itself, RTT and aggregation filters, path rehashing, debugging output, the TCP stack around it.
- Build scripts, the SuSFS rewriter, ABI patches, Re-Kernel hooks and the small kernel patches: text edits and hooks whose context is not part of this model.
