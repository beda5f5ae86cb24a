# The VCDIFF engine of xdelta3, modelled in Dafny

xdelta3 computes, applies and composes binary deltas in the VCDIFF format (RFC 3284).  This project
models the part of it that finds, selects, encodes, decodes and merges delta instructions, and
proves what that part is for:

- **Windows.**  `StringMatch` and `SourceMatch` search a target window for runs and copies,
  `InstructionQueue` resolves overlaps, `WindowEncoder` writes the three sections with one
  instruction of lookahead, `AddressCache` and `CodeTable` choose addresses and opcodes,
  `WindowDecoder` reads the sections back in place and block by block.  `WindowFormat` says what
  sections mean, `WindowEmission` how opcodes are read, and `ReferenceEncoder` what a list of
  instructions is written as.  Searching, encoding and decoding together are the identity on target
  windows, and nothing that is queued is lost on the way.
- **Merging.**  `DeltaMerge` composes two whole-file deltas without seeing data; `WholeDelta` gives
  deltas their byte-by-byte meaning; `WholeAppend` makes whole-file deltas from encoded windows.
- **Streams.**  `StreamDecoder` is the resumable state machine over a file and proves that cutting the
  input changes nothing; `DeltaFrames` says of any bytes which windows are handed over and that a wrong
  checksum never is; `SectionBuffers` that reading sections in place is safe; `DeltaFile` that
  what the encoder writes around its windows is read back; `EncoderInput` that the encoder's
  buffering loses and reorders nothing; `FileEncoder` puts the encoder together: its file decodes to
  its input, and its windows merge.
- **Secondary compression (DJW, one group).**  `Heap`, `Huffman` and `PrefixBuilder` build code lengths
  and prove them exact and optimal; `CanonicalCode`, `MoveToFront`, `BitPacking` and `HuffmanSection`
  code a section and read it back.
- **Structures.**  `BlockCache` and `CyclicList` are the LRU cache of source blocks over the cyclic
  list; `Integers` the variable-length integers; `Adler32` the checksum.

Sizes (`usize_t`) are 64 bits and offsets (`xoff_t`) 32, as in the Swift package's build; where the
code's arithmetic wraps, the model's does.  Each method is proved against a specification function
or predicate; what the repository promises is proved about those.

Preconditions that the code relies on and the proofs state: merged instructions are not empty, their
adds are there and target copies start before themselves, as in every delta put together from encoded
windows; pieces given to the encoder are no larger than `winsize`; the queue has at least five slots.
Where the code falls short of what it is for, the model follows the code and says exactly when:

- The test for addresses that fit one byte looks at 32 bits only, so that from 2^32 on a longer mode can
  be chosen (`AddressCache.EncodeIsShortest`, with `EncodeNotShortestBeyond32Bits` as an example).
- A queue that is flushed for lack of room encodes its first entry before it counts the rest.  If the
  compaction leaves just two entries and they overlap, the second is left overlapping what is already
  encoded (`WindowEncoder.Encoder.FlushInstructions`, with `InstructionQueue.OverlapsAtAnyLength` as an
  example).  The code does not notice; `StringMatch` reports this case, and no other, as `Overlapped`.
- A copy of the second delta that starts inside the output of the first and runs past its end makes the
  merge read behind the first delta's instructions (`DeltaMerge.WholeState.MergeInputs` ends as `PastEnd`,
  with `CopyPastEnd` as an example).

`dafny verify dfyconfig.toml` verifies the project.

## Model

| member | source | states |
|---|---|---|
| `DeltaMerge.WholeState.MergeInputs` | xdelta3/xdelta3-merge.h:530-581 | for whole-file deltas d1 (valid for originals of n bytes) and d2, the merge goes through exactly when d2 is well formed for the file that d1 makes, and otherwise ends as its first bad copy says; the merged delta is then well formed, keeps the windows and the length of d2, and applied to any original gives what d2 gives on the output of d1, copies of d1 that run into their own output included |
| `DeltaMerge.WholeState.MergeSourceCopy` | xdelta3/xdelta3-merge.h:408-528 | following one source copy through d1 ends: every recursive call has a smaller end address, the loop uses the size up; it is refused exactly when it starts outside the output of d1, it leaves the array of instructions exactly when it starts inside and runs past the end, and otherwise the pieces appended repeat the right stretch of that output |
| `DeltaMerge.WholeState.FindPosition` | xdelta3/xdelta3-merge.h:361-406 | the binary search finds the covering instruction exactly for addresses below the length; its internal-error exit is never reached |
| `DeltaMerge.BuiltComposes` | xdelta3/xdelta3-merge.h:530-581 | an instruction list each of whose entries is faithful to "d2 after d1" composes them, for every original |
| `DeltaMerge.MergedIsWellFormed` | xdelta3/xdelta3-merge.h:530-581 | no instruction stops the merge if and only if d2 is well formed for the length of the output of d1 |
| `DeltaMerge.CopyPastEnd` | xdelta3/xdelta3-merge.h:427-523 | a concrete pair of deltas on which the walk leaves the array of instructions, where the code has only an assertion |
| `WholeDelta.ExplainedIsApply` | xdelta3/xdelta3-merge.h:408-528 | a file that every instruction explains, overlapping target copies read in the finished file, is the file that applying the delta byte by byte gives |
| `WholeAppend.AppendWindow` | xdelta3/xdelta3-merge.h:219-256 | appending a window that decodes makes the whole-file delta apply to the old result followed by that window; the window table grows by its offset, length and checksum |
| `WholeAppend.AppendTells` | xdelta3/xdelta3-merge.h:159-217 | one appended instruction does to the delta what carrying it out does to the window |
| `WindowEncoder.Encoder.FinishWindow` | xdelta3/xdelta3.c:3200-3212 | from any sound queue of candidate copies and runs, overlapping or not: the instructions encoded are, behind those encoded before, what the compaction leaves of the queue, in order and with positions, types, sizes and addresses, with ADDs in the gaps and nowhere else; the three sections are what these instructions are written as; and for every block size of the source the decoder makes exactly the target window of them, all used up, and parses exactly these instructions, none of them empty |
| `WindowEncoder.Encoder.FlushInstructions` | xdelta3/xdelta3.c:2312-2493 | forced, all that the compaction leaves is encoded, with ADDs in the gaps; not forced, exactly the first entries, one more than half the slots but not the last two, and the rest stays; what stays is in order and behind the encoded part if and only if the compaction does not leave just two entries that overlap; slots are conserved |
| `WindowEncoder.Encoder.EncodeQueue` | xdelta3/xdelta3.c:2456-2492 | every entry that leaves the queue is encoded, in order, with an ADD for each gap, and how many leave is told exactly; the queue stays sound except exactly when it begins as two overlapping entries |
| `WindowEncoder.Encoder.AddEncoding` | xdelta3/xdelta3.c:2275-2287 | an instruction, with an ADD for the gap before it, is the next in the list of instructions encoded, and the sections are those of the list |
| `WindowEncoder.Encoder.AddFinalize` | xdelta3/xdelta3.c:2289-2306 | the rest of the target becomes a last ADD, the held instruction gets its opcode, and the sections are complete |
| `WindowEncoder.Encoder.FinishEncoding` | xdelta3/xdelta3.c:2110-2252 | one instruction of lookahead: the operands are written now, the opcode once it is known whether the next instruction pairs with it; the sections are those of the list of instructions encoded, with this one at its end, except for the opcode held back |
| `WindowEncoder.Encoder.Erase` | xdelta3/xdelta3.c:2538-2565 | exactly the entries that start at or after a backward-reaching match leave the queue; all of them lie inside the match |
| `WindowEncoder.Encoder.Enqueue` | xdelta3/xdelta3.c:2494-2526 | a correct instruction is queued last, after a flush when no slot is free; the queue stays sound if and only if there was a slot or the compaction does not leave just two entries that overlap |
| `ReferenceEncoder.WrittenDecodes` | xdelta3/xdelta3.c:2110-2306 | whatever right instructions make up a target: written with the reference encoding (shortest addresses under the cache of the addresses before, opcodes paired from the front, literal bytes), they decode to the target, and the decoder parses exactly these instructions with these sizes and addresses |
| `ReferenceEncoder.DataIsLiterals` | xdelta3/xdelta3.c:2190-2220 | the DATA section holds the bytes of the ADDs and one byte for each RUN, in order, and nothing else |
| `ReferenceEncoder.LaidLiterals` | xdelta3/xdelta3.c:2254-2287 | of queued instructions laid out with their gaps, the DATA bytes are as many as target bytes that no instruction covers, and one more for each run |
| `ReferenceEncoder.WrittenBrief` | xdelta3/xdelta3.c:2110-2306 | the three sections take at most 22 bytes for each byte of the target |
| `ReferenceEncoder.HalfOfMeans` | xdelta3/xdelta3.c:2110-2175 | each right instruction, as it is written under the cache that the ones before have left, takes the decoder over its part of the target |
| `WindowEmission.SectionsYield` | xdelta3/xdelta3-decode.h:269-597 | a chain of instructions written one behind the other, two to an opcode whenever the table has one, is parsed as these instructions and decodes to what the chain ends in |
| `WindowEmission.DecodeDouble` | xdelta3/xdelta3.c:921-986 | a double opcode decodes to its two instructions, both parsed before the first is carried out, whatever follows |
| `WindowEmission.DecodeSingle` | xdelta3/xdelta3.c:2587-2613 | a single opcode, with its size byte or without, decodes to its instruction, whatever follows |
| `InstructionQueue.IoptQueue.Compact` | xdelta3/xdelta3.c:2312-2454 | compaction: what is left is the function `Compacted` of the queue, and that is a selection of the old entries, each cut to a part of itself of at least MIN_MATCH bytes with its address shifted equally, in order, disjoint when forced (but for the last pair otherwise); slots are conserved |
| `InstructionQueue.AllInsideFirst` | xdelta3/xdelta3.c:2341-2373 | entries that all begin inside the first: an unforced compaction leaves the first and the last, overlapping |
| `InstructionQueue.OverlapsAtAnyLength` | xdelta3/xdelta3.c:2341-2373 | for every length there is a queue of candidates in order on which that happens |
| `InstructionQueue.Cut` | xdelta3/xdelta3.c:2389-2453 | two overlapping neighbours are cut to meet where both keep MIN_MATCH bytes and the union of their intervals |
| `InstructionQueue.Balance` | xdelta3/xdelta3.c:2389-2453 | the code's three branches of adjustments come to that cut |
| `InstructionQueue.TurnedMeans` | xdelta3/xdelta3.c:2333-2453 | which neighbours a turn of the loop skips, drops, stops at or cuts, and where it goes on |
| `CodeTable.BuildCodeTable` | xdelta3/xdelta3.c:836-904 | all 256 rows, entry by entry |
| `CodeTable.SingleCodeRow` | xdelta3/xdelta3.c:921-952 | the single opcode chosen for an instruction stands for its type, and for its size or for one that follows |
| `CodeTable.DoubleCodeRow` | xdelta3/xdelta3.c:952-986 | a double opcode, when one is chosen, stands for exactly the two instructions |
| `WindowDecoder.DecodeByBlocks` | xdelta3/xdelta3-decode.h:726-806 | the block-wise, suspendable decoder gives what the format says of the window, byte for byte and error for error, for every block size and every pause, and ends |
| `WindowDecoder.Decoder.Emit` | xdelta3/xdelta3-decode.h:726-806 | one call decodes as far as the blocks go; what is still to come has the meaning it had before |
| `WindowDecoder.Decoder.OutputHalfInst` | xdelta3/xdelta3-decode.h:400-595 | ADD, RUN, target copy and source copy, in place in the output buffer, each as the format says |
| `WindowDecoder.Decoder.CopyFromSource` | xdelta3/xdelta3-decode.h:456-556 | a source copy is the exact slice of the flat source, piece by piece over the blocks |
| `WindowDecoder.Decoder.ParseHalfInst` | xdelta3/xdelta3-decode.h:269-360 | sizes, addresses and bounds of half an instruction |
| `WindowFormat.DecodeFrom` | xdelta3/xdelta3-decode.h:726-806 | a window that is accepted has exactly its announced length |
| `AddressCache.LockstepOverRuns` | xdelta3/xdelta3.c:1258-1396 | over any sequence of addresses the two caches stay equal and every address comes back |
| `AddressCache.EncodeThenDecode` | xdelta3/xdelta3.c:1275-1396 | whatever mode is chosen, the decoder gets the address back and uses exactly the bytes emitted |
| `AddressCache.EncodeIsShortest` | xdelta3/xdelta3.c:1275-1351 | no byte string that the decoder would read as the address, in whatever mode, is shorter than the one emitted, if and only if the test for small values does not stop the search at a number above 127 that the SAME slot or another usable number beats; where it does, the address is at least 2^32 |
| `AddressCache.EncodeNotShortestBeyond32Bits` | xdelta3/xdelta3.c:1275-1351 | such an input: an address that takes five bytes where one would do, since the test for small values has a 32-bit mask |
| `AddressCache.BetterCode` | xdelta3/xdelta3.c:1275-1351 | whenever the test misleads, shorter bytes that the decoder would have read as the address |
| `AddressCache.AddrCache.Encode` | xdelta3/xdelta3.c:1275-1351 | the arrays are updated and the mode and bytes are those of the specification |
| `AddressCache.AddrCache.Decode` | xdelta3/xdelta3.c:1354-1396 | likewise for the decoder, errors included |
| `SourceWindow.SrcWin.StillCovered` | xdelta3/xdelta3.c:2122-2151 | a source copy queued before the source window is decided lies inside it afterwards |
| `SourceWindow.SrcWin.Setup` | xdelta3/xdelta3.c:3610-3679 | the decided window contains the range of all matches so far; at the final flush it is that range, and before it begins there and is as long as the range or five quarters of the target, whichever is more, cut at the end of a source of known size |
| `SourceMatch.ForwardMatch` | xdelta3/xdelta3.c:3844-3877 | comparing eight words at a time and then bytes finds the first difference that comparing bytes finds |
| `SourceMatch.Extender.Extend` | xdelta3/xdelta3.c:3888-4029 | the match is as long as the bytes and the bounds allow, backward and forward, whatever the block size and however often the search has to wait for a block; if a block is too far back in a source that cannot seek, what is found so far is still a match |
| `SourceMatch.Extender.ExtendBack` | xdelta3/xdelta3.c:3909-3971 | backward over block boundaries; a first byte too far back ends the search, a later one this half of it |
| `SourceMatch.Extender.ExtendForward` | xdelta3/xdelta3.c:3973-4029 | forward over block boundaries, to the end of the file if need be, or as far back as the source can be sought |
| `StringMatch.SMatch` | xdelta3/xdelta3.c:4169-4287 | the chain is followed until it ends, or is long enough, or a match is, or reaches the end of the input; none of the positions visited gives a longer repetition of earlier target bytes than the one found, which cannot be extended; it is dropped exactly when it is short and far |
| `StringMatch.Matcher.MatchSetup` | xdelta3/xdelta3.c:3687-3842 | a search is set up exactly when it would not repeat the last one, reach too far back or start outside the decided source window; its bounds are the largest that keep it off the encoded part and inside input, source and window |
| `StringMatch.Matcher.ExtendMatch` | xdelta3/xdelta3.c:3888-4113 | a match is taken exactly if it reaches at least the minimum forward, and its reach is the longest within the bounds unless a block was too far back; taken, it replaces exactly the entries that start at or after it, widens the range of source matches by itself, and is queued last, and the next window continues it if it ends with the input; not taken, it changes nothing |
| `StringMatch.Matcher.TryRun` | xdelta3/xdelta3.c:4661-4684 | the run is expanded to its full length, and a RUN of exactly that position, length and byte is queued last if and only if it has at least MIN_RUN bytes and at least the minimum |
| `StringMatch.Matcher.OneByte` | xdelta3/xdelta3.c:4655-4807 | one round of the loop queues what is chosen at the position (as `FindHere` says), then restarts behind it, or lazily looks at the next position with the match as minimum, or moves on one byte with the minimum lowered by one, or ends with the lookahead, each exactly when the code does; it keeps every queued instruction right, in order, behind the encoded part, and inside the range or the window of source copies; it stops early only for a block that is not there at once, or when the first entry has fallen behind the encoded part |
| `StringMatch.Matcher.Search` | xdelta3/xdelta3.c:4548-4812 | the same over the whole loop, lazy matching and restarts included; it ends, and unless it stops early no lookahead is left; a target of equal bytes, at least MIN_RUN and the lookahead, without a source, is queued as one run |
| `StringMatch.Matcher.MatchWindow` | xdelta3/xdelta3.c:3130-3198 | the search step resumed after any number of block requests, continuing a match from the last window first; an empty window is not searched; where the source goes on with the whole target, one copy is queued |
| `StringMatch.EncodeWindow` | xdelta3/xdelta3.c:3130-3212 | search and encoding together, from whatever the window before left behind and for every content of the hash tables: if the search comes to its end, the sections are what the instructions are written as and decode to the target window, for every block size; it waits for a block only with a source that is not there at once, and gives up only with a queue that is full of right entries and compacts to two that overlap; a target of equal bytes without a source comes to one RUN and one byte of DATA; a target with which the source goes on where the last window stopped comes to one copy and no DATA |
| `StringMatch.OverlapNeedsRoom` | xdelta3/xdelta3.c:2494-2526 | a queue that is full and compacts to two overlapping entries takes a window with at least two bytes more than there are slots |
| `EncoderInput.EncodeAll` | xdelta3/xdelta3.c:3070-3286 | input conservation: for pieces of at most winsize ended by a flush, the windows put together are the pieces put together and every window but the last has exactly winsize bytes |
| `EncoderInput.Encoder.BufferLeftover` | xdelta3/xdelta3.c:2848-2906 | what was held back and what is new become a window and a leftover, or are kept, and nothing else |
| `EncoderInput.Encoder.EncodeInput` | xdelta3/xdelta3.c:3089-3286 | every call keeps windows and held input equal to what was supplied |
| `StreamDecoder.ChunkingIrrelevant` | xdelta3/xdelta3-decode.h:808-1215 | for every byte string and every way of cutting it, the statuses, the output and the acceptance or error are those of one call with everything |
| `StreamDecoder.StepResumes` | xdelta3/xdelta3-decode.h:26-68 | each step on a longer input is the step on its beginning, resumed if that asked for more |
| `StreamDecoder.RunProper` | xdelta3/xdelta3-decode.h:808-1215 | whatever bytes arrive, the header is reported once and first, then start, output and end of each window in turn, and no output exceeds the hard limit |
| `StreamDecoder.FileProper` | xdelta3/xdelta3-decode.h:808-1215 | and so for a whole file, in whatever pieces |
| `StreamDecoder.Stream.DecodeInput` | xdelta3/xdelta3-decode.h:808-1215 | the machine runs until it has something to tell; what it will do from there is what one long run would do, and which runs there are `DeltaFrames` says in terms of the bytes |
| `DeltaFrames.FileSound` | xdelta3/xdelta3-decode.h:726-1215 | whatever bytes come, in whatever pieces: everything handed over belongs to frames, one after the other behind a file header, each with all its lengths right, sections that decode to the bytes handed over, and, unless the check is waived, checksum bytes that are their Adler-32 |
| `DeltaFrames.WindowSound` | xdelta3/xdelta3-decode.h:726-1215 | a window is handed over only if its bytes are such a frame |
| `DeltaFrames.FrameRead` | xdelta3/xdelta3-decode.h:726-1215 | and every such frame is handed over, any digits for its numbers, without checksum or with the right one |
| `DeltaFrames.MisSummedRefused` | xdelta3/xdelta3-decode.h:726-806 | a frame whose sections decode to other bytes than those summed ends the run as invalid input |
| `DeltaFrames.UndecodableRefused` | xdelta3/xdelta3-decode.h:726-806 | and so does one whose sections do not decode, or whose source is missing |
| `DeltaFrames.WrittenIsSummed` | xdelta3/xdelta3.c:2815-2840 | a window as the encoder writes it is the one with the checksum of its own target |
| `DeltaFrames.SummedRead` | xdelta3/xdelta3-decode.h:726-806 | a window as the encoder writes it, with any checksum: handed over if the sum is that of its target, and otherwise the end of the run |
| `DeltaFrames.DamageFound` | xdelta3/xdelta3-decode.h:726-806 | a file of sound windows and then one that decodes to other bytes than those summed, damaged or applied to the wrong source, cut in any way: the windows before it are handed over, and with it the run ends as invalid input |
| `DeltaFrames.TargetRefused` | xdelta3/xdelta3-decode.h:91-104 | a window that copies from the target file is never handed over |
| `SectionBuffers.SectionStream.DecodeSections` | xdelta3/xdelta3-decode.h:632-724 | sections read in place, gathered, or some of each are the sections of the specification; when more input is asked for nothing read in place is left over |
| `SectionBuffers.SectionStream.AvailInput` | xdelta3/xdelta3-decode.h:184-262 | the caller may then overwrite its buffer: no section changes |
| `SectionBuffers.SectionStream.Take` | xdelta3/xdelta3-decode.h:184-262 | one section, in place or copied, has exactly the bytes that arrived |
| `DeltaFile.FileRoundTrip` | xdelta3/xdelta3.c:2680-2842 | a file of any windows that decode, with or without checksums and application header, cut in any way, is reported window by window with the target bytes, and the output is the target file |
| `DeltaFile.EmitHdr` | xdelta3/xdelta3.c:2680-2842 | the file header before the first window, and each window header |
| `DeltaFile.WindowRead` | xdelta3/xdelta3-decode.h:982-1212 | the decoder reads one window as it was written and is ready for the next |
| `DeltaFile.FinishedIsDecodable` | xdelta3/xdelta3.c:2680-2842 | a source window that is empty may be left out of the header: the sections then decode without it |
| `FileEncoder.EncodeFile` | xdelta3/xdelta3.c:3070-3286 | the whole encoder: input in pieces of at most winsize, cut into windows, each searched and encoded and written behind its header; when it finishes, every decoder with the same source, whatever its block size and however the file is cut, outputs the pieces of input put together; without a source, or with one that is there at once, and with windows of less than two bytes more than the queue has slots, it always finishes |
| `FileEncoder.WriteWindow` | xdelta3/xdelta3.c:3130-3240 | one window searched, encoded and written; what the search carries over is fit for the next window; it fails only for want of a block or of room in the queue |
| `FileEncoder.EncodeDelta` | xdelta3/xdelta3-merge.h:219-256 | the same windows as a whole-file delta: applied to the source it gives the input |
| `FileEncoder.EncodeAndMerge` | xdelta3/xdelta3-merge.h:530-581 | deltas encoded from a first file to a second and from the second to a third merge, and the merged delta makes the third from the first |
| `Integers.EmitThenRead` | xdelta3/xdelta3-internal.h:186-231 | emit then read is the identity and consumes exactly the bytes emitted |
| `Integers.SizeOfIsLength` | xdelta3/xdelta3-internal.h:236-294 | the size functions give the number of bytes emitted |
| `Integers.ReadAcceptsExactlyFitting` | xdelta3/xdelta3-internal.h:186-213 | a complete digit string is accepted exactly when its value fits the word |
| `Integers.DecodeResumes` | xdelta3/xdelta3-internal.h:160-184 | the resumable reader gives the same result wherever the input is cut |
| `Integers.DecodeAgreesWithRead` | xdelta3/xdelta3-internal.h:160-213 | and agrees with the one-shot reader |
| `Integers.EmitInteger` | xdelta3/xdelta3-internal.h:215-231 | the digits in the ten-byte buffer are the encoding |
| `Adler32.Adler32` | xdelta3/xdelta3.c:1074-1117 | the unrolled, blocked sum equals the per-byte modular definition for every length |
| `Adler32.NoOverflow` | xdelta3/xdelta3.c:1074-1117 | no 32-bit accumulator overflows within 5552 bytes, and a block of 5553 bytes exists that overflows |
| `Adler32.BoundReached` | xdelta3/xdelta3.c:1074-1117 | the largest sums are those of bytes 255 from the largest sums on |
| `BlockSource.BlksizeAdd` | xdelta3/xdelta3.h:1433-1450 | moving on from a block and an offset is moving on in the file |
| `BlockSource.Source.GetBlk` | xdelta3/xdelta3.c:1863-1923 | a block is there exactly when it is the current one; otherwise it is asked for |
| `BlockSource.Source.Fetch` | xdelta3/xdelta3.c:1863-1923 | with a callback, a block is there exactly when the answer says so, and is that block of the file |
| `PrefixBuilder.BuildPrefix` | xdelta3/xdelta3-djw.h:378-504 | for any frequencies with a non-zero entry it ends despite rescaling; lengths are at most maxlen; exactly the symbols in use, among them all that occur, have codes; Kraft's sum is exactly one; the total is the weighted length; and if nothing overflowed no prefix code is shorter in total |
| `PrefixBuilder.Round` | xdelta3/xdelta3-djw.h:402-503 | one pass either finishes or leaves weights on which the next pass is closer to the end |
| `PrefixBuilder.OverflowIsHeavy` | xdelta3/xdelta3-djw.h:470-503 | a length above maxlen takes a total weight of at least a Fibonacci number |
| `PrefixBuilder.MergeTwo` | xdelta3/xdelta3-djw.h:447-460 | the two least roots of the heap are joined under a new one; every weight stays what its depth demands |
| `Huffman.TreeLengths` | xdelta3/xdelta3-djw.h:447-489 | depths in a tree grown by joining the two lightest have Kraft sum one, and no code, of whatever lengths, has a smaller weighted length |
| `Huffman.Deepen` | xdelta3/xdelta3-djw.h:447-460 | exchange: in any code the two lightest roots can be given the same, greatest length at no cost |
| `Heap.HeapInsert` | xdelta3/xdelta3-djw.h:255-269 | the heap stays a heap and gains exactly the entry |
| `Heap.HeapExtract` | xdelta3/xdelta3-djw.h:271-303 | the heap stays a heap and loses exactly one entry, a least one |
| `CanonicalCode.SymbolRoundTrip` | xdelta3/xdelta3-djw.h:506-546 | the canonical code of every symbol is read as that symbol, whatever follows |
| `CanonicalCode.KraftMakesRoom` | xdelta3/xdelta3-djw.h:506-546 | Kraft's inequality is what makes the canonical codes fit their lengths |
| `CanonicalCode.BuildCodes` | xdelta3/xdelta3-djw.h:506-546 | the codes assigned are the canonical ones |
| `CanonicalCode.BuildDecoder` | xdelta3/xdelta3-djw.h:1338-1408 | limit, base and order tables are right for every length and every symbol |
| `CanonicalCode.DecodeSymbol` | xdelta3/xdelta3-djw.h:1410-1477 | with such tables any bits are read as the code lengths say, or refused as they say |
| `MoveToFront.ValuesRoundTrip` | xdelta3/xdelta3-djw.h:552-603 | symbols coded by move-to-front and bijective base-2 runs are read back, and exactly their bits are used |
| `MoveToFront.ComputeMtf12` | xdelta3/xdelta3-djw.h:552-603 | the codes and their counts, with the list changed in place |
| `MoveToFront.UpdateRun` | xdelta3/xdelta3-djw.h:336-356 | the codes of a run |
| `MoveToFront.Decode12` | xdelta3/xdelta3-djw.h:1534-1607 | the decoding loop, one value a round, gives the values the bits stand for or refuses them |
| `BitPacking.BitWriter.EncodeBits` | xdelta3/xdelta3-second.h:175-240 | the bits of a value, highest first, are appended to all bits so far |
| `BitPacking.BitWriter.Flush` | xdelta3/xdelta3-second.h:206-212 | the last byte is filled with fewer than eight zero bits |
| `BitPacking.BitReader.DecodeBits` | xdelta3/xdelta3-second.h:25-73 | the value of the next bits, or the end of the input |
| `BitPacking.TakeWritten` | xdelta3/xdelta3-second.h:25-73 | what was written is read |
| `HuffmanSection.SectionRoundTrip` | xdelta3/xdelta3-djw.h:674-733 | any bytes with any suitable code lengths come back from their bits |
| `HuffmanSection.SectionDecodes` | xdelta3/xdelta3-djw.h:855-954 | what the encoder produces decodes to its input and leaves less than a byte |
| `HuffmanSection.EncodeHuff` | xdelta3/xdelta3-djw.h:855-954 | the output is a section for the input; without the efficiency test there always is one |
| `HuffmanSection.DecodeHuff` | xdelta3/xdelta3-djw.h:1629-1833 | the decoder accepts and rejects, for any input, as the format says, and leaves no input unread when less than a byte of bits is left |
| `HuffmanSection.RoundTrip` | xdelta3/xdelta3-djw.h:1629-1833 | both together are the identity on non-empty byte strings |
| `HuffmanSection.EncodePrefix` | xdelta3/xdelta3-djw.h:674-733 | the code lengths of the bytes as written |
| `HuffmanSection.FibValues` | xdelta3/xdelta3-djw.h:470-503 | maximum lengths 20 and 15 suffice for alphabets of 256 and 22 symbols |
| `BlockCache.Cache.GetBlk` | xdelta3/xdelta3-blkcache.h:460-556 | the block returned is that block of the file, every slot holds a block of the file, and a request hits exactly when its block is among the most recently requested distinct ones |
| `BlockCache.CachedMeans` | xdelta3/xdelta3-blkcache.h:272-334 | the list discipline holds exactly the blocks with no more than lru_size distinct requests since their own |
| `BlockCache.Cache.constructor` | xdelta3/xdelta3-blkcache.h:127-207 | a file that fits is one block; otherwise the first buffer is split into slots, as if its blocks had been requested in order |
| `CyclicList.List.PushBack` | xdelta3/xdelta3-list.h:43-47 | the links stay those of the sequence with the element at its end |
| `CyclicList.List.Remove` | xdelta3/xdelta3-list.h:49-63 | the links stay those of the sequence without the element |
| `CyclicList.List.PopFront` | xdelta3/xdelta3-list.h:73-79 | the first element leaves |
| `DeltaMerge.WholeState.MergeInst` | xdelta3/xdelta3-merge.h:549-575 | one instruction of d2: taken over, or followed through d1, or refused, or past the end; the merged delta stays faithful up to its end |
| `DeltaMerge.WholeState.AppendPiece` | xdelta3/xdelta3-merge.h:435-520 | the part of one instruction of d1 that a copy needs is appended, its address shifted into it |
| `DeltaMerge.WholeState.TakeOverInst` | xdelta3/xdelta3-merge.h:282-359 | runs, adds and target copies are taken over as they are |
| `WholeAppend.AppendInst` | xdelta3/xdelta3-merge.h:159-217 | one parsed instruction is put down with its position in the whole target |
| `WindowEncoder.Encoder.Sequence` | xdelta3/xdelta3.c:2160-2252 | the opcodes written are those of pairing from the front, except for the instruction held back: it gets a double opcode with the new one if the table has one, else its own, and the new one is held |
| `WindowEncoder.Encoder.EmitOperands` | xdelta3/xdelta3.c:2110-2175 | data bytes or coded address of an instruction, as the reference encoding has them, relative to the window decided by then |
| `WindowEncoder.Encoder.EmitSingle` | xdelta3/xdelta3.c:2587-2613 | opcode and size byte of a single instruction |
| `WindowEncoder.Encoder.IoptAdd` | xdelta3/xdelta3.c:2254-2272 | an ADD for the bytes from the encoded part to the next instruction, if there are any, and nothing else |
| `WindowEncoder.Encoder.WidenRange` | xdelta3/xdelta3.c:4065-4083 | the range of source matches grows and everything queued stays covered |
| `AddressCache.AddrCache.Init` | xdelta3/xdelta3.c:1243-1256 | the caches are empty before each window |
| `AddressCache.AddrCache.Update` | xdelta3/xdelta3.c:1258-1272 | the address goes into the next slot of the ring, the ring moves on, and the address goes into its SAME slot, as `CacheState.Update` has it, whose contents over any run `NearHolds` and `SameHolds` give |
| `AddressCache.NearHolds` | xdelta3/xdelta3.c:1258-1272 | after any sequence of addresses, the NEAR ring holds the last four, each in the slot of its number modulo 4, and 0 in slots not yet used; the next slot is that of the next address |
| `AddressCache.SameHolds` | xdelta3/xdelta3.c:1258-1272 | and every SAME slot holds the last of the addresses that belong to it modulo 768, or 0 |
| `AddressCache.NearReads` | xdelta3/xdelta3.c:1354-1396 | mode 2 + j reads as that recent address plus the number |
| `AddressCache.SameReads` | xdelta3/xdelta3.c:1354-1396 | a SAME mode and byte read as an earlier address, if no later one belongs to its slot |
| `WindowDecoder.Decoder.DecodeInstruction` | xdelta3/xdelta3-decode.h:362-397 | an opcode is looked up and both halves are parsed before either is carried out |
| `WindowDecoder.Decoder.CopyWithin` | xdelta3/xdelta3-decode.h:560-590 | a target copy byte by byte, running into its own output if it must |
| `EncoderInput.Encoder.Begin` | xdelta3/xdelta3.c:3107-3128 | a window begins exactly when there is input enough or the flush asks for it |
| `SourceMatch.Extender.BackInBlock` | xdelta3/xdelta3.c:3957-3967 | backward within one block |
| `SourceMatch.EightWords` | xdelta3/xdelta3.c:3851-3869 | how far eight word comparisons get; the word they stop at differs |
| `StringMatch.Matcher.Bounds` | xdelta3/xdelta3.c:3731-3826 | the bounds of a search are the largest that keep it off the encoded part and inside input and source, or the source window once that is decided |
| `StringMatch.Matcher.TrySmall` | xdelta3/xdelta3.c:4731-4790 | what the chain that the small table holds for the position leads to is queued last, as a copy from there, if and only if it has at least the minimum |
| `StringMatch.Matcher.TryLarge` | xdelta3/xdelta3.c:4686-4729 | a source match is taken if and only if the large table points to a place where a search may start and the bytes from there on agree for at least the minimum |
| `StringMatch.Matcher.FindHere` | xdelta3/xdelta3.c:4655-4790 | what is queued at a position: a long enough run, or else a long enough match of the source, or else the long enough repetition that the small table leads to, or else nothing |
| `StringMatch.Matcher.Enter` | xdelta3/xdelta3.c:2507-2526 | a correct instruction is queued; the queue falls behind the encoded part if and only if it was full and its compaction leaves just two entries that overlap |
| `StringMatch.Matcher.StepLazily` | xdelta3/xdelta3.c:4645-4652 | looking past a match for a better one keeps the queue in order |
| `StringMatch.NextRun` | xdelta3/xdelta3.c:441-442 | the incremental run state still tells exactly how long the run at the end of the lookahead is, up to the length of the lookahead |
| `StringMatch.CompRun` | xdelta3/xdelta3.c:1124-1139 | the run state of a fresh lookahead: the length of the run it ends in, and no less |
| `StreamDecoder.DriveResumes` | xdelta3/xdelta3-decode.h:808-1215 | a run over two pieces is the run over the first continued with the second |
| `PrefixBuilder.InitialHeap` | xdelta3/xdelta3-djw.h:404-427 | the symbols with weight are in the heap, each once, and nothing else |
| `PrefixBuilder.GrowTree` | xdelta3/xdelta3-djw.h:447-460 | joining goes on until one tree is left |
| `PrefixBuilder.CodeLengths` | xdelta3/xdelta3-djw.h:464-489 | lengths by counting parents, the total, and whether one is too long |
| `PrefixBuilder.FirstPassOptimal` | xdelta3/xdelta3-djw.h:378-491 | without rescaling the total is the least possible, a faked second symbol included |
| `PrefixBuilder.Rescale` | xdelta3/xdelta3-djw.h:496-503 | every weight is halved and raised by one |
| `Huffman.MergeHeavy` | xdelta3/xdelta3-djw.h:447-460 | what is joined is at least as heavy as a Fibonacci number of its depth |
| `Heap.Reheapify` | xdelta3/xdelta3-djw.h:281-300 | sifting down restores the heap and keeps its entries |
| `CanonicalCode.CodesOfLength` | xdelta3/xdelta3-djw.h:528-537 | the codes of one length are consecutive in symbol order |
| `CanonicalCode.FillInorder` | xdelta3/xdelta3-djw.h:1396-1404 | every symbol with a code stands in the place of its code |
| `CanonicalCode.FillRows` | xdelta3/xdelta3-djw.h:1381-1393 | limit and base of every length |
| `MoveToFront.MoveInPlace` | xdelta3/xdelta3-djw.h:324-334 | the element moves to the front, those before it one on |
| `BitPacking.BitReader.DecodeBit` | xdelta3/xdelta3-second.h:33-63 | one bit, fetching a byte when the last is used up |
| `BitPacking.BitWriter.EncodeBit` | xdelta3/xdelta3-second.h:175-204 | one bit is appended |
| `HuffmanSection.EncodeSymbols` | xdelta3/xdelta3-djw.h:912-937 | the codes of the symbols, one after the other |
| `HuffmanSection.DecodeClclen` | xdelta3/xdelta3-djw.h:1479-1531 | the lengths of the codes for the lengths, zero where none is given |
| `HuffmanSection.DecodeData` | xdelta3/xdelta3-djw.h:1803-1818 | as many symbols as bytes are wanted |
| `BlockCache.Cache.Find` | xdelta3/xdelta3-blkcache.h:293-311 | the slot that holds a block, if one does |
| `BlockCache.Cache.Promote` | xdelta3/xdelta3-blkcache.h:302-304 | a hit moves its slot to the back of the list and its block to the recent end |
| `BlockCache.Cache.Replace` | xdelta3/xdelta3-blkcache.h:316-333 | a miss gives the least recent slot the new block |

## Left out

- WindowDecoder.DecodeByBlocks: a getblk callback; copy window, target window and output buffer together are taken to be below 2^64 bytes, which the header checks (offsets of 32 bits, hard limit on the target) and the size of the buffer see to.
- HuffmanSection.EncodeHuff: several groups (the choice of groups, their selectors and their shared zero lengths).
- HuffmanSection.DecodeHuff: several groups; such input is reported as `Unmodelled`.
- BlockCache.Cache.GetBlk: the FIFO discipline, files that cannot seek, and failing reads.
- BlockSource.Source.GetBlk: the callback (see `Fetch`), and what it learns of the end of the source (`max_blkno`, `onlastblk`, `eof_known`); whether the size of the source is known is fixed for a window.
- EncoderInput.EncodeAll: pieces larger than `winsize`, which the code does not split.
- DeltaMerge.WholeState.MergeInputs: VCD_TARGET windows and empty instructions.
- WholeAppend.AppendWindow: a window that does not decode, where the code trusts the data section, and empty instructions; the encoder makes none of either (`WindowEncoder.Encoder.FinishWindow`).
- StringMatch.Matcher.Search: greedy matching (XD3_BEGREEDY), and what the rolling checksums and the indexing of the source put into the hash tables: their contents are parameters, and any are allowed.
- StringMatch.EncodeWindow: a window whose search ends as `Overlapped`; what the code then writes is not described.
- WindowEncoder.Encoder.FlushInstructions: the unlimited instruction buffer, which is never flushed for lack of room.
- DeltaFile.EmitHdr: a checksum taken over from another delta, and the fields of secondary compressors.
- StreamDecoder.Stream.DecodeInput: flags or sources changed between calls; secondary compressors, of which this build has none; custom code tables (VCD_CODETABLE), which the library no longer reads.
- The links of the instruction queue are a sequence and a count of free slots; the list operations themselves are proved in `CyclicList`.
- `xd3_winst` and section buffers are sequences that grow; allocation sizes and failures are not modelled.
- The B-tree of cpp-btree: vendored and used by none of the above.
- Adaptive Huffman coding (FGK), LZMA, the command line, files, pipes, statistics and messages.
