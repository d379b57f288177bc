# rzync, verified

rzync copies a file from a source host (`rzsrc`) to a destination host (`rzdst`) that already has an
older copy of it. The source sends a request; the destination answers with the number of whole blocks
of its copy and with a rolling checksum and an MD5 for each; the source scans the new file and sends
literal bytes and references to old blocks; the destination rebuilds the file from them. Both sides
work on fixed 32 KB buffers and on sockets that may move any number of bytes at a time.

The project models both programs as they are written and proves, for every run, when a destination
reports completion and when what it has written is the source file.

| module | what it holds |
|---|---|
| `Bytes`, `Decimal` | octets, `unsigned int` arithmetic, `memcpy`/`memset`/`snprintf`; decimal printing, `str2i` and `str2ll` |
| `Adler32` | direct and rolling checksum in wrapping arithmetic |
| `Md5` | RFC 1321 on 32-bit words, and the program's MD5 on unmasked 64-bit words with its streaming context |
| `Md5Answers`, `Md5TwoBlocks` | three known answers of section A.5 of RFC 1321, computed operation by operation |
| `HashTable` | intrusive circular lists and the checksum hash table, against a linear search |
| `Delta` | a greedy scan of the whole file, the packets of one `prepare_delta` call, what packets rebuild |
| `DeltaParse` | the destination's parser over values: splits of the stream, cut packets, progress |
| `Frames` | the request, the checksum header and the checksum records on the wire |
| `Wire` | what is printed and exactly what is accepted, with the byte values written out |
| `Protocol` | the destination's files and printed paths, and both state machines as functions on values |
| `SourceProcess`, `DestinationProcess` | `rzsrc` and `rzdst` as classes with the programs' own buffers and counters, each method proved to do what the value machine does |
| `Session`, `Runs`, `Guarantees` | both machines joined by two byte streams, the invariant, its preservation by every step, and what follows for all runs |
| `Transfers` | at every moment of every run: what both streams, the source's table, the destination's request and the new file hold, in terms of the two files |
| `Handlers` | whatever a socket call comes to, a handler does nothing, takes one step of the session, or gives up |

How the pieces meet: `Source.PrepareDelta` packs exactly `DeltaCall`, which makes exactly the decisions
of the greedy scan; `Destination.ParseDeltaFile` computes exactly `Parse`, which does not depend on how
the stream is split; the methods for one socket result are proved equal to one step of `Protocol`; the
session invariant is proved over those steps; `Md5.Md5Text` is an instance of the strong hash the rest is
parametric in, and `Guarantees.EndToEndWithMd5` is the result for it.

What is false of the code, and exactly when:

* A session completes if and only if the file is not empty, its modification time is not -1, the old copy
  and the new file can be opened under the paths the destination prints, no old block has rolling checksum
  2^32 - 1, and, when both paths lead to one file, no reference reads a block that is not written yet
  (`Guarantees.Outcome`). An empty file is never reported done, because the size is compared only after a
  write. -1 is the failure value of `str2ll` and `str2i`, and 2^32 - 1 reads back as -1
  (`Guarantees.UnreadableOldFile` names such an old file).
* The paths are printed into 260 characters and cut (rzdst.c:437-442, 252-256). They are the paths meant if
  and only if they are shorter (`Protocol.PathIsWhole`); otherwise an old copy that exists is not found
  (`Guarantees.LongName`), or names with a long common beginning lead to one file
  (`Protocol.CutPathsCoincide`).
* Opening the new file empties it. If it is the old copy, as with one directory for both, references fail
  (`Guarantees.SameFile`) or read bytes of the new file.
* A completed session has written the source file if and only if every reference reads the bytes it stands
  for (`Guarantees.DoneExactly`), which is a condition on the two files. It can only fail by a collision of
  both hashes, by a reference to a block from offset 2^32 on, where the 32-bit seek product wraps
  (`Delta.SeekIsExact`, `Delta.SeekWraps`), or by a reference into the new file itself
  (`Guarantees.EndToEnd`).
* The assertions at the end of `rzsrc` both hold if and only if there are fewer than 2^26 old blocks, because
  `block_nr * 64` is a 32-bit product (`Guarantees.AccountsBalance`). A source they stop has already sent
  everything, and the session completes all the same.

A missing old copy makes the destination close the connection; rzync.h:210-213 says it would send a block
number of 0 instead. The model follows the code.

The comment at rzsrc.c:605-621 argues that the output fits by bounding the data bytes of one call by
`32768 - block_sz + 1`; it does not count headers. `Delta.CallSize` bounds everything one call packs,
headers included, by 32768 - 992 bytes.

## Model

| member | source | states |
|---|---|---|
| Guarantees.EndToEnd | rzdst.c:540-630 | in every run of the two programs, with any split of reads and writes, a destination that reports all done has written the source file and its final hash check has succeeded, or a source window and an old block agree in both hashes and differ, or a reference names a block from offset 2^32 on, or a reference reads from the new file itself |
| Guarantees.DoneExactly | rzdst.c:540-630 | what such a destination has written has the source file's length, and is the source file if and only if every reference reads the source window it stands for |
| Guarantees.ReasonsForWrong | rzdst.c:563-576 | a reference that reads anything else is a collision, lies from offset 2^32 on, or reads from the new file itself |
| Guarantees.EndToEndWithMd5 | rzdst.c:686-705 | the first with MD5 itself as the strong hash: equality of the printed hashes is equality of the digests |
| Guarantees.DoneMeansRebuilt | rzdst.c:596-599 | all done is only reported with exactly as many bytes written as the source file has; they are its bytes if and only if every reference was right, and then the final check succeeds |
| Guarantees.Outcome | rzdst.c:434-461 | once both sides have stopped, the destination has completed if and only if the file is not empty, its modification time is not -1, old copy and new file open under the printed paths, no old checksum is 2^32 - 1, and no reference reads what opening the new file has emptied |
| Guarantees.CompleteRuns | rzsrc.c:785-919 | a run that cannot go on, over channels of any capacity, has stopped both sides and has completed exactly under that condition; the file is then right if and only if every reference is |
| Guarantees.FileIsRebuilt | rzsrc.c:785-919 | when the condition holds and every reference is right, there is a run, constructed step by step over channels of any capacity from one byte up, that stops both sides with the file rebuilt and verified |
| Guarantees.RunToTheEnd | rzsrc.c:785-919 | from every reachable state some run stops both sides, over channels of any capacity from one byte up |
| Guarantees.ShortOldFile | rzdst.c:450-452 | with an old copy shorter than one block that opens under its printed path the session completes with the right file, even when it is the new file |
| Guarantees.LongName | rzdst.c:437-445 | a 255-character name in a directory of at least 4 characters: the old copy exists, its printed path is cut, and every session is given up |
| Guarantees.SameFile | rzdst.c:252-261 | when old copy and new file are one file, even sending the old copy itself fails, because its one block is gone when it is referred to |
| Guarantees.UnsharedIsReadable | rzdst.c:563-573 | an old copy that is left alone can be read wherever the scan refers to it |
| Guarantees.RequestsAreUsable | rzdst.c:146-185 | every request that arrives in a session meets what HandleRead asks for |
| Guarantees.BatchesStayInside | rzsrc.c:371-390 | every batch that arrives in a session meets what StepHeaderReceived asks for |
| Guarantees.UnreadableOldFile | util.h:10-30 | an old file of one block with rolling checksum 2^32 - 1 stops every session |
| Guarantees.NeverStuck | rzsrc.c:785-919 | no reachable unfinished state is stuck, whatever number of bytes from one up each channel can hold |
| Guarantees.RunsEnd | rzsrc.c:848-878 | every run is finite; its length is bounded by the work at its start |
| Guarantees.PhasesInStep | rzdst.c:336-427 | 512, 32 and 64 * block_nr bytes cross before the delta, neither side produces or takes a byte of the next phase early, and in every state, closed ones included, the pending event is the one the state waits for |
| Guarantees.AccountsBalance | rzsrc.c:881-898 | both assertions hold if and only if there are fewer than 2^26 old blocks; duplicated blocks times block size plus literal bytes is the file size, and the wrapped counter says so below 2^42 bytes |
| Guarantees.DestinationHasRoom | rzdst.c:469-486 | a destination waiting for bytes always has room for at least one, so the read never asks for 0 |
| Guarantees.DestinationNeverFails | rzdst.c:479-482 | in a session that can complete, the destination never sees a closed peer or a full buffer before it is done, whatever trailing packet is left unread |
| Guarantees.StreamCompletes | rzsrc.c:652-675 | the whole delta of a non-empty file whose references can be read parses to all done |
| Guarantees.StepKeeps | rzsrc.c:785-919 | every step of either side keeps the session invariant |
| Guarantees.RunKeeps | rzsrc.c:785-919 | the session invariant holds after every run |
| Transfers.RequestStream | rzsrc.c:116-129 | in every run the first 512 bytes to the destination print the file's name, its size, the block size, the modification time and the hash, in this order, and parse to these values, or to an error exactly when the modification time is -1 |
| Transfers.RequestArrived | rzdst.c:146-185 | while the destination is at work it has the source's name, size, block size, modification time and hash, and the whole blocks of the old copy under that name |
| Transfers.NewFileOpened | rzdst.c:252-261 | the new file is the one under the same name in the other directory |
| Transfers.BlockNumberStream | rzdst.c:452-459 | the first 32 bytes to the source print the number of whole blocks of the old copy |
| Transfers.ChecksumStream | rzdst.c:304-326 | the 64 bytes at 32 + 64 * i print i and the two checksums of old block i |
| Transfers.TableDescribesOldCopy | rzsrc.c:371-394 | once all checksums are received record i of the source's table has number i and the checksums of old block i, for every block |
| Transfers.OutputSoFar | rzdst.c:540-630 | at every moment the new file holds what the source's first k packets write, the rest of what arrived is in the buffer, and when every reference is right the new file is a prefix of the source file |
| Transfers.SourceEnds | rzsrc.c:879-912 | after the whole delta the last step is enabled and ends well if and only if the old copy has fewer than 2^26 blocks |
| Transfers.FinalCheck | rzdst.c:686-705 | the verdict of a destination that is done is whether the written file and the source file have the same hash |
| Protocol.PathIsWhole | rzdst.c:437-440 | the printed path is the one meant if and only if it is shorter than 260 characters |
| Protocol.CutPathsCoincide | rzdst.c:252-256 | names that agree up to the cut lead to one path |
| Session.InitHolds | rzsrc.c:783-784 | the invariant holds at the start |
| Runs.SrcWritesKeeps | rzsrc.c:137-159 | a partial or complete write of the source leaves the stream a prefix of request and packets |
| Runs.HeaderArrives | rzsrc.c:231-255 | the 32 bytes the source collects are the header the destination sent, and are accepted |
| Runs.BatchArrives | rzsrc.c:341-394 | a batch is the frames of the next records in order and enters the table as those records, or one of them has checksum 2^32 - 1 |
| Runs.SrcTakesKeeps | rzsrc.c:356-370 | any split of header and batches keeps the invariant; the source gives up only on an unreadable checksum |
| Runs.CallPacks | rzsrc.c:848-866 | one prepare_delta call extends the packets sent by the greedy scan's next decisions, and is neither empty nor larger than the buffer |
| Runs.SrcWorksKeeps | rzsrc.c:842-912 | the local steps of the source keep the invariant; it stops only after the whole delta is written |
| Runs.AccountsDoAgree | rzsrc.c:886-898 | total_sent and total_recved equal the sums of the parts if and only if block_nr is below 2^26 |
| Runs.RequestArrives | rzdst.c:119-186 | the destination recovers name, size, block size, modification time and hash of the source's file, or rejects the request exactly when the modification time is -1 |
| Runs.DeltaTaken | rzdst.c:679-708 | a read of delta bytes continues the parse of everything received so far and fails only if some reference cannot be read |
| Runs.DstTakesKeeps | rzdst.c:639-733 | every read of the destination keeps the invariant; it gives up only when there is no old copy, the modification time is -1 or a reference cannot be read |
| Runs.NextBatchKeeps | rzdst.c:386-399 | after a full buffer the next batch follows, or the switch to reading the delta; it gives up only when the new file cannot be opened |
| Runs.DstWritesKeeps | rzdst.c:336-427 | every write of the destination keeps the invariant |
| Delta.RunRefinesGreedy | rzsrc.c:428-708 | over all calls the references and literal bytes are those of a greedy scan of the whole file that recomputes the checksum at each position, whatever the buffer boundaries |
| Delta.CallRefinesGreedy | rzsrc.c:428-708 | the same for one call from any position |
| Delta.ScanRefinesGreedy | rzsrc.c:548-704 | the packing loop makes the greedy scan's decisions |
| Delta.StepRefinesGreedy | rzsrc.c:548-704 | no turn of the loop changes a decision: literal byte forward, match, end of buffer, end of file |
| Delta.Step | rzsrc.c:548-704 | the window start strictly increases on every turn, up to the end of the buffer |
| Delta.DeltaCall | rzsrc.c:848-866 | every call that packs something uses up at least one source byte |
| Delta.CallSize | rzsrc.c:605-621 | whatever the mix of matches and literals one call packs something, at most 32768 - 992 bytes in all, and leaves less than one block unpacked |
| Delta.CallPacksInOnePiece | rzsrc.c:622-703 | no call packs two literals in a row or an empty one before its end; a call that ends with the file in a buffer not full ends in a literal |
| Delta.TrailingLiteral | rzsrc.c:653-675 | a file that is one old block is sent as its reference and an empty literal |
| Delta.StepFits | rzsrc.c:622-703 | each turn keeps the packed bytes below the bytes scanned, each reference below block_nr and each literal at most 31745 bytes |
| Delta.ScanFits | rzsrc.c:515-703 | the same over the whole loop |
| Delta.IndexIsSound | rzsrc.c:554-573 | a match against the received checksums names a whole old block with the window's bytes, or a collision |
| Delta.SeekIsExact | rzdst.c:567-569 | the 32-bit seek product is exact if and only if the offset is below 2^32, and then the block read is the block named |
| Delta.SeekWraps | rzdst.c:567 | with 1024-byte blocks a reference to block 2^22 reads block 0 |
| Delta.GreedyRebuilds | rzdst.c:551-604 | the greedy decisions, with every block read through the old copy's descriptor at its turn, write as many bytes as the file has, and the file itself if and only if every reference reads its window |
| Delta.GreedyIsRight | rzdst.c:563-576 | references read their windows, or there is a collision, a reference from offset 2^32 on, or a reference into the new file |
| Delta.GreedyIsReadable | rzdst.c:567-573 | in an old copy that is left alone every block referred to can be read whole |
| Delta.NothingFound | rzsrc.c:518-535 | without a match the scan sends the file as literals |
| Delta.PrefixRebuilds | rzdst.c:594-599 | decisions that have written as many bytes as the file has are all of them |
| Delta.WrittenSoFar | rzdst.c:551-604 | when every reference is right, any first part of the decisions writes a prefix of the file |
| Delta.Conservation | rzsrc.c:567-700 | after any number of calls, references times block size plus literal bytes is the number of source bytes packed |
| Delta.TallyByKind | rzsrc.c:634-671 | references alone are counted as references, and all their bytes as reference headers; literals alone count as no reference and add no reference header |
| Delta.TallyIsLength | rzsrc.c:888-892 | header and data counters add up to the bytes packed |
| DeltaParse.ParseSplit | rzdst.c:540-630 | stopping after part of any byte stream and resuming with the rest is parsing all of it |
| DeltaParse.AnySplit | rzdst.c:469-486 | for every sequence of reads the result is that of one parse of the whole stream |
| DeltaParse.HeaderStable | rzdst.c:499-532 | a header, once complete, is not changed by later bytes |
| DeltaParse.PacketRoundTrip | rzdst.c:551-604 | an encoded packet at the front of the buffer is consumed whole and writes its bytes, or is an error exactly when its block cannot be read whole |
| DeltaParse.PacketCut | rzdst.c:556-583 | a packet cut anywhere asks for more, and writes nothing |
| DeltaParse.ParseOfPrefix | rzdst.c:540-630 | any prefix of an encoder's stream parses to the first k packets with an incomplete packet, or a reference that cannot be read, left over |
| DeltaParse.ReadableNeverFails | rzdst.c:540-630 | if all references can be read no prefix of the stream is an error |
| DeltaParse.RoomForMore | rzdst.c:608-629 | waiting for more always leaves less than 31754 bytes in the buffer |
| Frames.RequestFits | rzsrc.c:116-129 | every legal request takes at most 363 of its 512 bytes |
| Frames.RequestRoundTrip | rzdst.c:146-185 | printing and parsing a request gives every field back, newlines in the name and negative modification times included, and fails exactly for a modification time of -1 |
| Frames.LongAt | rzsrc.c:120-126 | a signed 64-bit number printed with %llu comes back through str2ll, all but -1 |
| Frames.HeaderFrameRoundTrip | rzsrc.c:166-175 | the block number comes back from its 32-byte frame |
| Frames.RecordFits | rzdst.c:323-324 | a record fits its 64-byte frame |
| Frames.RecordRoundTrip | rzsrc.c:262-280 | a record comes back from its frame if and only if its checksum is not 2^32 - 1 |
| Frames.BatchRoundTrip | rzsrc.c:371-390 | a batch comes back whole and in order, or not at all when one record is unreadable |
| Frames.UnsignedAt | rzsrc.c:266-274 | an unsigned int printed with %u comes back through str2i, all but 2^32 - 1 |
| Frames.ReadNumber | util.h:10-52 | str2i and str2ll with the callers' test for -1, on any field that ends inside the buffer |
| Wire.PacketOnWire | rzsrc.c:630-649 | a reference is the bytes 36 68 36, its block number in decimal and 10; a literal 36 78 36, its length, 10 and its bytes |
| Wire.HeaderAccepted | rzdst.c:499-532 | a header is incomplete if and only if there is no byte 10, and accepted if and only if it is 36, then 68 or 78, then 36, digits and 10, with a reading other than 2^32 - 1 |
| Wire.PacketAccepted | rzdst.c:551-604 | 68 writes the block or fails if it cannot be read whole, 78 waits for its bytes and writes them, a malformed header fails |
| Wire.RequestOnWire | rzsrc.c:116-129 | the 512 bytes of a request: 35 and the name length, then name, size, block size, modification time and hash each after 36 and before 10, then zeros |
| Wire.RequestRefused | rzdst.c:150-156 | a request that does not begin with 35, whose name is longer than 255 or has no 36 before it is refused |
| Wire.HeaderFrameOnWire | rzdst.c:453-459 | the 32 bytes of a checksum header: 36, the block number, 10, zeros |
| Wire.RecordOnWire | rzdst.c:323-324 | the 64 bytes of a record: number, checksum and hash, each after 36 and before 10, then zeros |
| Wire.RecordAccepted | rzsrc.c:262-280 | a record is accepted if and only if it is two such numbers, neither read as -1, and a third 36 |
| Wire.NumberIsExact | util.h:10-52 | a number is accepted if and only if it is the start byte, digits and 10 and does not read as -1; its value is the two's-complement reading |
| Wire.NoLeadingZero | rzsrc.c:120 | a printed number is digits 48 to 57 without leading zeros |
| Wire.Digits | rzsrc.c:120 | 1234567890 is printed most significant digit first |
| Wire.MatchIsExact | rzsrc.c:554-573 | a window is taken for block nr if and only if the latest record with its rolling checksum has number nr and the window's hash |
| Wire.ReadBytes | rzdst.c:567-569 | byte i of what is read for a reference lies i behind the 32-bit seek product, in the old copy or in what has been written |
| Wire.SharedRead | rzdst.c:563-573 | when the new file is the old copy, a reference into what has been written reads those bytes |
| Wire.WantedBytes | rzdst.c:469-473 | the number of bytes each pending read asks for |
| Wire.PathOnDisk | rzdst.c:437-440 | a path is directory, 47 and name, cut to 259 characters |
| Wire.Sizes | rzync.h:56-155 | the sizes of buffers, frames and names |
| Decimal.Str2Int | util.h:10-52 | the accumulation loop gives the two's-complement reading of the digits and moves the cursor behind the field, or returns -1 and leaves it |
| Decimal.SignedStep | util.h:19-27 | wrapping at every turn of the loop equals wrapping once at the end |
| Decimal.ReadingOfU32 | rzdst.c:526-529 | a printed unsigned int reads as -1 if and only if it is 2^32 - 1, and otherwise converts back to itself |
| Decimal.FieldRoundTrip | util.h:10-30 | parsing a printed field gives the number and the index behind it |
| Adler32.Adler32Checksum | adler32.c:9-26 | the loop unrolled by four and its tail compute byte sum and weighted sum modulo 2^16 for every length |
| Adler32.RollingIsDirect | adler32.c:32-42 | rolling by one byte gives the direct checksum of the new window under 32-bit wrap |
| Adler32.RolledIsDirect | rzsrc.c:583-590 | after any number of slides the rolled checksum is the direct one, as the commented-out assertion says |
| Adler32.AllOnesChecksum | adler32.c:9-26 | a concrete 1024-byte block whose checksum is 2^32 - 1 |
| Wire.ChecksumHalves | adler32.c:25 | the byte sum is the low half of the checksum, the weighted sum the high half |
| Wire.ChecksumOfThree | adler32.c:9-26 | the checksum of the bytes 1, 2, 3 is 6 + 10 * 2^16 |
| HashTable.SlotSearchIsLookup | rzsrc.c:299-311 | walking one slot finds what a linear search of all records finds |
| HashTable.LookupIsLatest | rzsrc.c:287-311 | what is found is the most recently inserted record with that checksum |
| HashTable.MaskIsRemainder | rzsrc.c:282-285 | bitwise and with a mask of k ones is the remainder by 2^k |
| HashTable.ChecksumHashTable.Hash | rzsrc.c:282-285 | num & mask is the remainder by the number of slots |
| HashTable.SlotsPartition | rzsrc.c:282-291 | the slots partition the records |
| HashTable.ChooseHashBits | rzsrc.c:177-184 | the least power of two that is at least nr / 4 |
| HashTable.ListHeadInit | list_head.h:10-14 | an empty circular list |
| HashTable.ListAddBetween | list_head.h:16-24 | links a node between two others |
| HashTable.ListAdd | list_head.h:31-34 | a circular doubly linked list stays one, with the new node first |
| HashTable.ChecksumHashTable.constructor | rzsrc.c:7-29 | all slots are empty circular lists |
| HashTable.ChecksumHashTable.HashInsert | rzsrc.c:287-291 | every slot stays a well-formed circular list of exactly the records that hash to it |
| HashTable.ChecksumHashTable.HashSearch | rzsrc.c:300-311 | returns what the linear search returns, NULL exactly when nothing matches |
| Md5.LowOfSum | md5.c:90-93 | junk above 2^32 does not reach the low half of a sum |
| Md5.LowOfRotation | md5.c:88 | the half-masked rotation rotates the low half |
| Md5.P | md5.c:90-93 | one operation on unmasked 64-bit words has the RFC's 32-bit word in its low half |
| Md5.Line | md5.c:102-180 | a line of md5_process is the operation of that number, with the RFC's word index, rotation and constant |
| Md5.Round1 | md5.c:100-117 | the 16 lines of round 1 are operations 1 to 16 |
| Md5.Round2 | md5.c:121-138 | the 16 lines of round 2 are operations 17 to 32 |
| Md5.Round3 | md5.c:142-159 | the 16 lines of round 3 are operations 33 to 48 |
| Md5.Round4 | md5.c:163-180 | the 16 lines of round 4 are operations 49 to 64 |
| Md5.Md5Context.Starts | md5.c:56-65 | a context that has taken nothing, whose four words are written out; `Md5Answers.InitialWords` ties them to section 3.3 of RFC 1321 |
| Md5.Md5Context.Process | md5.c:67-188 | after a block the low halves of the state are the RFC's words after that block |
| Md5.Md5Context.Update | md5.c:193-232 | the context has taken the input behind what it had taken before, whatever was buffered |
| Md5.Md5Context.Finish | md5.c:245-268 | the output is the digest of everything taken; `Md5Answers` and `Md5TwoBlocks` pin the digest by known answers |
| Md5.CounterCarry | md5.c:204-208 | the carry between the two counters is exact |
| Md5.LengthOfMessage | md5.c:251-256 | the length field is 8 times the number of bytes modulo 2^64 |
| Md5.Md5 | md5.c:273-282 | one-shot digest of the input, the digest of the known answers |
| Md5.Md5File | md5.c:287-314 | reads of any sizes up to 1024 give that digest of the whole file |
| Md5Answers.InitialWords | md5.c:61-64 | the bytes of the four initial words, as section 3.3 of RFC 1321 lists them |
| Md5Answers.EmptyMessage | md5.c:385-404 | the printed digest of the empty message is d41d8cd98f00b204e9800998ecf8427e |
| Md5Answers.AbcMessage | md5.c:385-404 | the printed digest of abc is 900150983cd24fb0d6963f7d28e17f72 |
| Md5TwoBlocks.AlphabetMessage | md5.c:385-404 | the printed digest of both alphabets and the digits, two blocks with padding, is d174ab98d277d9f5a5611c2c9f419d9f |
| Md5.HexRoundTrip | md5.c:385-396 | the printed digest determines the digest |
| Md5.Md5ToStr | md5.c:385-396 | 32 characters and a NUL |
| Md5.Md5sOfStr | md5.c:398-404 | the printed digest of a buffer |
| Md5.Md5sOfFile | md5.c:406-415 | the printed digest of a file |
| SourceProcess.Source.constructor | rzsrc.c:46-98 | a source that has the request in its buffer |
| SourceProcess.Source.PrepareSendSyncRequest | rzsrc.c:116-129 | the first 512 bytes of the buffer are the frame of the file's name, size, modification time, block size and hash; `Wire.RequestOnWire` writes it out |
| SourceProcess.Source.SendSrcBuf | rzsrc.c:137-159 | offset and counter move by what was written; complete only at the end of the buffer |
| SourceProcess.Source.ReceiveChecksumHeader | rzsrc.c:231-255 | collects 32 bytes over any reads and parses them once |
| SourceProcess.Source.PrepareReceiveChecksums | rzsrc.c:192-223 | an empty table, also when there is nothing to receive; its number of slots is the least power of two that is at least a quarter of the records |
| SourceProcess.Source.ParseChecksum | rzsrc.c:262-280 | the record in a frame, or an error |
| SourceProcess.Source.ReceiveBatch | rzsrc.c:355-370 | the read loop fills the buffer with the batch, however it is split |
| SourceProcess.Source.ParseRecords | rzsrc.c:371-390 | the records of the batch go into the table in order; the first unreadable one stops |
| SourceProcess.Source.ReceiveChecksums | rzsrc.c:341-394 | one batch, all received, or an error |
| SourceProcess.Source.Refill | rzsrc.c:436-502 | after a refill the buffer holds the source bytes from the first unpacked one, and is full unless the file has ended |
| SourceProcess.Source.PackHeader | rzsrc.c:521-527 | no header is cut by snprintf |
| SourceProcess.Source.PackBlocks | rzsrc.c:537-704 | the loop packs what the value scan packs, with the checksum rolled along and the hash table searched |
| SourceProcess.Source.MatchFound | rzsrc.c:622-682 | literal before the match, reference, and the end of the file when less than a block is left |
| SourceProcess.Source.NoMatch | rzsrc.c:683-703 | at the end of the buffer the pending literal and one more byte are packed |
| SourceProcess.Source.PackLast | rzsrc.c:518-535 | less than a block of file left goes out as one literal |
| SourceProcess.Source.PrepareDelta | rzsrc.c:428-708 | packs exactly DeltaCall and counts it, or reports the end of the file; less than a block stays unprocessed; `Wire.PacketOnWire` writes the packets out |
| SourceProcess.Source.StepInit | rzsrc.c:787-805 | any result of a write in SRC_INIT takes the object to the state of the value machine's step; an interrupted write changes nothing, a failed one closes the source |
| SourceProcess.Source.StepReqSent | rzsrc.c:806-829 | any result of a read in SRC_REQ_SENT does the same, with a fresh empty table once the header is in; an interrupted read changes nothing, a failed one or a malformed header closes the source |
| SourceProcess.Source.StepHeaderReceived | rzsrc.c:830-841 | a batch, however its bytes arrive, has the effect of one read of the value machine; a batch cut short or unreadable closes the source |
| SourceProcess.Source.StepAllReceived | rzsrc.c:842-847 | in SRC_CHKSM_ALL_RECEIVED the step of the value machine: counters and file position start at zero |
| SourceProcess.Source.PrepareSendDelta | rzsrc.c:405-421 | nothing read, nothing counted, and an empty file buffer |
| SourceProcess.Source.StepCalculate | rzsrc.c:848-866 | in SRC_CALCULATE_DELTA the step of the value machine: the next call's packets in the buffer, or the end |
| SourceProcess.Source.StepSendDelta | rzsrc.c:867-878 | any result of a write in SRC_SEND_DELTA, likewise; an interrupted write changes nothing, a failed one closes the source |
| SourceProcess.Source.StepDone | rzsrc.c:879-912 | the source ends well if and only if total_sent is 512 plus headers and data, and total_recved is 32 plus the 32-bit product of block_nr and 64 |
| SourceProcess.ReadsMerge | rzsrc.c:355-370 | any split of a header or a batch has the effect of one read of all of it |
| DestinationProcess.Destination.constructor | rzdst.c:742-789 | a fresh instance waits for the request |
| DestinationProcess.Destination.RecvSyncReq | rzdst.c:119-186 | collects 512 bytes over any reads and parses them once |
| DestinationProcess.Destination.ParseSyncRequest | rzdst.c:146-185 | the parse of the request, with each of its error returns |
| DestinationProcess.Destination.PrintPath | rzdst.c:437-440 | the path as printed into 260 characters: directory, slash and name, without what does not fit |
| DestinationProcess.Destination.PrepareChecksumHeader | rzdst.c:434-461 | opens the old copy under the printed path; its whole blocks, printed, or an error when that path cannot be opened |
| DestinationProcess.Destination.OpenOldCopy | rzdst.c:647-663 | what on_read does with a complete request is the step of the value machine |
| DestinationProcess.Destination.NextBatch | rzdst.c:386-399 | what on_write does after a full buffer is the step of the value machine |
| DestinationProcess.Destination.AllChecksumsSent | rzdst.c:391-396 | the switch to reading the delta, or giving up when the new file cannot be opened |
| DestinationProcess.Destination.PrepareChecksums | rzdst.c:277-333 | the next at most 512 records, each of its own block, in order, in 64-byte frames |
| DestinationProcess.Destination.SendDstBuf | rzdst.c:194-214 | offset moves by what was written; complete only at the end of the buffer |
| DestinationProcess.Destination.ParseDeltaHeader | rzdst.c:499-532 | the header in a stretch of the buffer, an error, or incomplete, as `Wire.HeaderAccepted` says byte by byte |
| DestinationProcess.Destination.ParseOne | rzdst.c:551-604 | one packet: block read and written, literal written, error, or more needed |
| DestinationProcess.Destination.ParseDeltaFile | rzdst.c:540-630 | computes Parse on the unconsumed bytes; when more are needed they lie at the front of the buffer |
| DestinationProcess.Destination.MoveToFront | rzdst.c:608-628 | compaction keeps the unconsumed bytes |
| DestinationProcess.Destination.PrepareReceiveDeltaFile | rzdst.c:239-266 | an empty new file under the printed path and an empty buffer, and whether that file is the old copy; or an error when it cannot be opened |
| DestinationProcess.Destination.HandleWrite | rzdst.c:336-427 | any result of a write takes the object to the state of the value machine's step, and the pending event matches the state; a write that would block changes nothing, a failed one gives up |
| DestinationProcess.Destination.HandleRead | rzdst.c:639-733 | the same for any result of a read |
| DestinationProcess.Destination.FirstRead | rzdst.c:642-668 | a complete request is refused when it does not parse or the old copy does not open, and otherwise known; a read that would block changes nothing |
| DestinationProcess.Destination.DeltaRead | rzdst.c:679-708 | delta bytes are parsed behind those already there; all done compares the hash of what was written with the request's |
| DestinationProcess.InterruptedReadIsHarmless | rzdst.c:474-478 | parsing again after a read that would block changes nothing |
| Handlers.SrcWriteIsStep | rzsrc.c:137-159 | the result of any write of the source is the step of the session that moves those bytes, nothing at all when interrupted, or giving up when failed |
| Handlers.SrcReadIsStep | rzsrc.c:231-255 | the same for any read of the source |
| Handlers.DstWriteIsStep | rzdst.c:336-427 | the same for any write of the destination; a write that would block changes nothing |
| Handlers.DstReadIsStep | rzdst.c:639-733 | the same for any read of the destination, although the parser runs again after a read that would block |
| Handlers.GivingUpIsFinal | rzdst.c:730-732 | a side that has closed takes no further step |

## Left out

- Sockets, libevent, `lseek`, `fstat`, `malloc` and their failures: streams are byte sequences, the result of a socket call is a parameter, an allocation succeeds.
- Directories, permissions and links: what opening a path for reading or for writing gives, and which file it is, is a parameter; making the directory of the new file is part of opening it. Writes to an open file succeed.
- Files that change while they are read: the source and the old copy are fixed sequences, read whole; only the new file, which may be the old copy, is written. The source's own path is printed in the same way (rzsrc.c:59-62); its file is what that path gives.
- Several sessions at once on one destination, whose printed paths may coincide.
- Losing bytes in flight: a reader sees its peer gone only once the peer has closed; a peer that closed with bytes unread may cut the stream anywhere.
- What the source sees when the destination has closed while a trailing `$N$0` packet is unsent: the source closes without its final assertions.
- Old copies of 2^31 blocks or more (2 TiB at the smallest block size): `checksums_left` is an `int` (rzdst.c:280), turns negative, and makes `send_dst_buf` write from outside the buffer.
- The strong hash is a parameter everywhere but in `Md5` and `Guarantees.EndToEndWithMd5`; nothing assumes it injective.
- Decimal.Str2Int: overflow of `int` and `long long` is taken as two's-complement wrap, which C leaves undefined.
- Decimal.Str2Int: a digit run that does not end inside the buffer is excluded by a precondition; the C loop would read outside it. The same holds for the members that call it (`Frames.ReadNumber`, `SourceProcess.Source.ParseChecksum`, `ParseRecords`, `ReceiveChecksums`, `StepHeaderReceived`). `Guarantees.BatchesStayInside` shows that no session violates it.
- DestinationProcess.Destination.HandleRead: requests with a negative name length, a block size of 0 or at least 2^31 blocks are excluded by a precondition, also of `RecvSyncReq` and `ParseSyncRequest`; the C code has no check for them and would copy out of bounds, divide by zero or write from outside the buffer. `Guarantees.RequestsAreUsable` shows that no session contains one.
- HashTable.ListHeadInit: `containerof` is a field that names the record a link is embedded in.
- HashTable.ChecksumHashTable.HashInsert: the array `checksums` the records live in is not modelled beside the table.
- SourceProcess.Source.PrepareDelta: the 64-bit byte counters are unbounded; only `duplicated_block` wraps.
- Md5.LengthOfMessage: the two counters are numbers; `|` of words without a common bit is their sum.
- DestinationProcess.Destination.HandleWrite: the destination's statistics are not modelled.
- The states SRC_DONE, DST_DELTA_FILE_RECEIVED and DST_DONE, which are never entered.
- The client pool and free list of rzdst (rzdst.c:23-95), argument parsing and printed statistics.
- HMAC-MD5 (md5.c:319-383), unused by either program.
- Content-defined chunking (cdc.c), the scripts, `simple_search` and the test programs.
