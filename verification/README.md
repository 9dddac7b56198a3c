# TFTP with Huffman compression: a verified model

This project models the two cores of the TFTP client and server, and proves what they promise.

**Compression** (`src/TFTPCompression.cpp`). `HuffmanArray` is the in-place construction: one array
holds frequencies, inner-node weights, parent indices and finally code lengths, each overwriting the
last. `HuffmanTree` is the tree it builds, as a record of merges, and `Optimality` what that record
implies: no admissible lengths cost less, and weights grow like Fibonacci numbers with depth; with
`KraftInequality`, no prefix code is shorter.
`CanonicalCodes` turns lengths into codes by string addition (`BinaryStrings`), `HuffmanCodes` joins
these. `BitPacking`, `PrefixDecoding` and `CodeTable` are the file's parts, `Compression` the whole
path from a text to a file and back.

**Transfer** (`src/TFTPServer.cpp`, `src/TFTPClient.cpp`, `src/TFTPPacket.cpp`). `Packets` builds and
parses buffers. `ReadEndpoints` and `WriteEndpoints` hold the four receive loops as methods over a
script of receive calls, each tied to a step function; `ReadLaws` and `WriteLaws` say when they stop and
what they answer in terms of the script alone (`Scripts`). `ReadTransfer` and `WriteTransfer` join those
step functions by a network: a packet once sent stays in flight, so it may be delivered never, twice or
late; the loops themselves are shown to end in the states of such runs. `SteadyReads` is the read
transfer over a network that delivers each packet once but loses every acknowledgment sent to the
unset address; `ReadProgress` says how its patient runs end for every file, `ReadDelays` what
impatience can do. `WriteProgress` is the write transfer over a network that delivers each packet once,
`WriteDuplicates` what a duplicated block can do.
`FileTable` is the server's shared table of reader counts. `StoreAndFetch` joins both halves: compress,
write, read, decompress.

Modelling choices:

- Bytes are 0..255. `char` is signed, as on x86 Linux: it orders the code table,
  breaks frequency ties, and makes the read handler's unmasked acknowledgment number wrong when its low
  byte is 128 or more (`src/TFTPServer.cpp:249-250`). The other parsers mask. Both readings are modelled
  (`masked`), so the results say what the code does and what masking would give.
- `size_t` is eight bytes, little-endian. `sum` is a 32-bit `Int32`, proved never to overflow for texts
  shorter than 2^31 bytes.
- Or-ing a clear bit into a byte is an addition; testing bit i is a division by 2^i.
- Code generation is called with at least two distinct symbols: with one, `A[-1]` is written
  (`src/TFTPCompression.cpp:509-511`); with none, a size wraps (`src/TFTPCompression.cpp:326`).
- The server's sockets hear only their own client, which the loops do not check
  (`src/TFTPServer.cpp:86`). The client may hear anyone, but a stranger on the server's host only once
  the server's port is pinned.
- The client's first acknowledgment of a block goes to an address member that is never set
  (`src/TFTPClient.cpp:298`); in `ReadTransfer` it may or may not arrive, in `SteadyReads` it never
  does.
- Both time-outs are five seconds (`src/TFTPClient.cpp:28`, `src/TFTPServer.cpp:325`). In a patient run
  of `SteadyReads` a side therefore times out only when no packet is on its way to a listening side,
  and the client never five times in a row while the server still waits. In `WriteProgress` a side may
  time out at any time, but a fifth time in a row only when the other side has stopped and nothing is on
  its way.
- No temporary files are left over from an earlier transfer, so a received file without a delimiter
  yields an empty table and an empty payload (`src/TFTPCompression.cpp:210-213`).
- Each group of lookups and updates of the server's table, and the whole of check-and-delete, is one
  atomic step; the source has no lock.

Where the code falls short of RFC 1350 or of its own purpose, the exact boundary is proved: lossless
compression (`RoundTripExact` and `LosslessByFrequencies`, with `PaddingDecoded` as a failing text),
files a read can deliver (`ReadCanSucceed`, where section 6 of RFC 1350 asks for an empty last block
after a full one), files that delays alone can make a reader fail on (`DelaysCanFail`: those longer than
one block), files that a duplicated block can make an upload fail on (`DuplicatesCanFail`: those with a
full block), files whose patient reads always end (`PatientRunsEnd`), and files a write can send
(`WriteCanSucceed`).

## Model

| member | source | states |
|---|---|---|
| HuffmanArray.BuildTree | src/TFTPCompression.cpp:478-496 | phase 1 leaves the parent index of every inner node in the array; they belong to a complete run of merges of two lightest nodes, ties going to leaves; the root slot holds the total weight; the 32-bit sum never overflows |
| HuffmanArray.TakeLighter | src/TFTPCompression.cpp:482-493 | taking a queue front never destroys an unread leaf, an unread inner weight or a stored parent, although all share the array |
| HuffmanArray.AssignDepths | src/TFTPCompression.cpp:499-516 | phase 2 writes each leaf's depth in the tree phase 1 built, found there by following parents, although leaf parents were never stored and the parent indices are being overwritten |
| HuffmanTree.ForestStep | src/TFTPCompression.cpp:479-496 | every merge joins two nodes no heavier than any other in the forest |
| HuffmanTree.ParentsLater | src/TFTPCompression.cpp:484 | every parent index exceeds its child's |
| HuffmanTree.ParentsBelow | src/TFTPCompression.cpp:505 | nodes whose parent lies below t are exactly those consumed before merge t, leaves and inner nodes alike: the scan that delimits a level is exact |
| HuffmanTree.RunUnique | src/TFTPCompression.cpp:479-496 | the weights determine the tree |
| LengthAssignments.GreedyStep | src/TFTPCompression.cpp:481-495 | any lengths with Kraft sum at most 1 can be turned into lengths for the merged problem, also with Kraft sum at most 1, that are cheaper by at least the merged weight |
| Optimality.DepthsComplete | src/TFTPCompression.cpp:479-516 | the code lengths have Kraft sum exactly 1 |
| Optimality.DepthsOptimal | src/TFTPCompression.cpp:479-516 | no lengths with Kraft sum at most 1 have a smaller weighted sum |
| Optimality.WeightConserved | src/TFTPCompression.cpp:479-496 | the forest's total weight stays the same through every merge |
| Optimality.DepthNeedsWeight | src/TFTPCompression.cpp:479-516 | a code of length d needs total weight at least Fib(d + 2) |
| HuffmanCodes.DepthBound | src/TFTPCompression.cpp:480 | below 2^31 symbols in all, no code is longer than 44 bits |
| HuffmanCodes.GenerateHuffmanCodes | src/TFTPCompression.cpp:470-556 | the map gives every symbol the canonical code of its depth in the Huffman tree; the code is complete, optimal and prefix-free, and the heaviest symbol has the all-zero code |
| Vectors.ReverseVector | src/TFTPCompression.cpp:323-336 | the array is reversed in place |
| BinaryStrings.AddBinary | src/TFTPCompression.cpp:86-117 | the result's value is the sum of the operands' values, and it is one digit longer than the longer operand exactly when the sum does not fit |
| CanonicalCodes.AssignCodes | src/TFTPCompression.cpp:520-549 | code i has the i-th length and the value that sums 2^(l[i]-l[j]) over the earlier codes j |
| CanonicalCodes.NoCarryOut | src/TFTPCompression.cpp:536-546 | counting up never carries out of a code's width, except after the last code |
| CanonicalCodes.CanonicalPrefixFree | src/TFTPCompression.cpp:518-548 | no code is a prefix of another |
| CanonicalCodes.CanonicalEnds | src/TFTPCompression.cpp:522-529 | the first code is all zeros and the last all ones |
| BitPacking.PackRoundTrip | src/TFTPCompression.cpp:639-670 | unpacking packed bits gives the bits, followed by fewer than eight padding zeros |
| BitPacking.ReadBinaryFile | src/TFTPCompression.cpp:12-73 | the text is the bytes' bits, lowest first |
| BitPacking.UnpackedBit | src/TFTPCompression.cpp:35-60 | character 8i + j of the text is bit j of byte i |
| BitPacking.PackedBitAt | src/TFTPCompression.cpp:639-670 | bit j of packed byte i is set exactly when bit 8i + j of the encoded text is a one |
| Compression.PackText | src/TFTPCompression.cpp:639-670 | the bytes written are the packed bits of the encoded text |
| Compression.SortByFrequency | src/TFTPCompression.cpp:603-614 | every byte of the frequency table is listed once, ascending by frequency and then by signed byte value |
| Bytes.SameModulo256 | src/TFTPCompression.cpp:603-614 | a byte and its value as a signed char agree modulo 256 |
| PrefixDecoding.DecodeText | src/TFTPCompression.cpp:730-743 | greedy decoding of an encoded text returns the text and goes on with whatever bits follow |
| PrefixDecoding.DecodeGreedy | src/TFTPCompression.cpp:730-743 | for any map and any bits: the bits are cut into codes, each ending where it first completes one, and a rest that completes none, and the output is the codes' symbols |
| PrefixDecoding.DecodeZeros | src/TFTPCompression.cpp:730-743 | k zero bits decode to as many copies of the all-zero code's symbol as whole codes fit |
| PrefixDecoding.ReverseInverts | src/TFTPCompression.cpp:710-715 | the reversed table leads every code to a symbol that has it, the last in key order |
| PrefixDecoding.Inflate | src/TFTPCompression.cpp:717-745 | the output is the greedy decoding of the text with the reversed table |
| CodeTable.TableRoundTrip | src/TFTPCompression.cpp:248-319 | reading a written table returns the same table if and only if no string holds a NUL |
| CodeTable.TableReadsBack | src/TFTPCompression.cpp:279-319 | reading a written table returns every string cut at its first NUL |
| CodeTable.TableSorted | src/TFTPCompression.cpp:248-267 | a written table lists the map's entries, each once, by ascending signed key |
| CodeTable.TableParses | src/TFTPCompression.cpp:279-319 | a file is read as a table if and only if it is some entries one after another, and the table is what those entries make, later ones replacing earlier ones |
| CodeTable.DecodeBinaryFileToMap | src/TFTPCompression.cpp:279-319 | entries are read until the file ends exactly at an entry's end; a cut-off entry has no defined result |
| CodeTable.SeparateBinaryFile | src/TFTPCompression.cpp:185-235 | the file is split at the first occurrence of the delimiter, if any |
| CodeTable.SeparateExact | src/TFTPCompression.cpp:198-218 | the parts and the delimiter make up the file, with no earlier delimiter; there is no split if and only if there is no delimiter |
| CodeTable.SeparateCombined | src/TFTPCompression.cpp:130-235 | a table of codes shorter than 127 bits is split off where it ends, whatever the payload contains |
| Compression.Deflate | src/TFTPCompression.cpp:569-693 | the file is table, delimiter and packed bits of the canonical Huffman code for the text's byte frequencies |
| Compression.DeflateDecided | src/TFTPCompression.cpp:569-693 | the text alone decides symbol order, tree and codes, so there is one such file |
| Compression.Decompress | src/TFTPClient.cpp:304-311 | the reading client's four stages in turn, undefined on a cut-off table |
| Compression.NoDelimiter | src/TFTPCompression.cpp:209-213 | a file in which the delimiter does not occur decompresses to an empty file |
| Compression.DecompressesAny | src/TFTPClient.cpp:304-311 | any entries in whose table the delimiter does not show, and any payload, decompress to what the payload's bits decode to with the map of those entries |
| Compression.DecompressesWhen | src/TFTPClient.cpp:304-311 | there is a result if and only if the table part is whole entries |
| Compression.PrefixRoundTrip | src/TFTPCompression.cpp:569-746 | for every prefix code of fewer than 127 bits a code with an all-zero code, deflating and inflating returns the text followed by floor(p / L) copies of that code's symbol, where p is the padding and L the all-zero code's length |
| PrefixDecoding.CopiesQuotient | src/TFTPCompression.cpp:730-743 | the number of copies is the padding divided by the code length, rounded down |
| Compression.RoundTrip | src/TFTPCompression.cpp:569-746 | for the codes deflate makes, the round trip returns the text followed by that many copies of the text's most frequent byte |
| Compression.RoundTripExact | src/TFTPCompression.cpp:668-743 | for such a code the text comes back unchanged if and only if the padding is shorter than the all-zero code |
| Compression.LosslessByFrequencies | src/TFTPCompression.cpp:668-743 | for deflate this is decided by the frequencies alone: the text comes back unchanged if and only if the padding after as many bits as all merged weights add up to is shorter than the heaviest leaf's depth |
| Compression.PaddingDecoded | src/TFTPCompression.cpp:668-743 | the text "aab" comes back with five more a's |
| Compression.DeflateThenInflate | src/TFTPCompression.cpp:569-746 | the round trip for every text of at least two distinct bytes and less than 2^31 bytes |
| Compression.PackedCost | src/TFTPCompression.cpp:639-670 | the packed payload has exactly ceil(weighted code length / 8) bytes |
| Compression.ShortestEncoding | src/TFTPCompression.cpp:470-556 | no prefix code encodes the text in fewer bits than deflate's |
| Compression.NoExpansion | src/TFTPCompression.cpp:639-670 | with an optimal code, as deflate's is, the packed payload is never longer than the text |
| Packets.ReadDataBlock | src/TFTPPacket.cpp:183-195 | the buffer receives block n of the file and nothing else changes; block 0 is empty |
| Packets.BlockAt | src/TFTPPacket.cpp:189-191 | of a file cut into 512-byte pieces, the n-th is what lies from offset (n - 1) * 512 |
| Packets.NextBlock | src/TFTPPacket.cpp:189-191 | consecutive blocks put the file together, and a block is short exactly at the file's end |
| Packets.CreateDataPacket | src/TFTPPacket.cpp:85-92 | header and data are laid out in network order and the rest of the buffer is untouched |
| Packets.CreateRequestPacket | src/TFTPPacket.cpp:18-71 | the packet holds the opcode and both strings, each NUL-terminated and cut at a NUL inside |
| Packets.RequestRoundTrip | src/TFTPServer.cpp:499-528 | the server's parse always recovers the opcode, and file name and mode as well if and only if neither holds a NUL |
| Protocol.PacketsReadBack | src/TFTPClient.cpp:252-272 | data, acknowledgment and error packets as built are read back as what they are, with opcodes 3, 4 and 5 |
| Protocol.KindByOpcode | src/TFTPClient.cpp:252-272 | the first two bytes decide which of these a packet is |
| Packets.UnmaskedReadsBack | src/TFTPServer.cpp:249-250 | the unmasked reading of a block number keeps the low byte and sets the high byte to ones when the low byte is 128 or more; it is right exactly when the low byte is below 128 or the high byte is all ones |
| ReadEndpoints.HandleReadRequest | src/TFTPServer.cpp:207-273 | the loop's packets and exits are those of the sender's step function; k packets allow at most 5(k+1) receive calls |
| ReadEndpoints.HandleRRQRequest | src/TFTPClient.cpp:204-331 | the loop's output, replies and exits are those of the receiver's step function; k packets allow at most 5(k+1) receive calls |
| ReadLaws.SenderStarts | src/TFTPServer.cpp:207-229 | the server opens with block 1, or stops at once if there is none |
| ReadLaws.SenderExit | src/TFTPServer.cpp:239-264 | the server gives up if and only if five calls in a row bring nothing, is satisfied if and only if the awaited block is short and acknowledged, and stops without it if and only if the block after an acknowledged full one is missing |
| ReadLaws.SenderStops | src/TFTPServer.cpp:210-264 | it makes no call after the first such event, and goes on before it |
| ReadLaws.SenderReplies | src/TFTPServer.cpp:210-264 | after each call it sends an error for any packet but the awaited acknowledgment, and then, unless it stops, the block awaited from then on |
| ReadLaws.ReceiverExit | src/TFTPClient.cpp:213-322 | the client fails if and only if five calls in a row bring nothing or its server sends anything but data, and succeeds if and only if its server sends the expected block and it is short; it has written exactly the payloads of the blocks received in their turn |
| ReadLaws.ReceiverStops | src/TFTPClient.cpp:207-324 | it makes no call after the first such event, and goes on before it |
| ReadLaws.ReceiverReplies | src/TFTPClient.cpp:230-299 | a stranger gets an error; so does an illegal packet; a block out of turn is answered to the server with the number before the expected one; the expected block is acknowledged astray; nothing else is sent |
| ReadTransfer.ReadSafety | src/TFTPClient.cpp:204-324 | under any loss, duplication and reordering: the client's bytes are a prefix of the server's file; success on either side means they are all of it and the file is deliverable; the client has accepted every block before the one the server waits for, and none after it |
| ReadTransfer.LoopsFollow | src/TFTPServer.cpp:207-264 | in every run both sides' states, and the packets they have sent, are those their own loops reach on the receive calls of the run |
| ReadTransfer.PlayRead | src/TFTPClient.cpp:204-324 | on the receive calls of any run, the client's loop itself writes a prefix of the server's file, and all of it when it succeeds |
| ReadProgress.FirstAcksLost | src/TFTPClient.cpp:280-299 | in every patient run that delivers each packet once and loses exactly the acknowledgments of freshly written blocks, whatever the file: the server sends each full block twice, in order, and then only the next block; a deliverable file never makes the client fail, and when the run cannot go on, it is delivered, the last block sent five times; of a file with a full last block or too many blocks, the client then holds all that came and has failed, the server having stopped without a word, or, where the server misreads the acknowledgment of block 128, having refused it until it gave up; unless that block is refused, a run has at most 8 actions a round and 6 more |
| ReadProgress.RunEnds | src/TFTPServer.cpp:210-264 | every such run of every file can be continued until it cannot go on |
| ReadProgress.PatientRunsEnd | src/TFTPServer.cpp:249-254 | the length of such runs of a file is bounded if and only if the server can read the acknowledgments of all blocks it gets to; otherwise the refusal of block 128 and its repetitions can overtake the error for ever |
| ReadDelays.DelaysCanFail | src/TFTPServer.cpp:246-254 | without patience, delays alone can make a client fail that never times out if and only if the file is longer than 512 bytes: a second acknowledgment of block 1 is answered with an error |
| ReadProgress.ReadCanSucceed | src/TFTPServer.cpp:221-264 | some run succeeds if and only if the file's last block is short and its length is below 128 blocks (65535 with masked reading) |
| WriteEndpoints.HandleWriteRequest | src/TFTPServer.cpp:62-132 | the loop's output, replies and exits are those of the server's step function; k packets allow at most 5(k+1) receive calls |
| WriteEndpoints.HandleWRQRequest | src/TFTPClient.cpp:398-530 | the loop's packets and exits are those of the client's step function; k packets allow at most 5(k+1) receive calls |
| WriteLaws.UploadExit | src/TFTPServer.cpp:78-131 | the server gives up if and only if five calls in a row bring nothing, and registers the file if and only if the expected block comes and is short; it has written exactly the payloads of the blocks received in their turn |
| WriteLaws.UploadStops | src/TFTPServer.cpp:67-132 | it makes no call after the first such event, and goes on before it |
| WriteLaws.UploadReplies | src/TFTPServer.cpp:62-124 | it acknowledges block 0 unasked, then each block in its turn; any other block and any other packet gets an error; silence gets nothing |
| WriteLaws.AcksInOrder | src/TFTPServer.cpp:62-124 | its acknowledgments are 0, 1, 2 and so on modulo 2^16, up to the block before the expected one, and it answers every packet exactly once |
| WriteLaws.UploaderExit | src/TFTPClient.cpp:400-522 | the client fails if and only if five calls in a row bring nothing, its server sends anything but an acknowledgment or a first one that is not of block 0, or there is no block to send on the awaited one; it succeeds if and only if that block is short |
| WriteLaws.UploaderStops | src/TFTPClient.cpp:400-523 | it makes no call after the first such event, which tells how it ended, and goes on before it |
| WriteLaws.UploaderReplies | src/TFTPClient.cpp:434-522 | a stranger, an illegal packet and a wrong first acknowledgment get an error; the awaited acknowledgment gets the next block; nothing else is sent |
| WriteTransfer.WriteSafety | src/TFTPServer.cpp:62-132 | in every run: the server's bytes are a prefix of the client's file and all of it when registered; the server expects block c or c + 1 while the client waits for c; no block is sent twice; when the client reports success the server lacks at most the last block |
| WriteTransfer.LoopsFollow | src/TFTPServer.cpp:62-132 | in every run both sides' states, and the packets they have sent, are those their own loops reach on the receive calls of the run |
| WriteTransfer.PlayWrite | src/TFTPClient.cpp:398-523 | on the receive calls of any run, the server's loop itself writes a prefix of the client's file, all of it when registered; the client's loop sends no block twice, and succeeds only when the server lacks at most the last block |
| WriteTransfer.LastBlockOpen | src/TFTPClient.cpp:513-522 | for every transferable file there is a run in which the client reports success although the last block is lost, so that the server gives up and registers nothing, and one in which it is stored and registered |
| WriteTransfer.WriteCanSucceed | src/TFTPClient.cpp:500-522 | some run succeeds if and only if the file's last block is short and its length is below 65535 blocks |
| WriteProgress.EachBlockOnce | src/TFTPClient.cpp:484-522 | in every run that delivers each packet once and in which nobody gives up on the other: the client sends the blocks in order, each once; neither side fails on a transferable file; there are at most 10 actions a block and 18 more; when the run cannot go on, a transferable file is stored, registered and reported as sent, and of any other file the server holds all full blocks (the first 65535, if there are more), unregistered, and the client reports failure |
| WriteProgress.RunEnds | src/TFTPServer.cpp:67-132 | every such run can be continued until it cannot go on |
| WriteDuplicates.DuplicatesCanFail | src/TFTPServer.cpp:105-111 | with nothing lost or late, a block delivered twice can make the client fail on an error if and only if the file has 512 bytes or more |
| StoreAndFetch.FetchedText | src/TFTPClient.cpp:298-322 | whatever the networks do, a registered upload of a compressed text, once read successfully, decompresses to the text followed by what the padding decodes to |
| FileTable.ReadersProtected | src/TFTPServer.cpp:680-747 | after every interleaving: each count equals the reads in progress; ending a read finds its entry; finishing a write registers the file and never resets a count; delete succeeds exactly for a registered file on disk without readers, and removes just that file; no request takes a file from its readers |
| FileTable.HistoryTells | src/TFTPServer.cpp:680-747 | the requests and replies so far tell which files the server knows, which are in its directory, and each count: reads begun less reads ended |
| FileTable.RepliesTold | src/TFTPServer.cpp:680-747 | and they decide the reply to every further request |
| FileTable.DeletedStaysGone | src/TFTPServer.cpp:728-734 | a deleted file cannot be read until a write of it finishes |
| FileTable.ReadRestores | src/TFTPServer.cpp:275-280 | starting and ending a read leaves the table as it was |
| FileTable.Server.BeginRead | src/TFTPServer.cpp:193-205 | one more reader, keeping the table consistent; a missing file changes nothing |
| FileTable.Server.FinishRead | src/TFTPServer.cpp:275-280 | one reader less, keeping the table consistent |
| FileTable.Server.CompleteWrite | src/TFTPServer.cpp:129 | the file is registered with no readers unless it already was, whose count is kept |
| FileTable.Server.HandleDeleteRequest | src/TFTPServer.cpp:709-747 | a file with readers or unknown to the table is left alone |

## Left out

- Sockets, addresses, time-outs as durations, logging, arguments, signals, threads and their registry: input and output; a time-out is an event.
- The listing transfer (`handleLSRequest`): the read sender again, without repeated acknowledgments.
- The delete exchange over the network: one request, one reply; its effect on the table is modelled.
- The dispatch of requests by opcode, and the check that the mode is "octet" in any case: a comparison each.
- The text of error messages.
- Packets shorter than four bytes, and failures to open, read or write files: handlers assume or only report them.
- File paths and temporary file names: no property of the transfer rests on them.
- Two writers of one new name at a time: the code checks at the start and registers at the end, so their bytes may mix.
- The commented-out LZ77 code and the unused `reverseMap`.
- Strangers on the server's host that the client hears before the server: the port would be pinned to them.
