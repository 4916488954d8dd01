# Models of five benchmark programs, verified with Dafny

This project models the algorithms in five programs of a benchmark suite and proves what each of them is for:

- **bzip2 in one file** (`benchmarks/bz2/benchmark.c`): the compressor and the decompressor, from the run-length code over both block sorts, move-to-front, code lengths, canonical codes and the bit stream to the state machine behind `BZ2_bzCompress`. Every stage is proved against its inverse in the same file, and the stages are composed: whatever calls a stream was compressed by, in whatever pieces it is decompressed, and by whichever of the two decoders, the input comes back; and what is accepted as a stream is said exactly.
- **Richards** (`benchmarks/richards/richards.c`): the scheduler as a step relation with an inductive invariant and a termination measure, refined by a class that changes its tasks and packets in place, and what work a run does: which letters every device takes, how long a device can be held, and what the counters count.
- **The splay tree** (`benchmarks/splay/splay.js`): top-down splaying as a function on trees, refined by nodes in the heap, what it does to the depths of nodes, and the sorted map on top of it.
- **WTF::HashTable** (`benchmarks/hashset/HashSet.cpp`): open addressing with double hashing, deleted buckets, growing, shrinking, rehashing and copying, as a set.
- **Base64** (`benchmarks/shootout/src/base64.c`): encoder and decoder without branches, against RFC 4648.

Each file holds one module. Methods are proved against functions on values, and the laws are lemmas about those functions. A parser is a function from a bit string to a value and the rest, or to the answer that the input is too short or wrong; the reading methods of the decoder refine these functions for any cut of the input into chunks.

Places where the code and what it promises differ are proved as such:

- Where `char` is signed (as it is for the WebAssembly targets of the suite) `base642bin` takes every byte from 0x80 on for the letter with the value 63, because `EQ` compares too few bits of a negative number. `Base64Codec.AcceptsExactly` says for exactly which strings the decoder then accepts what is no encoding; for strings of ASCII characters, and wherever `char` is unsigned, it accepts exactly the canonical encodings.
- A comment in the copy constructor of `HashTable` gives the load of a copy as at least 3/12 and below 5/12. It can be lower for two reasons. After the doubling it is only at least 5/24, and no more than that can be promised (`HashTables.CopyLoadIsSharp`). And the products are computed in 32 bits: with 2^28 + 1 keys one of them wraps around, the table is doubled although it should not be, and the load is an eighth (`HashTables.CopyLoadWraps`); with 2^29 + 1 keys the size is 0 and the smallest table is made (`HashTables.CopySizeWraps`). `HashTables.CopyLoad` and `HashTables.CopyLoadAsPromised` say for exactly which numbers of keys the bounds hold.
- Growing a hash table of 2^31 buckets makes its size 0; `HashTables.ExpandedSizeIs` says that this is the only table for which the size goes wrong.
- The decoder of bzip2 adds up the digits of a run in 32 bits. A run of RUNB and 31 times RUNA, which stands for 2^32 bytes and so for more than any block holds, is not found corrupt but leaves nothing (`BlockData.LongRunVanishes`); runs of up to thirty digits are exact.

How the source's terms are modelled:

- Arrays of the block sort have the length of the block; the source allocates them for the largest block. The two views `eclass` and `eclass8` of one array, and those of `arr1` and `arr2`, are separate arrays. That writing classes destroys the block is kept, and so is its rebuilding; that symbols may be written over pointers follows from `MoveToFront.EncodeIsNoLonger` and the invariant of `GenerateMtfValues`.
- 32-bit words of the bit buffers, of the header bits and of the hash values are strings of 32 bits; shifts drop what leaves the word. Weights, depths, pointers and counters are numbers, and where the source packs two of them into one word or relies on a width, the packing or the bound is part of the contract (`CodeTree.AddWeights`, `TVector.FillTT`, `SmallDecode.SetLL`, `Base64.Shl`).
- Where the source goes on in a way that depends on memory beyond an array, on a negative length of a run, or on the table of random numbers, a parser answers `Outside` and a reading method `Unmodelled`; nothing else is said from there on, and what was put out before is.
- A decoder that is suspended when the input is used up, and goes on when there is more, is modelled as one that reads from a list of chunks. `Wait` is the status of one that has seen the last chunk.
- The checksum is a fold of an arbitrary step function over the bytes; its inversion at the end of a block is applied to the value that is sent.
- The choice among the Huffman tables (`sendMTFValues`, the iterations that improve on it) is arbitrary: any selectors. The code lengths of each table are made for the symbols of the groups that select it, as in the last iteration.
- `Strategy` says how `mainSort` sorts single small buckets (any function that sorts) and for which blocks its budget runs out (any predicate).
- Buckets of a hash table are empty, deleted or full with a key, for the two reserved values of the key type; the mask is the remainder modulo the table size.
- In Richards packets are numbered, queues are sequences of their numbers, and a task that uses `v1` and `v2` for numbers has numbers and one that uses them for lists has lists.
- Keys of the splay tree are real numbers. A ghost tree of the nodes says how they are linked.

## Model

| member | source | states |
|---|---|---|
| Decompression.DecompressStream | benchmarks/bz2/benchmark.c:1135-1615 | For every byte sequence, cut into any chunks, and with the output taken in pieces of any size, the decoder with tt and the decoder with little memory both end in the status that one functional reading of the bit string (ReadStream) gives, and both have put out the bytes that StreamOut gives, corrupt and truncated streams included; they succeed if and only if the bits are well made of blocks with right checksums and a right trailer, and then with the data of these blocks and the place behind them; the error is the one for a wrong magic number if and only if the first bytes differ from every header. ReadStream is Outside, which says nothing of how the source goes on, only from the place on where the source writes behind selectorMtf, where the 32-bit length of a run is negative, or at the end of a randomised block |
| StreamAcceptance.AcceptedExactly | benchmarks/bz2/benchmark.c:4829-4860 | A bit string is read with success as certain data with a certain rest if and only if it is a header, blocks that stand for these data, each behind the checksum of its bytes, a trailer whose word is the combination of all stored checksums, and that rest |
| StreamAcceptance.TrailerDecides | benchmarks/bz2/benchmark.c:4855-4864 | Behind a header and any blocks with right checksums, a trailer is accepted if it holds the combination of the stored checksums and refused as corrupt otherwise |
| StreamAcceptance.WrongChecksumRefused | benchmarks/bz2/benchmark.c:4836-4846 | Behind a header and any blocks with right checksums, a block whose bytes have another checksum than the stored one, or that breaks off, is refused as corrupt, whatever follows |
| StreamAcceptance.SetPointerRefused | benchmarks/bz2/benchmark.c:4836-4846 | The stream of two bytes a and b with the last bit of origPtr set is refused, for any coding of its block and whatever follows, if the two orders of the bytes have different checksums |
| StreamAcceptance.CombinedCrcIs | benchmarks/bz2/benchmark.c:3688-3690 | Bit j of the combined checksum tells whether an odd number of the bits is set that come to place j when the stored checksum of each block is turned by one place for every block after it |
| StreamAcceptance.HeaderDecides | benchmarks/bz2/benchmark.c:1226-1239 | The header is found wrong exactly when some number of first bytes, up to four, differs from all nine headers |
| StreamAcceptance.OtherMagicRefused | benchmarks/bz2/benchmark.c:1251-1264 | Six bytes that are neither magic number are refused as corrupt where a block or the trailer should begin |
| StreamPrefixes.DecisionStands | benchmarks/bz2/benchmark.c:1135-1615 | Neither success nor refusal is ever taken back: more bits behind leave the verdict and the data as they are, and are left over |
| StreamPrefixes.CutStreamWaits | benchmarks/bz2/benchmark.c:1057-1079 | An accepted stream that is cut short anywhere is waited for, neither accepted nor refused |
| Compression.FinishedStreamDecodes | benchmarks/bz2/benchmark.c:3684-3749 | What a compressor has put out when it returns STREAM_END is read back to exactly the bytes it consumed, and after it come fewer than eight zero bits |
| StreamFormat.StreamRoundTrip | benchmarks/bz2/benchmark.c:3704-3748 | A stream of any blocks that are good (any sort order of tied rotations, any tables and selectors) is read back to the data of its runs with matching block and combined checksums, and nothing beyond it is consumed |
| StreamFormat.BlocksRoundTrip | benchmarks/bz2/benchmark.c:1251-1278 | The same from any block on, for any checksum combined so far |
| Compression.Compressor.BzCompress | benchmarks/bz2/benchmark.c:4435-4492 | Over every sequence of calls: consumed and remaining input together are the input given, output only grows and never by more than the room, the returned code and the next mode are determined (both directions) by mode, action, promised input and progress, FLUSH_OK and FINISH_OK come only with the room used up and something left, and STREAM_END only with all input consumed, nothing pending and the complete stream out; every block sent in a call is full, but for the last one when flushing or finishing has consumed all input; running with less input than could fill the block sends and puts out nothing; between calls no full block is kept back; the block stays within 100000*blockSize100k - 10 bytes |
| Compression.Compressor.HandleCompress | benchmarks/bz2/benchmark.c:4389-4431 | The loop terminates; it conserves input, stops only when there is no room or nothing left to do, sends full blocks only but for the last one once all promised input is in and its run flushed, and reports progress exactly when input or output moved |
| Compression.Compressor.Drain | benchmarks/bz2/benchmark.c:4397-4408 | The output half: it goes on to a new block only when all of the old one is out |
| Compression.Compressor.Fill | benchmarks/bz2/benchmark.c:4410-4426 | The input half: it sends the block if it is full or if the promised input is used up, and otherwise stops with nothing sent and all input taken; the run pending is flushed in the latter case only |
| Compression.Compressor.CopyInput | benchmarks/bz2/benchmark.c:4317-4357 | Input is taken until the block is full or the input ends; no byte is dropped and at most five bytes are added for each |
| Compression.Compressor.CopyOutput | benchmarks/bz2/benchmark.c:4362-4384 | What is put out is the next part of the bytes written; it stops only at their end or without room |
| Compression.Compressor.PrepareNewBlock | benchmarks/bz2/benchmark.c:4145-4154 | A new block keeps the pending run and everything sent before |
| Compression.Compressor.CompressBlock | benchmarks/bz2/benchmark.c:3684-3749 | The block's bits follow what was written, the header comes first and the trailer last, an empty block is not sent, and the stream so far stays one that decodes to what was consumed |
| Compression.SendHeader | benchmarks/bz2/benchmark.c:3704-3710 | The four header bytes |
| Compression.SendTrailer | benchmarks/bz2/benchmark.c:3739-3748 | With the end mark, the combined checksum and the filling bits the stream is complete |
| Compression.PutWord | benchmarks/bz2/benchmark.c:3165-3171 | bsPutUInt32 appends the 32 bits of the word |
| RunLength.RunsRoundTrip | benchmarks/bz2/benchmark.c:4244-4312 | Expanding a block made of any admissible runs (up to 255 bytes each, and equal neighbours only after a run of 255) gives their data, whatever is read beyond the block, and is never found corrupt |
| RunLength.BuiltBlockExpands | benchmarks/bz2/benchmark.c:4244-4312 | A block that the encoder built expands to its input, and the checksum of what is expanded is the encoder's |
| RunGroups.ExpandsExactly | benchmarks/bz2/benchmark.c:4617-4708 | A block is expanded if and only if it is made of groups of one to three equal bytes before another byte and of four equal bytes with a count, and then to the bytes of these groups; it is found corrupt if and only if it ends with four equal bytes and no count |
| RunLength.BlockBuilder.AddPairToBlock | benchmarks/bz2/benchmark.c:4244-4275 | The block, its characters in use and its checksum after the run are those of the list of runs with one more |
| RunLength.BlockBuilder.AddCharToBlock | benchmarks/bz2/benchmark.c:4288-4312 | One byte more is in the data of the block and of the pending run; the block grows by at most five |
| RunLength.BlockBuilder.FlushRL | benchmarks/bz2/benchmark.c:4280-4284 | The pending run goes into the block, and the data stay the same |
| RunLength.BlockBuilder.NewBlock | benchmarks/bz2/benchmark.c:4145-4154 | The pending run is what the new block begins with |
| Unrle.FastOutput.Output | benchmarks/bz2/benchmark.c:4617-4708 | For any room: what is written followed by what is left is what was left before, the room is used up unless nothing is left, and the checksum is that of the bytes written |
| Unrle.SmallOutput.Output | benchmarks/bz2/benchmark.c:4771-4815 | The same for the loop that takes bytes from the packed vector |
| Unrle.FastOutput.StartRun | benchmarks/bz2/benchmark.c:4659-4687 | Taking one to five bytes from tt starts the next run without changing what is left to write |
| Unrle.SmallOutput.StartRun | benchmarks/bz2/benchmark.c:4787-4812 | The same from the packed vector |
| Unrle.SlicesAgree | benchmarks/bz2/benchmark.c:4617-4815 | For the same room the two loops write the same bytes and have the same left |
| Unrle.StreamStartsWithBlock | benchmarks/bz2/benchmark.c:1575-1582 | The first nblock bytes of the endless walk along T are the block |
| InverseBwt.InvertLastColumn | benchmarks/bz2/benchmark.c:1568-1582 | For every non-empty block and every weakly sorted permutation of its cyclic rotations, with ties in any order, the counting pass and nblock steps give the block back, periodic blocks included |
| TVector.FillTT | benchmarks/bz2/benchmark.c:1568-1573 | After the counting pass every entry holds its character in the low byte and the stable sorting permutation above it, although both are written into one array |
| TVector.FastInvert | benchmarks/bz2/benchmark.c:820-823 | nblock steps of GET_FAST emit the inverse of the last column |
| SmallDecode.SetLL | benchmarks/bz2/benchmark.c:830-842 | Setting a 20-bit entry changes that entry and no other |
| SmallDecode.BuildT | benchmarks/bz2/benchmark.c:1538-1543 | The packed entries become the inverse of the sorting permutation while the column is read from the same array |
| SmallDecode.ReverseCycle | benchmarks/bz2/benchmark.c:1545-1554 | Reversing pointers in place along the cycle through origPtr ends, and leaves on every place of the cycle the pointer of the inverse permutation |
| SmallDecode.CycleReversed | benchmarks/bz2/benchmark.c:1548-1554 | The pointer written last closes the reversed cycle |
| SmallDecode.IndexIntoF | benchmarks/bz2/benchmark.c:1121-1132 | The binary search ends with the one character whose part of the sorted column holds the index |
| SmallDecode.PointBack | benchmarks/bz2/benchmark.c:1535-1554 | Both passes together turn a column into pointers along the cycle of the block |
| SmallDecode.SmallInvert | benchmarks/bz2/benchmark.c:847-849 | nblock steps of GET_SMALL emit the same bytes as the fast decoder |
| FallbackSort.FallbackSort | benchmarks/bz2/benchmark.c:1913-2030 | For every non-empty block fmap is a permutation sorted weakly by whole rotations, and the block, which the classes overwrite, is rebuilt unchanged |
| FallbackSort.RadixSort | benchmarks/bz2/benchmark.c:1932-1958 | The first pass sorts by one character, and the header bits mark exactly the bucket starts |
| FallbackSort.EnterClasses | benchmarks/bz2/benchmark.c:1967-1972 | The classes compare the H characters that follow the first H |
| FallbackSort.RefinePass | benchmarks/bz2/benchmark.c:1974-2007 | One pass at depth H: fmap is sorted by 2H cyclic characters, and a header bit is set exactly where these change |
| FallbackSort.RebuildBlock | benchmarks/bz2/benchmark.c:2023-2028 | The character counts and the sorted order give the block back |
| BucketRefinement.PassDoubles | benchmarks/bz2/benchmark.c:1996-2006 | Sorting every bucket by class doubles the number of characters compared |
| BucketRefinement.RefinedIsSorted | benchmarks/bz2/benchmark.c:2012-2013 | Either way out of the loop means sorted by whole rotations |
| BucketHeaders.FirstClear | benchmarks/bz2/benchmark.c:1979-1985 | The search a word at a time finds the first clear bit |
| BucketHeaders.FirstSet | benchmarks/bz2/benchmark.c:1987-1992 | The search a word at a time finds the first set bit |
| FallbackQSort.FallbackQSort3 | benchmarks/bz2/benchmark.c:1794-1881 | fmap[lo..hi] is rearranged into order by class, nothing else changes, the sort ends, and the stack of 100 entries never fills up, for every range that Int32 can number |
| FallbackQSort.StackStaysShallow | benchmarks/bz2/benchmark.c:1873-1879 | Pushing the larger part first keeps the stack within 30 entries |
| FallbackQSort.Partition | benchmarks/bz2/benchmark.c:1833-1871 | The two scans and the two block swaps part the range in three by the median, or find all classes equal |
| FallbackQSort.FallbackSimpleSort | benchmarks/bz2/benchmark.c:1733-1760 | The two insertion passes sort a short range and only rearrange it |
| RadixSorting.MainSort | benchmarks/bz2/benchmark.c:2452-2719 | Unless it is given up: whatever sorts single small buckets, the result is a permutation sorted weakly by whole rotations |
| RadixSorting.SomeStrategySorts | benchmarks/bz2/benchmark.c:2598-2601 | There are functions that sort every small bucket as MainSort wants it, so its hypothesis can be met |
| MainSorting.PointerScan | benchmarks/bz2/benchmark.c:2612-2645 | If the small buckets [ss, j] with j other than ss are sorted, the two self-feeding scans leave every [t, ss] with t not done, and [ss, ss] itself, sorted; everything else stays, each rotation stays in its bucket, and assertion 1007 holds |
| ScanOrder.CursorsMeet | benchmarks/bz2/benchmark.c:2638-2645 | The cursors meet in every small bucket unless the block is one character repeated |
| ScanOrder.AllHeadsKnown | benchmarks/bz2/benchmark.c:2624-2635 | Every rotation of the big bucket is reached by one of the scans, unless the block is one character repeated |
| ScanOrder.BigInOrder | benchmarks/bz2/benchmark.c:2613-2618 | The synthesised order of [ss, ss] is right to any number of characters |
| ScanOrder.LeadingInOrder | benchmarks/bz2/benchmark.c:2613-2618 | So is that of every small bucket that leads into ss |
| ScanOrder.StillBucketed | benchmarks/bz2/benchmark.c:2624-2635 | The scans leave a permutation in which every rotation is in its bucket |
| PointerScans.StepLeft | benchmarks/bz2/benchmark.c:2624-2629 | One write of the left scan has room, overwrites nothing still to be read, and keeps what is known |
| PointerScans.StepRight | benchmarks/bz2/benchmark.c:2630-2635 | The same for the right scan |
| MainSorting.SortSmallBuckets | benchmarks/bz2/benchmark.c:2579-2608 | Step 1 sorts and marks the small buckets that are not marked yet |
| MainSorting.SortBigBuckets | benchmarks/bz2/benchmark.c:2569-2688 | Taking the big buckets in any order, with steps 1 and 2 for each, sorts all rotations; assertion 1006 holds |
| RadixSorting.CountCodes | benchmarks/bz2/benchmark.c:2470-2493 | Every two-byte code is counted |
| RadixSorting.PutPositions | benchmarks/bz2/benchmark.c:2506-2531 | Every position is put into the slots of its code, in ascending order within a code |
| RadixSorting.AllPut | benchmarks/bz2/benchmark.c:2503-2531 | The two-byte radix sort gives a permutation in buckets whose starts are left in ftab |
| RadixSorting.RunningOrder | benchmarks/bz2/benchmark.c:2538-2561 | The shell sort lists all big buckets, the smallest first |
| CompressBlock.BlockSort | benchmarks/bz2/benchmark.c:2732-2779 | Whichever sort is used, ptr is sorted by rotations, the block is unchanged, and ptr[origPtr] is 0 |
| MoveToFront.DecodeUndoesEncode | benchmarks/bz2/benchmark.c:3202-3313 | Decoding the symbols of any column, with runs of the front character as digits of bijective base two, gives the column back |
| MoveToFront.RunRoundTrip | benchmarks/bz2/benchmark.c:3256-3270 | The digits RUNA and RUNB of a run decode to a run of that length |
| MoveToFront.EncodeIsNoLonger | benchmarks/bz2/benchmark.c:3217-3222 | There are never more symbols than bytes read, so symbols may be written over pointers already used |
| GenerateMtf.GenerateMtfValues | benchmarks/bz2/benchmark.c:3202-3313 | The symbols written are the encoding of the last column over the characters in use, and no more than nblock + 1 |
| GenerateMtf.EmitRun | benchmarks/bz2/benchmark.c:3256-3268 | The loop that halves writes exactly the digits of the run |
| GenerateMtf.MapsInverse | benchmarks/bz2/benchmark.c:3188-3197 | The map to sequence numbers and the map back are inverse on the characters in use |
| MtfArray.MtfList.Take | benchmarks/bz2/benchmark.c:1445-1497 | The two-level array of 16 sliding segments refines move-to-front on a plain list of 256, for every index |
| MtfArray.Repack | benchmarks/bz2/benchmark.c:1485-1494 | Repacking keeps the list, and writes over no item still to be read |
| MtfArray.Slide | benchmarks/bz2/benchmark.c:1477-1482 | Each segment up to the one taken from slides down by one, with the last item of the one before |
| MtfArray.ShiftUpByFours | benchmarks/bz2/benchmark.c:1455-1465 | Moving four items at a time and then one at a time is one shift by one place |
| ColumnReading.ReadMtfValues | benchmarks/bz2/benchmark.c:1401-1508 | The loop over runs and moves writes the column that the symbols stand for, counts its characters, and ends in the status that the symbols and the room call for; lengths of runs are added in 32 bits, and a negative one is Unmodelled |
| ColumnReading.ReadRun | benchmarks/bz2/benchmark.c:1410-1420 | The digits of a run of any number of digits add up to its length in 32 bits, where weights and sums wrap around |
| BlockData.LongRunVanishes | benchmarks/bz2/benchmark.c:1410-1429 | RUNB and 31 times RUNA have the sum 2^32: they leave nothing, in any room, and reading goes on behind them with a weight of 0 |
| BlockData.ShortRunsAreExact | benchmarks/bz2/benchmark.c:1410-1420 | The sum of up to thirty digits is held exactly |
| BlockData.UnpackWraps | benchmarks/bz2/benchmark.c:1410-1420 | Of the sum and the weight so far only the remainders modulo 2^32 decide what is read |
| CodeLengths.HbMakeCodeLengths | benchmarks/bz2/benchmark.c:2897-2982 | For every non-negative frequency vector it ends, all lengths are between 1 and maxLen, the Kraft sum is exactly 1, and the lengths are optimal: no lengths that there is code space for take fewer bits for the frequencies (each at least 1) after the halvings that took place, and each halving took place only because an optimal code was longer than maxLen |
| OptimalCodes.TreeIsOptimal | benchmarks/bz2/benchmark.c:2918-2957 | The depths of the leaves of a tree that was merged from the two lightest trees at every step cost no more than any lengths whose Kraft sum is at most 1 |
| OptimalCodes.BringDown | benchmarks/bz2/benchmark.c:2934-2937 | Every complete code for the trees that are left can be changed, without costing more, so that the two lightest have the same and the greatest length |
| OptimalCodes.Fill | benchmarks/bz2/benchmark.c:2948-2955 | Lengths that leave code space over can be made shorter until they are complete |
| OptimalCodes.HeavierIsNoLonger | benchmarks/bz2/benchmark.c:2948-2955 | In an optimal code a symbol that weighs more has no longer a code |
| CodeLengths.SeventeenBitsSuffice | benchmarks/bz2/benchmark.c:3531-3533 | The limit of 17 bits meets the condition for every alphabet of up to 258 symbols |
| CodeLengths.TooLongIsHeavy | benchmarks/bz2/benchmark.c:2948-2957 | A code longer than maxLen needs a total weight of at least a Fibonacci number |
| CodeLengths.ScalingLightens | benchmarks/bz2/benchmark.c:2976-2980 | A rescale lowers the total weight as long as it is above two for each symbol |
| CodeLengths.ScaleWeights | benchmarks/bz2/benchmark.c:2976-2980 | Halving as the source computes it, on weights that carry a depth byte |
| CodeLengths.BuildTree | benchmarks/bz2/benchmark.c:2918-2946 | Merging by the heap ends in one tree over all symbols that keeps their weights |
| CodeLengths.TreeIsComplete | benchmarks/bz2/benchmark.c:2948-2955 | The depths of the leaves make a complete code |
| CodeTree.AddWeights | benchmarks/bz2/benchmark.c:2863-2865 | The weights add up, and the height of the new node, or-ed into the low byte, is one more than the greater one, as long as it fits into a byte |
| Bits.OrIsSum | benchmarks/bz2/benchmark.c:2863-2865 | The bitwise or of a 32-bit number without its low byte and a byte is their sum, in either order |
| CodeTree.HeightFits | benchmarks/bz2/benchmark.c:2859-2865 | Below a total weight of 2^23 the depth stays below 33 |
| CodeTree.MergeWeighed | benchmarks/bz2/benchmark.c:2935-2943 | Merging the two lightest trees keeps every tree at least as heavy as a Fibonacci tree of its height |
| CodeHeap.UpHeap | benchmarks/bz2/benchmark.c:2867-2876 | The heap is restored and holds the same nodes |
| CodeHeap.DownHeap | benchmarks/bz2/benchmark.c:2878-2893 | The heap is restored and holds the same nodes |
| CanonicalCodes.HbAssignCodes | benchmarks/bz2/benchmark.c:2986-3000 | Codes of one length are handed out in the order of the symbols, from the first code of that length |
| CanonicalCodes.KraftFits | benchmarks/bz2/benchmark.c:2986-3000 | For lengths from 1 to m: no code needs more bits than its length if and only if the Kraft sum is at most 1 |
| CanonicalCodes.CompleteFits | benchmarks/bz2/benchmark.c:2986-3000 | So it is for complete lengths, which are those the compressor makes |
| CanonicalCodes.ReadWritten | benchmarks/bz2/benchmark.c:1102-1115 | For any lengths in 1 to 20 that leave no code too long, a symbol's bits are read back as that symbol, and nothing beyond them is read |
| CanonicalCodes.ReadMeansWritten | benchmarks/bz2/benchmark.c:1102-1115 | A symbol is only ever read from its own code |
| DecodeTables.HbCreateDecodeTables | benchmarks/bz2/benchmark.c:3004-3034 | limit, base and perm come out as the canonical code has them, lengths that no symbol has included |
| DecodeTables.LimitDecides | benchmarks/bz2/benchmark.c:1105-1115 | One comparison with limit decides whether the code has ended, and then the index into perm is in range and right |
| DecodeTables.ReadMtfVal | benchmarks/bz2/benchmark.c:1102-1115 | Reading through the tables, gMinlen bits at once, is reading the canonical code bit by bit; the range check before perm never fires |
| BitWriting.BitWriter.Write | benchmarks/bz2/benchmark.c:3140-3161 | The n bits of v are appended |
| BitWriting.BitWriter.Finish | benchmarks/bz2/benchmark.c:3128-3136 | All bits are out, followed by fewer than eight zeros |
| BitReading.BitReader.GetBits | benchmarks/bz2/benchmark.c:1057-1079 | The next n bits, however the input is cut into chunks; without enough input nothing is consumed |
| Bits.OrAppends | benchmarks/bz2/benchmark.c:3158-3159 | Or-ing a shifted value into the buffer appends its bits to the live ones |
| BlockData.BlockRoundTrip | benchmarks/bz2/benchmark.c:3730-3734 | Reading what is written for a sorted block gives the last column, origPtr and, inverted, the block, and consumes exactly its bits, for any choice of tables and selectors |
| BlockData.ColumnRoundTrip | benchmarks/bz2/benchmark.c:3576-3676 | The map, the selectors, the tables and the codes of a column are read back to the column |
| BlockData.UnpackWritten | benchmarks/bz2/benchmark.c:3626-3676 | The codes of symbols, with a new selector every 50, are unpacked to the column that they stand for if there is room for it |
| BlockData.CodingRoundTrip | benchmarks/bz2/benchmark.c:3599-3621 | Selectors and code lengths are read back |
| BlockFormat.MapRoundTrip | benchmarks/bz2/benchmark.c:3576-3593 | The map of the characters in use is read back |
| BlockFormat.SelectorsRoundTrip | benchmarks/bz2/benchmark.c:3543-3560 | Move-to-front on the selectors is undone |
| BlockFormat.UnariesRoundTrip | benchmarks/bz2/benchmark.c:3603-3606 | Numbers in unary below a limit are read back |
| BlockFormat.LengthsRoundTrip | benchmarks/bz2/benchmark.c:3616-3620 | Steps of one up or down lead from length to length and back |
| BlockFormat.TablesRoundTrip | benchmarks/bz2/benchmark.c:3613-3621 | All tables are read back |
| SendMtf.SendMtfValues | benchmarks/bz2/benchmark.c:3321-3680 | Whatever selectors are chosen, what is written is a coding of the column that the round trips above apply to, with tables that are optimal for their groups |
| SendMtf.MakeTables | benchmarks/bz2/benchmark.c:3526-3541 | For any selectors the code lengths are complete and at most 17, and each table is optimal for the symbols of the groups that use it; assertions 3002 and 3003 hold |
| SendMtf.CountFrequencies | benchmarks/bz2/benchmark.c:3511-3514 | The frequencies of a table are the numbers of occurrences of the symbols in the groups that use it |
| SendMtf.ComputeSelectorMtf | benchmarks/bz2/benchmark.c:3543-3560 | The in-place search and shift computes the places of the selectors |
| SendMtf.SendCoding | benchmarks/bz2/benchmark.c:3599-3621 | Writes the selectors and the tables |
| SendMtf.SendMap | benchmarks/bz2/benchmark.c:3576-3593 | Writes the map |
| CompressBlock.WriteSorted | benchmarks/bz2/benchmark.c:3730-3734 | Writes the block from the randomisation bit on |
| DecompressBlock.ReadMapping | benchmarks/bz2/benchmark.c:1295-1310 | Reads the map as the format has it |
| DecompressBlock.ReadBlockCoding | benchmarks/bz2/benchmark.c:1315-1358 | Reads selectors and tables, with the errors of the source; more than 18002 selectors, for which the source writes behind its array, are Unmodelled after the 18003rd is read |
| DecompressBlock.UndoSelectorMtf | benchmarks/bz2/benchmark.c:1331-1343 | Undoes move-to-front on the selectors |
| DecompressBlock.ReadCodeLengths | benchmarks/bz2/benchmark.c:1347-1357 | Reads one table, with the check on every step |
| DecompressBlock.CreateTables | benchmarks/bz2/benchmark.c:1360-1376 | The decoding tables are those of the code lengths read |
| DecompressBlock.GetMtfVal | benchmarks/bz2/benchmark.c:1088-1116 | groupNo and groupPos select the table of the group that the symbol is in |
| BlockReading.ReadSorted | benchmarks/bz2/benchmark.c:1280-1525 | The block body is read as the format has it, with the 32-bit lengths of runs and the fixed number of selectors, cftab holds the starts of the characters, and the errors are those of the source |
| BlockReading.CheckStarts | benchmarks/bz2/benchmark.c:1520-1525 | The check on cftab finds an entry beyond the block if there is one |
| Decompression.ReadDataFast | benchmarks/bz2/benchmark.c:1566-1585 | The fast way from the bits of a block to its data and checksum, the bytes in front of a corrupt place included, for blocks that are not randomised |
| Decompression.ReadDataSmall | benchmarks/bz2/benchmark.c:1533-1564 | The way with little memory has the same contract |
| Decompression.ReadChecked | benchmarks/bz2/benchmark.c:1270-1278 | A block with its checksum is read as the format has it, and its bytes go out before the checksum is compared; a randomised one is read and then Unmodelled |
| Decompression.ReadMagic | benchmarks/bz2/benchmark.c:1251-1264 | The magic bytes are compared one by one |
| RichardsRuns.BenchmarkEnds | benchmarks/richards/richards.c:331-364 | From setup with any count of at least 1 the invariant holds, the scheduler reaches tcb == 0, and the idle task has run exactly count times |
| RichardsRuns.StepKeepsInv | benchmarks/richards/richards.c:129-175 | Every step keeps the invariant: each packet is in exactly one place, PKTBIT is set exactly when a queue is non-empty, a waiting device holds no packet, and no task ahead of tcb can run |
| Richards.StepSound | benchmarks/richards/richards.c:129-329 | The part of the invariant about packets and tasks, for every task function |
| Richards.QpktSound | benchmarks/richards/richards.c:213-237 | qpkt finds the target of every packet that is sent, and puts the packet into that queue and nowhere else |
| RichardsWork.IdleReleases | benchmarks/richards/richards.c:239-253 | The idle task with runs left releases device B exactly if the low bit of the seed is set and device A otherwise, and changes nothing else but the seed |
| RichardsSeed.NextIsShifted | benchmarks/richards/richards.c:243-252 | Every bit of the new seed comes from the place above it, and is turned over at the places 3, 12, 14 and 15 if the low bit was set |
| RichardsSeed.SomeClear | benchmarks/richards/richards.c:243-252 | The low bit is never set seventeen times in a row |
| RichardsSeed.SomeSet | benchmarks/richards/richards.c:243-252 | From a seed other than 0 the low bit is never clear sixteen times in a row |
| RichardsLetters.HeldDeviceIsReleased | benchmarks/richards/richards.c:239-253 | From setup on, wherever the run is with more than seventeen runs of the idle task left: each device is released within seventeen of them |
| RichardsWork.ReleasedGoesOn | benchmarks/richards/richards.c:305-313 | A device that was holding sends its packet back to its handler in the step after its release |
| RichardsWork.WorkerPosts | benchmarks/richards/richards.c:255-274 | A worker with a packet writes the next four letters of the alphabet into it and queues it for the handler that it did not send to last |
| RichardsLetters.StepKeepsLetters | benchmarks/richards/richards.c:276-320 | In every step the letters on their way through a handler to its device, and those the worker sends to it, are the letter that the device takes and those on the way afterwards, in the same order |
| RichardsLetters.RunKeepsLetters | benchmarks/richards/richards.c:129-329 | Over any run a device takes the letters that were sent to its handler, in the order in which they were sent, and the rest is on the way |
| RichardsLetters.PostsAre | benchmarks/richards/richards.c:259-271 | Over any run the worker sends to the two handlers in turn, with the letters of the alphabet going on from packet to packet |
| RichardsLetters.DeviceHears | benchmarks/richards/richards.c:255-320 | In the benchmark the letter number k that a device takes is given by a formula: device B gets the first four letters of the alphabet, device A the next four, and so on in turn, over the end of the alphabet |
| RichardsCounts.StepIsTallied | benchmarks/richards/richards.c:183-188 | In every step qpktcount grows by the number of queues that get a packet, each at its end and only one, and holdcount by the number of tasks that come to hold |
| RichardsCounts.CountersAre | benchmarks/richards/richards.c:213-219 | Over any run from setup qpktcount is the number of packets queued and holdcount the number of holds |
| RichardsRuns.StepCloser | benchmarks/richards/richards.c:239-329 | Every step of another task than the idle one lowers a measure, so there are finitely many between two runs of the idle task |
| RichardsRuns.IdleCounts | benchmarks/richards/richards.c:239-253 | A step of the idle task uses up one of its runs |
| RichardsRuns.IdleRunsOut | benchmarks/richards/richards.c:129-175 | From every state with the invariant the run ends, and the idle task runs as often as is left |
| RichardsRuns.SetupIsGood | benchmarks/richards/richards.c:331-364 | setup on an empty task list establishes the invariant |
| RichardsScheduler.Scheduler.ScheduleIter | benchmarks/richards/richards.c:129-175 | The imperative step refines the step relation and keeps the invariant |
| RichardsScheduler.Benchmark | benchmarks/richards/richards.c:129-175 | Calling scheduleIter until it returns 0 ends after count runs of the idle task, is a run from setup, and leaves in the two counters the number of packets queued and of holds in it |
| RichardsScheduler.Scheduler.Wait | benchmarks/richards/richards.c:177-181 | Refines wait |
| RichardsScheduler.Scheduler.HoldSelf | benchmarks/richards/richards.c:183-188 | Refines holdself |
| RichardsScheduler.Scheduler.Release | benchmarks/richards/richards.c:199-210 | Refines release |
| RichardsScheduler.Scheduler.Qpkt | benchmarks/richards/richards.c:213-237 | Refines qpkt |
| RichardsScheduler.Scheduler.IdleFn | benchmarks/richards/richards.c:239-253 | Refines idlefn, with the shift register of 16 bits |
| RichardsScheduler.Scheduler.WorkFn | benchmarks/richards/richards.c:255-274 | Refines workfn |
| RichardsScheduler.Scheduler.HandlerFn | benchmarks/richards/richards.c:276-303 | Refines handlerfn |
| RichardsScheduler.Scheduler.DevFn | benchmarks/richards/richards.c:305-320 | Refines devfn |
| RichardsScheduler.Scheduler.Append | benchmarks/richards/richards.c:322-329 | Refines append |
| Splaying.SplayIsRight | benchmarks/splay/splay.js:314-373 | For every search tree splaying keeps the sequence of nodes, and afterwards all keys on the left are below the key and all on the right above it |
| Splaying.RootIsNearest | benchmarks/splay/splay.js:304-310 | The root has the key if any node has; otherwise no key of the tree lies between the two |
| SplayDepths.SplayHalves | benchmarks/splay/splay.js:314-373 | For every search tree, key and node: twice the depth of the node after splaying, and the number of nodes that the searches for it and for the key passed together, is at most twice its depth before and four |
| SplayDepths.PathIsHalved | benchmarks/splay/splay.js:330-338 | Splaying halves the depth of every node on the way to the key, up to two levels, and no node sinks by more than two levels |
| Splaying.DescendEnds | benchmarks/splay/splay.js:325-366 | The way down keeps the order of all nodes through rotations and links, and ends where the key is or would be |
| SplayTrees.SplayTree.SplayOn | benchmarks/splay/splay.js:314-373 | The loop over mutable nodes with its dummy header leaves exactly the tree that top-down splaying of the old one gives |
| SplayTrees.DescendTo | benchmarks/splay/splay.js:325-366 | The loop on its own: nodes in the heap and the functional descent agree at every turn |
| SplayTrees.Finish | benchmarks/splay/splay.js:368-372 | Assembling the two side trees under the current node |
| SplayTrees.SpineAssembles | benchmarks/splay/splay.js:368-371 | A side tree with a tree in its open place is a linked tree |
| SplayTrees.SplayTree.Insert | benchmarks/splay/splay.js:181-203 | Refines inserting into a sorted map, where a key that is there keeps its value; a new key is at the root |
| SplayTrees.SplayTree.Remove | benchmarks/splay/splay.js:214-235 | Refines removing, and fails exactly for a missing key, also when the second splay joins the two subtrees |
| SplayTrees.SplayTree.Find | benchmarks/splay/splay.js:245-251 | Finds exactly the keys that are there, with their values, and changes no entry |
| SplayTrees.SplayTree.FindMax | benchmarks/splay/splay.js:257-266 | The last node of the tree or of the given subtree |
| SplayTrees.SplayTree.FindGreatestLessThan | benchmarks/splay/splay.js:273-289 | The greatest key below the given one, or nothing exactly if there is none |
| SplayTrees.SplayTree.ExportKeys | benchmarks/splay/splay.js:295-301 | All keys in order |
| SplayTrees.Traverse | benchmarks/splay/splay.js:407-415 | The loop and recursion of traverse_ visit the nodes in order |
| SplayTrees.KeysAreSorted | benchmarks/splay/splay.js:112-128 | The exported keys ascend, are the keys of the map, and are as many, so the checks at tear-down pass |
| SplayTrees.InsertAt | benchmarks/splay/splay.js:192-202 | Where the new node comes in the order, and so in the map |
| SplayTrees.RemoveAt | benchmarks/splay/splay.js:222-233 | The two subtrees without the root are the map without the key |
| SplayBenchmark.InsertNewNode | benchmarks/splay/splay.js:78-87 | The first random number that is no key comes in |
| SplayBenchmark.Replace | benchmarks/splay/splay.js:134-138 | One node comes in and its predecessor, or itself, goes out; the number of keys stays |
| SplayBenchmark.SplayRun | benchmarks/splay/splay.js:132-141 | A run is a chain of 80 such replacements, unless the random numbers run out |
| HashTables.HashTable.Contains | benchmarks/hashset/HashSet.cpp:1649-1653 | Agrees with the set that the table stands for |
| HashTables.HashTable.Lookup | benchmarks/hashset/HashSet.cpp:1222-1274 | Finds the bucket of exactly the keys in the set; the probe ends because more than half of the buckets are empty |
| HashTables.LookupForWriting | benchmarks/hashset/HashSet.cpp:1278-1335 | Finds the key, or the last deleted bucket on the way to the first empty one, or that empty one if no bucket on the way is deleted |
| HashTables.HashTable.Add | benchmarks/hashset/HashSet.cpp:1478-1559 | The set gains the key, isNew is right, the entry returned holds the key even after a rehash, and the load bounds are kept, unless the largest table of 32 bits would have to grow |
| HashTables.HashTable.RemoveAt | benchmarks/hashset/HashSet.cpp:1673-1690 | The set loses the key of the bucket, and a table that gets too sparse shrinks |
| HashTables.SixfoldFits | benchmarks/hashset/HashSet.cpp:1071-1072 | The product that shouldShrink compares is the right one if and only if there are at most 715827882 keys |
| HashTables.HashTable.Remove | benchmarks/hashset/HashSet.cpp:1720-1723 | The set loses the key, if it was there |
| HashTables.HashTable.RemoveIf | benchmarks/hashset/HashSet.cpp:1727-1753 | The set loses exactly the keys that the functor takes |
| HashTables.HashTable.Expand | benchmarks/hashset/HashSet.cpp:1779-1790 | The size stays if enough of the table is deleted buckets, and doubles otherwise, all of it computed in 32 bits; the set stays, and no deleted bucket does |
| HashTables.ExpandedSizeIs | benchmarks/hashset/HashSet.cpp:1779-1788 | In 32 bits the size stays or doubles as it should if and only if the table has fewer than 2^31 buckets; with 2^31 buckets it becomes 0 |
| HashTables.HashTable.Shrink | benchmarks/hashset/HashSet.cpp:1074 | Half the size, the same set |
| HashTables.HashTable.Rehash | benchmarks/hashset/HashSet.cpp:1793-1841 | The new table holds the same set without deleted buckets, and the entry asked for is followed to its new place |
| HashTables.HashTable.Clear | benchmarks/hashset/HashSet.cpp:1844-1856 | The set is empty |
| HashTables.HashTable.Copy | benchmarks/hashset/HashSet.cpp:1859-1894 | The copy holds the same set, in a table of the size computed in 32 bits, and at least a sixth of its buckets are in use, or it is as small as it gets, if and only if no product that matters wraps around |
| HashTables.SeekEmpty | benchmarks/hashset/HashSet.cpp:1400-1449 | The probe for a key that is not there ends at an empty bucket |
| HashTables.HashTable.CountsAreExact | benchmarks/hashset/HashSet.cpp:1070-1072 | m_keyCount is the number of keys |
| HashTables.CopyLoad | benchmarks/hashset/HashSet.cpp:1875-1887 | For every number of keys: the load of a copy is below 5/12, and at least 5/24 unless the table is as small as it gets, if and only if no 32-bit product that matters wraps around (CopyInBounds) |
| HashTables.CopyHasRoom | benchmarks/hashset/HashSet.cpp:1875-1893 | A copy has more than twice as many buckets as keys, so that adding them ends, if and only if the number of keys is at most 2^29 or from 715827883 to 894784853 |
| HashTables.CopyLoadAsPromised | benchmarks/hashset/HashSet.cpp:1875-1887 | The load is within the bounds [3/12, 5/12) of the comment if and only if no product that matters wraps around, there is more than one key, and the size is not doubled or the number of keys is a power of two |
| HashTables.CopyLoadWraps | benchmarks/hashset/HashSet.cpp:1882-1884 | With 2^28 + 1 keys 5 * bestTableSize wraps around, the table is doubled to 2^31, and its load is below 1/6, though the size should not be doubled |
| HashTables.CopySizeWraps | benchmarks/hashset/HashSet.cpp:1875-1887 | With 2^29 + 1 keys the size wraps around to 0, and all of them are to go into 8 buckets |
| HashTables.CopyLoadIsSharp | benchmarks/hashset/HashSet.cpp:1879-1884 | For every power of two from 8 to 2^28 there is a number of keys at which the table is four times that and the load is at least 5/24, with one key less below it; with 54 keys in 256 buckets it is below the 3/12 of the comment |
| Probing.ProbesCover | benchmarks/hashset/HashSet.cpp:1270-1273 | An odd step visits every slot of a power-of-two table in as many probes as there are slots |
| Probing.OddCancels | benchmarks/hashset/HashSet.cpp:1271 | An odd step times a distance is a multiple of a power of two only if the distance is |
| Probing.RoundsUp | benchmarks/hashset/HashSet.cpp:62-72 | For every 32-bit number: the smearing of bits gives the least power of two that is not below v, and 0 for 0 and for numbers above 2^31 |
| OpenAddressing.EmptyMeansAbsent | benchmarks/hashset/HashSet.cpp:1252-1256 | An empty bucket on the way means that the key is nowhere in the table |
| OpenAddressing.PutKey | benchmarks/hashset/HashSet.cpp:1544-1551 | A key put into the bucket where its probe ended is found again, and so are all others |
| OpenAddressing.DeleteKey | benchmarks/hashset/HashSet.cpp:1682-1684 | A deleted bucket hides no other key |
| OpenAddressing.ProbingEnds | benchmarks/hashset/HashSet.cpp:1270-1273 | While a bucket is empty, a probe ends in fewer steps than there are slots |
| OpenAddressing.KeysCounted | benchmarks/hashset/HashSet.cpp:1682-1684 | There are as many keys as full buckets |
| Base64Codec.DecodeUndoesEncode | benchmarks/shootout/src/base64.c:79-269 | For every byte string and all four variants the encoding is accepted to its end and decodes to the string |
| Base64Codec.AcceptsExactly | benchmarks/shootout/src/base64.c:185-269 | The strings accepted to their end are the canonical encodings (sections 3.5, 4 and 5 of RFC 4648) if and only if it is not the case that char is signed, the string has a negative character, and reading those as the last letter makes it canonical |
| Base64Codec.AcceptsCanonical | benchmarks/shootout/src/base64.c:185-269 | A string is accepted to its end if and only if it is a canonical encoding once negative characters are read as the last letter |
| Base64Codec.NegativeIsAccepted | benchmarks/shootout/src/base64.c:30-38 | Four bytes above 0x7F are accepted as three bytes of ones where char is signed, though they are no encoding |
| Base64Codec.AcceptedIsEncoding | benchmarks/shootout/src/base64.c:201-242 | What is accepted is the encoding of the bytes that it decodes to |
| Base64.Bin2Base64 | benchmarks/shootout/src/base64.c:79-155 | The buffer holds the encoding, padded as the variant asks, and zeros behind it, although the 32-bit accumulator wraps |
| Base64.Base642Bin | benchmarks/shootout/src/base64.c:185-269 | The return value, the number of bytes, the bytes written, those left alone and the place where decoding stops, for every string, every buffer size and every variant |
| Base64.TakeLetters | benchmarks/shootout/src/base64.c:201-235 | The loop decodes the letters up to the first other character or the first letter that does not fit |
| Base64.SkipPadding | benchmarks/shootout/src/base64.c:158-183 | The padding is there in full, or the place where it is not is found |
| Base64.EncodedLenIsExact | benchmarks/shootout/src/base64.c:11-15 | The predicted length is that of the encoding and a zero |
| Base64Letters.ByteToCharIsLetter | benchmarks/shootout/src/base64.c:24-28 | The map without branches is the alphabet, for both alphabets |
| Base64Letters.CharToByteIsFound | benchmarks/shootout/src/base64.c:31-55 | The map back finds the value of every letter and 0xFF for every other character that is not negative, and 63 for negative ones |
| Base64Letters.NegativeEqualsAll | benchmarks/shootout/src/base64.c:17 | EQ holds between a negative character and every ASCII character |
| Base64Letters.EqualityIs | benchmarks/shootout/src/base64.c:17 | EQ is equality on characters that are not negative |
| Base64Letters.OrderIs | benchmarks/shootout/src/base64.c:18 | GT is the order on characters that are not negative |

## Left out

- Randomised blocks: the encoder never writes them. The decoder reads one up to its last symbol, with the errors of the source; how its bytes are derived from the table of random numbers is not modelled (`Outside`).
- The stdio interface of bzip2, allocation and its failures, verbosity, `total_in` and `total_out`, and the null and configuration checks of the API.
- The checksum table: nothing depends on its values.
- RadixSorting.MainSort: the sorting of single small buckets (`mainGtU`, `mainSimpleSort`, `mainQSort3` and the quadrants, which only speed up comparisons) is any function that sorts, and the budget that gives it up is an arbitrary predicate of the block.
- MainSorting.SortSmallBuckets: each small bucket is sorted by any function that sorts, as in `RadixSorting.MainSort`; that there is one is `RadixSorting.SomeStrategySorts`.
- FallbackSort.FallbackSort: `ftab` and `bhtab` are bounded by the block and not by 65537 words; the second test for the end of the block inside a pass, which never holds, is left out.
- SendMtf.SendMtfValues: the heuristic that assigns tables to groups and improves them in four iterations.
- CodeLengths.HbMakeCodeLengths: the total weight is below 2^23 and twice the alphabet is below the Fibonacci bound for maxLen, as it is for every call the compressor makes; beyond that the depth byte could overflow.
- ColumnReading.ReadMtfValues: a run whose length is negative in 32 bits, which takes more than thirty digits in a row, is `Unmodelled`: the source writes nothing and makes a count negative, on which its two decoders act differently.
- DecompressBlock.ReadBlockCoding: more than 18002 selectors are `Unmodelled`, because the source writes what it reads beyond the array `selectorMtf`.
- BucketHeaders.FirstClear: a place that the search is bound to find is given, as the sentinels provide it.
- Compression.Compressor.CompressBlock: the arrays of the block sort are made for each block.
- HashTables.HashTable.Add: what happens after a table of 2^31 buckets has doubled to size 0.
- HashTables.HashTable.RemoveAt: tables with more than 715827882 keys, for which `shouldShrink` compares a product that has wrapped around; the same goes for `Remove`, `RemoveIf` and `Shrink`.
- HashTables.HashTable.Copy: numbers of keys for which the new table has no room for them (`HashTables.CopyHasRoom`), where adding them does not end.
- HashTables.HashTable.RemoveIf: no lower bound on the load is claimed, because the table shrinks at most once.
- Hash tables: iterators and their invalidation, statistics, values beside keys, moving and swapping of tables, and the recorded trace of operations.
- RichardsRuns.SetupIsGood: one run of `setup` from an empty task list; the list is never reset, so that later runs would chain onto the old tasks. Tracing is left out.
- SplayBenchmark.InsertNewNode: the random numbers are a finite sequence, and nothing comes in when it is used up.
- SplayBenchmark.SplayRun: the random numbers are a finite sequence and the run is cut short when it is used up; payload trees and timing are left out.
- SplayTrees.SplayTree.Insert: keys are ordered totally, so that NaN is no key; the amortised cost of splaying is not modelled.
- Base64.Base642Bin: characters to ignore, `errno`, and the endless loops for a wrong variant or a short buffer, which are preconditions.
- Base64.Bin2Base64: lengths are unbounded numbers, so that the wrap-around of the length of strings beyond 3 * 2^30 bytes is not modelled.
- The drivers of the other benchmarks, which only call libraries that are not part of this model, and the small textbook programs beside base64.
