# flocate: model and proofs

flocate answers locate queries from a compressed trigram index. updatedb walks the file
system and writes file names in NUL-separated blocks, a posting list of block numbers for
each trigram, and a hash table from trigrams to lists; flocate looks up the trigrams a
needle cannot do without, intersects their lists, and scans only the blocks that are left.
This project models both programs and proves that what comes out is what a plain scan would
have printed, down to the bits of the posting lists.

Code that works in place is modelled in place: bit writers and readers with their word and
pointer, the encoder's output buffer, decoders that fill and then patch an output array, the
builder's fields, the pointer walk over a block, swaps in the hash table, counters in
callbacks, queues, streaming hash states and the three cursors of the old database are
classes, arrays and loops. Each is proved against a function or predicate that says what it
means, and the lemmas are about those. 32- and 64-bit arithmetic is explicit. Concurrency
and completion order are nondeterministic choices, so the theorems hold for every
interleaving.

## Main results

- **Posting lists.** `PostingList.BuildAndDecode`: every non-decreasing sequence of docids
  (the first below 2^28, deltas below 2^24) comes back deduplicated, whatever block formats the
  cost search picks, whatever bytes follow each section, with scalar or SSE2 decoding.
  `BlockChoice.DecideBlockType` picks the cheapest format by costs that
  `BlockChoice.CostsBoundSizes` proves exact or an upper bound, and
  `BlockWriter.BlockFitsBuffer` keeps every store inside the buffer.
- **Index.** `HashTable.CreateHashtable` returns null exactly if no placement of the trigrams
  exists at all, otherwise a Robin Hood table of exactly the trigrams; `HashTable.Lookup`
  finds a trigram exactly if it is indexed, with exactly its bytes.
  `EncodingCorpora.IndexedIffOccurs` says what is in a list.
- **Search.** `EndToEnd.DoSearchFile` and `EndToEnd.Locate`: for every order in which hash
  lookups, list reads, workers and checks complete, what is printed are the first `limit`
  matches in database order. `IgnoreCase.ParseTrigramsIgnoreCase` describes its groups
  exactly, and `Search.Searcher.FindCandidates` its candidates.
- **Machines.** `Serializing.ScanInParallel` (in-order output), `IOUring.IOUringEngine.Finish`
  (each request answered once, at most 256 in flight), `ExistingDb.AddAndRead` (what is added
  to a corpus is read back from three streams in step, under any chunking),
  `XxHash64.HashChunks` and `Sha256.HashChunks` (streaming equals one-shot).
- **Order and history.** `DirPath.Scan` and `DirPath.ScannedExactly` (the forward-only prune
  cursor is membership), `History.TruncatedStream`, `History.ManyRuns`,
  `SnapshotDiff.EventsArePatch` and `SnapshotDiff.MatchEntries`.
- **Meaning.** What the results above are stated in is tied to the bytes and to published
  standards by lemmas of its own: `SearchMeaning.HitsShow` and `PatternMeaning.AcceptsIsMatches`
  for hits and patterns, `FormatBits.InterleavedBit` and `FormatBits.BlockLayout` for posting
  lists, `RecordLayout.FieldsOfRecord` and `RecordLayout.EqualIfStoredAlike` for records,
  `CrcPolynomial.HashIsRemainder` for the hash table, `DirTree.ParentAndName` for directories,
  the modules Sha256Standard and XxHashStandard for the hashes.

## Where the code and its promises differ

The model follows the code. Each difference has a concrete input or the exact condition.

- The linear bit writer (include/turbopfor-encode.h:118-127) is sound up to width 24 and no
  further: `BitPacking.LinearWidthSound`.
- `flush_block` (src/database-builder.cpp:359) does not index a last path of exactly three
  bytes. `TrigramIndex.ExactUnlessShortLast` is the exact condition,
  `TrigramIndex.ShortLastPathIsMissed` the input; search is proved for blocks that meet it,
  and `EndToEnd.InexactIsMissed` shows that it misses a hit in any block that does not.
- A plain needle is unescaped (src/flocate.cpp:988) and then read as a glob again
  (src/flocate.cpp:508). `ParseTrigrams.PlainNeedle` is the exact condition under which that
  loses nothing, `ParseTrigrams.PlainBackslashLosesMatches` the input.
- The XXH64 digest (src/metadata_hash.cpp:148-152) leaves out the rotation by 27 of the
  eight-byte step in the "XXH64 Algorithm Description" of the xxHash specification.
  `XxHashAgreement.AgreeIfLanesDo` is the exact condition,
  `XxHashAgreement.DiffersOnEightZeroes` the input.
- Metadata whose hash is longer than 32 bytes is cut when stored and then does not compare
  equal. `Metadata.StoredIsEqual` is the exact condition, `Metadata.LongHashDiffers` the input.
- The comment at include/turbopfor-encode.h:376 about writing 4 bytes past the end holds for
  linear sections; interleaved ones reach up to 16 bytes, which P4NENC_BOUND covers
  (`BlockWriter.BlockFitsBuffer`).

## Files

Posting lists: Bits, BitPacking, Interleaving, BlockFormat, BlockEncode, BlockChoice,
BlockWriter, BlockDecode, BlockUnpack, PforDecode, PforBlocks, PostingList,
FormatBits. Index: TrigramIndex, FileRecords, EncodingCorpus, HashTable, CrcPolynomial, Database.
Search: Orders, ParseTrigrams, IgnoreCase, SortedLists, Search, Serializer, BlockScan, EndToEnd,
PatternMeaning, SearchMeaning. Machines and history: IOUringEngine, Metadata, History, DirPath,
DirTree, SnapshotDiff, RecordLayout, Streams, XxHash64, XxHashAgreement, XxHashStandard, Sha256,
Sha256Standard, MetadataHashes, ExistingDb.
`dafny verify dfyconfig.toml` checks them all.

## Model

| member | source | states |
|---|---|---|
| BitPacking.BitWriter.Write | include/turbopfor-encode.h:114-134 | a linear write appends the value to the packed section, moves at most three whole bytes out, and touches nothing beyond the four bytes at the output pointer |
| BitPacking.BitWriter.Packed | include/turbopfor-encode.h:114-134 | after any run of writes the section is exactly the packed values, padding bits zero, and the pointer is inside it |
| BitPacking.LinearWidthSound | include/turbopfor-encode.h:118-127 | the 32-bit shift word never overflows on any number of values exactly for widths up to 24 |
| BitPacking.LinearRoundTrip | src/turbopfor.cpp:135-157 | value k of a packed section reads back, whatever bytes follow the section |
| BitPacking.BitReader.Read | src/turbopfor.cpp:135-157 | the k-th read gives field k of the section, reading no further than four bytes past it |
| BitPacking.PackField | include/turbopfor-encode.h:118-127 | packing keeps each value as its own bit field |
| Interleaving.InterleavedBitWriter.Write | include/turbopfor-encode.h:136-160 | a lane writer appends its value to its own stream of every fourth word and leaves the other three lanes alone, for widths 0 to 32 |
| Interleaving.InterleavedBitReader.Read | src/turbopfor.cpp:159-188 | the k-th read of a lane gives field k of that lane's words, across word boundaries too |
| Interleaving.StreamReadAcross | src/turbopfor.cpp:170-185 | a value that starts in one word and ends in the next is put together correctly in 32-bit arithmetic |
| BlockFormat.SectionLength | include/turbopfor-common.h:22-25 | linear and interleaved sections both have bytes_for_packed_bits bytes |
| BlockEncode.EncodeLinear | include/turbopfor-encode.h:162-188 | the partial-block branch writes exactly the packed low bits and nothing before them |
| BlockEncode.EncodeInterleaved | include/turbopfor-encode.h:162-188 | the full-block branch writes, word by word, the four interleaved lanes |
| BlockEncode.LanesMakeSection | include/turbopfor-encode.h:162-188 | four finished lanes tile the section: each byte belongs to one lane |
| BlockEncode.EncodePforBitmap | include/turbopfor-encode.h:197-229 | exception width, exception bitmap, exceptions and base values follow each other in the format's order |
| BlockEncode.EncodePforVb | include/turbopfor-encode.h:231-263 | exception count, base values, varbyte exceptions and their positions follow each other in the format's order |
| BlockEncode.WriteVb | include/turbopfor-encode.h:67-93 | one value becomes its one- to five-byte code |
| BlockChoice.BuildHistogram | include/turbopfor-encode.h:282-289 | each histogram slot counts the values of exactly that width, and max_bits is the largest width present |
| BlockChoice.ExceptionCount | include/turbopfor-encode.h:298-310 | the number of exceptions at base width w is the number of values of width w+1 or more |
| BlockChoice.SearchBitmap | include/turbopfor-encode.h:291-310 | the bitmap search ends on a width whose cost no other width beats, starting from plain FOR |
| BlockChoice.EstimateVb | include/turbopfor-encode.h:318-349 | the estimate read off the cumulative histogram is the varbyte cost formula over the values |
| BlockChoice.EstimateIsSum | include/turbopfor-encode.h:318-349 | the estimate is a byte, the base values, and for each value wider than them 2 bytes and 1 more from 7, 14, 19 and 24 bits above on |
| BlockChoice.VbAllSize | include/turbopfor-encode.h:318-349 | no set of varbyte exceptions takes more bytes than the cumulative histogram predicts |
| BlockChoice.CostsBoundSizes | include/turbopfor-encode.h:291-349 | FOR and bitmap costs are the exact encoded sizes; the varbyte estimate is an upper bound |
| BlockChoice.DearerBase | include/turbopfor-encode.h:320-328 | the early exit of the varbyte search skips no cheaper width |
| BlockChoice.DecideBlockType | include/turbopfor-encode.h:265-364 | the choice loses no value, is CONSTANT exactly if all values are equal, and otherwise costs no more than any bitmap or varbyte width |
| BlockChoice.FitsNarrow | include/turbopfor-encode.h:265-364 | values below 2^24 never need a linear part wider than 24 bits |
| BlockWriter.EncodePforSingleBlock | include/turbopfor-encode.h:366-404 | any block whose cheapest formats have no linear part wider than 24 bits is written losslessly in at most 1 + ceil(num*max_bits/8) bytes, keeping what precedes it |
| BlockWriter.BlockFitsBuffer | src/database-builder.cpp:22 | a block and its overhanging stores stay inside P4NENC_BOUND(128) |
| BlockWriter.BodySize | include/turbopfor-encode.h:366-404 | whichever format is chosen, the encoded block is no larger than plain FOR plus the header byte |
| BlockWriter.WriteBaseval | include/turbopfor-encode.h:40-65 | the first docid, below 2^28, gets its prefix code |
| BlockDecode.BasevalReadsBack | src/turbopfor.cpp:81-107 | the length marks tell the four codes apart and each gives its value back |
| BlockDecode.ReadBaseval | src/turbopfor.cpp:81-107 | reading undoes write_baseval and stops right after the code |
| BlockDecode.LinearReadsBack | src/turbopfor.cpp:135-157 | a linear section anywhere in a buffer reads back, with the reads inside the buffer |
| BlockDecode.InterleavedReadsBack | src/turbopfor.cpp:159-188 | de-interleaving undoes interleaving for every width up to 32 |
| BlockDecode.ConstantReadsBack | src/turbopfor.cpp:223-243 | the repeated value survives its truncation to whole bytes, with up to three foreign bytes read after it |
| BlockDecode.DecodeConstant | src/turbopfor.cpp:223-243 | a CONSTANT block decodes to the running sums of its deltas |
| BlockDecode.DeltaDecode | src/turbopfor.cpp:644-648 | in-place delta decoding gives running sums modulo 2^32 and leaves the rest of the array |
| BlockUnpack.DecodeFor | src/turbopfor.cpp:245-262 | a linear FOR block decodes to the running sums of its deltas |
| BlockUnpack.CombinedParts | src/turbopfor.cpp:513 | a base value or-ed with its high part shifted up is the value |
| BlockUnpack.InterleavedBitReaderSSE2.Read | src/turbopfor.cpp:191-220 | one vector read gives what the four lane readers give, in lane order |
| BlockUnpack.PrefixSums | src/turbopfor.cpp:265-288 | the two-step log prefix sum with the broadcast last value gives the running sums modulo 2^32 |
| BlockUnpack.DeltaDecoderSSE2.Decode | src/turbopfor.cpp:265-288 | one vector of deltas becomes four docids continuing the previous vector |
| BlockUnpack.DecodeBitmapSSE2 | src/turbopfor.cpp:301-398 | the vector decoder, with or without or-ing and delta decoding, equals the generic read-then-delta loops on all 128 outputs |
| BlockUnpack.ReadInterleavedGeneric | src/turbopfor.cpp:401-425 | the scalar full-block loop gives the de-interleaved values |
| BlockUnpack.DeltaDecodeSSE2 | src/turbopfor.cpp:290-299 | vector delta decoding in place equals the scalar loop |
| PforDecode.ClearLowest | src/turbopfor.cpp:465-489 | x & (x-1) clears the lowest set bit and no other |
| PforDecode.NextBit | src/turbopfor.cpp:465-489 | counting trailing zeros and clearing the lowest bit visits every set bit once, in order |
| PforDecode.BitmapWord | src/turbopfor.cpp:465-489 | bit j of the masked 64-bit word at i says whether value i+j is an exception, foreign bytes notwithstanding |
| PforDecode.DecodeBitmapExceptions | src/turbopfor.cpp:465-489 | each exception's high part lands at its own position, every other place stays zero |
| PforDecode.DrainWord | src/turbopfor.cpp:472-486 | one 64-bit word of the bitmap is drained completely, and the reader is where the next word expects it |
| PforBlocks.DecodeForInterleaved | src/turbopfor.cpp:401-463 | a full FOR block decodes to the running sums of its deltas, scalar or vector |
| PforBlocks.DecodePforBitmap | src/turbopfor.cpp:491-596 | a bitmap PFOR block decodes to the running sums of its deltas, linear or interleaved, scalar or vector |
| PforBlocks.DecodePforVb | src/turbopfor.cpp:598-764 | a varbyte PFOR block decodes to the running sums of its deltas, in every variant |
| PforBlocks.UnpackedIsBlock | src/turbopfor.cpp:523-596 | unpacking over the high parts restores the block |
| PforBlocks.ReadVb | src/turbopfor.cpp:109-133 | reading undoes write_vb and stops right after the code |
| PforBlocks.ReadExceptions | src/turbopfor.cpp:625-637 | exceptions come back from either form, varbytes or raw words marked by 255 |
| PforBlocks.IndexesPointAt | include/turbopfor-encode.h:246-260 | exception j came from position j of the list, and positions increase |
| PforBlocks.IndexesCover | include/turbopfor-encode.h:246-260 | no exception is without a position |
| PforBlocks.ApplyExceptions | src/turbopfor.cpp:638-642 | patching the listed positions turns the base values into the block |
| PostingList.PostingListBuilder.AddFirstDocid | src/database-builder.cpp:73-78 | the list starts with the first docid |
| PostingList.PostingListBuilder.AddDocid | src/database-builder.cpp:57-71 | a repeated docid is dropped, any other appended; pending deltas become a block when 128 are there |
| PostingList.PostingListBuilder.AppendBlock | src/database-builder.cpp:97-103 | the pending deltas become the next encoded block, everything before it unchanged |
| PostingList.PostingListBuilder.Finish | src/database-builder.cpp:80-95 | the encoded bytes are the whole list |
| PostingList.PostingListBuilder.GetNumDocids | src/database-builder.cpp:40-45 | the count is the number of distinct consecutive docids |
| PostingList.DeltasRestore | src/turbopfor.cpp:766-813 | adding delta-minus-one values back modulo 2^32 gives the docids |
| PostingList.BlockPlace | src/turbopfor.cpp:766-813 | block k of a list is where decoding k blocks has led |
| PostingList.DecodePforDelta1 | src/turbopfor.cpp:766-813 | a finished list, empty ones included, in a buffer with 16 bytes of slack decodes to its docids, and nothing after them is written |
| PostingList.BuildAndDecode | src/database-builder.cpp:57-110 | round trip: build and decode any non-decreasing docids with deltas below 2^24, whatever the block types, the slop and the instruction set, and the deduplicated sequence comes back |
| FormatBits.LinearBit | include/turbopfor-encode.h:114-134 | bit j of value i is bit i*w+j of a linear section |
| FormatBits.InterleavedBit | include/turbopfor-encode.h:136-188 | in a full block bit j of value 4k+l is bit k*w+j of lane l, and each lane has every fourth 32-bit word |
| FormatBits.BlockLayout | include/turbopfor-common.h:10-15 | the two top bits of the first byte are 0 for FOR, 1 for varbyte, 2 for bitmap and 3 for CONSTANT, the others the width; what follows lies in the order of its type |
| FormatBits.VbRanges | include/turbopfor-encode.h:67-93 | the bytes at both ends of each range of the varbyte code |
| FormatBits.BasevalRanges | include/turbopfor-encode.h:40-65 | the bytes at both ends of each range of the code of the first docid |
| FormatBits.ListOfThree | src/database-builder.cpp:57-95 | the bytes of the posting list of docids 3, 4 and 10 |
| TrigramIndex.TrigramsOccur | src/database-builder.cpp:348-402 | a trigram of a path is one that occurs in it as three consecutive bytes |
| TrigramIndex.TrigramBytes | src/parse_trigrams.cpp:131-150 | a trigram is its three bytes as a number, the first one lowest |
| TrigramIndex.TrigramsOfSome | src/database-builder.cpp:348-402 | a trigram of a block's paths occurs in one of them |
| TrigramIndex.WindowsAcrossNul | src/database-builder.cpp:356-388 | no trigram spans a NUL |
| TrigramIndex.WindowsArePathTrigrams | src/database-builder.cpp:356-388 | the three-byte windows of a block are exactly the trigrams of its paths |
| TrigramIndex.WalkDone | src/database-builder.cpp:359 | when the pointer reaches end - 3 the windows seen are those of all paths but a last one of three bytes |
| TrigramIndex.ExactUnlessShortLast | src/database-builder.cpp:359 | the walk indexes a block in full if and only if the last path is not three bytes long or its trigram is in an earlier path |
| TrigramIndex.ShortLastPathIsMissed | src/database-builder.cpp:359 | the path abc alone in its block gets into no posting list |
| EncodingCorpora.EncodingCorpus.AddFile | src/database-builder.cpp:252-280 | one file more: its name in the current block, which is closed, written and indexed when full, its time or a marker in one stream, its metadata in the other |
| EncodingCorpora.EncodingCorpus.AddTime | src/database-builder.cpp:263-274 | the directory times stay the stream of those of all files so far |
| EncodingCorpora.EncodingCorpus.AddMetadata | src/database-builder.cpp:276-279 | and so does the metadata |
| FileRecords.DirStreamGrows | src/database-builder.cpp:263-272 | what a file adds to the directory times follows those before it unchanged |
| FileRecords.MetadataStreamGrows | src/database-builder.cpp:276-279 | and so does its metadata record |
| EncodingCorpora.EncodingCorpus.FlushBlock | src/database-builder.cpp:348-402 | closing a block feeds its docid to the builders of exactly its trigrams, writes it compressed at the offset noted for it, and begins an empty one |
| EncodingCorpora.WrittenMore | src/database-builder.cpp:390-397 | each block of the file lies between its offset and the next one |
| EncodingCorpora.ReadBlock | src/flocate.cpp:145-155 | reading between two offsets and decompressing gives the block |
| EncodingCorpora.EncodingCorpus.WalkBlock | src/database-builder.cpp:356-388 | the pointer walk adds the docid for precisely the trigrams inside the block's paths, reading no further than the terminating zero |
| EncodingCorpora.EncodingCorpus.WalkPath | src/database-builder.cpp:373-387 | the inner loop covers one path and stops at the start of the next |
| EncodingCorpora.EncodingCorpus.AddDocid | src/database-builder.cpp:195-203 | the docid goes to the trigram's own live builder, created by the first one; every builder holds the deduplicated docids fed to it |
| EncodingCorpora.FeedsMore | src/database-builder.cpp:380 | the newest of up to 2^24 blocks may always follow the docids a builder has |
| EncodingCorpora.EncodingCorpus.Finish | src/database-builder.cpp:404-407 | all paths added are in the blocks, in order, in chunks of block_size, and the lists describe the blocks |
| EncodingCorpora.AddAll | src/database-builder.cpp:252-280 | a corpus of any files: blocks in order, the lists that describe them, the bytes of the file, and both streams |
| EncodingCorpora.SplitJoin | src/database-builder.cpp:252-280 | splitting a block at its NULs gives back the paths joined into it |
| EncodingCorpora.BlockIndexed | src/database-builder.cpp:348-402 | after a block has been walked the lists describe one block more |
| EncodingCorpora.ListIsBlocks | src/database-builder.cpp:195-203 | a deduplicated list is increasing and holds a block's number exactly if one of its indexed paths has the trigram |
| EncodingCorpora.IndexedIffOccurs | src/database-builder.cpp:348-402 | a block is in a trigram's list exactly if the three bytes occur inside one of its indexed paths |
| EncodingCorpora.ChunksMore | src/database-builder.cpp:252-280 | filling blocks one path at a time cuts the paths into runs of block_size |
| EncodingCorpora.DedupIncreases | src/database-builder.cpp:57-71 | dropping repeats of the last docid makes a non-decreasing list strictly increasing without losing any |
| HashTable.CrcInjective | include/db.h:59-71 | before the reduction to the table size no two trigrams collide |
| HashTable.HashTrigram | include/db.h:59-71 | the hash is the bitwise CRC reduced to a bucket inside the table |
| CrcPolynomial.HashIsRemainder | include/db.h:59-71 | the bucket is the trigram times x^32, as a polynomial over the integers modulo 2, modulo the generator 0x11EDC6F41, and then modulo the table size |
| HashTable.Displace | src/database-builder.cpp:546-552 | when the carried entry's home is earlier it takes the slot, and the evicted entry can be carried on |
| HashTable.Settle | src/database-builder.cpp:546-559 | an empty slot takes the carried entry and the table stays a Robin Hood table |
| HashTable.Overfull | src/database-builder.cpp:554-557 | an entry pushed beyond its last overflow slot proves that no placement whatever exists |
| HashTable.Insert | src/database-builder.cpp:540-560 | insertion adds exactly the entry, keeping every entry 0 to slots past its home without gaps and homes in order; if it fails, no placement exists |
| HashTable.CreateHashtable | src/database-builder.cpp:532-562 | a non-null table holds each trigram exactly once in Robin Hood order, and null is returned exactly if no placement of the trigrams exists |
| HashTable.LayoutSays | src/database-builder.cpp:532-562 | each entry is at most the overflow slots past its home, every slot from there to it is taken, entries before it have no later homes, and free slots hold the trigram 0xFFFFFFFF |
| HashTable.AssignOffsets | src/database-builder.cpp:725-736 | every slot, empty ones included, points at the sum of the lengths of all lists before it |
| HashTable.WriteLists | src/database-builder.cpp:743-750 | the lists are written in slot order |
| HashTable.TableCovers | src/database-builder.cpp:704-716 | a trigram is in the table exactly if it is in the corpus, with its docid count |
| HashTable.SameLayout | src/database-builder.cpp:725-736 | filling in offsets keeps the table a Robin Hood table |
| HashTable.BuildIndex | src/database-builder.cpp:703-750 | table and lists together are an index of the corpus; without one, the trigrams cannot be placed or the file is too long |
| HashTable.FindTrigram | src/flocate.cpp:128-143 | slots+2 entries from the home bucket on are inside the table, and among them the trigram is found exactly if present |
| HashTable.Lookup | src/flocate.cpp:128-143 | a trigram is found exactly if it is indexed, with its docid count and exactly the bytes of its own list |
| Database.BuildLists | src/database-builder.cpp:684-709 | every builder is finished, so every trigram fed to the corpus gets its list, and no other trigram does |
| Database.FinishList | src/database-builder.cpp:690-692 | a finished builder holds the encoding of all docids it took, and their number |
| Database.PlaceLists | src/database-builder.cpp:712-750 | the first table size that admits a placement is used; without a file, no size does, or the lists are too long |
| Database.FinishCorpus | src/database-builder.cpp:668-750 | the file holds exactly the lists fed to the corpus, in a table of the first size that can hold them; there is none only if no size can or the offsets do not fit |
| SearchMeaning.UnbuildableMeans | src/database-builder.cpp:700-735 | without a file, no table of any of the sizes gives each trigram a slot of its own within reach of its home, or the lists, after 16 bytes for each slot, end beyond 64 bits |
| Database.Find | src/flocate.cpp:128-143 | a lookup in the file succeeds exactly for indexed trigrams |
| Database.ReadList | src/flocate.cpp:648-656 | the bytes an entry points at decode to the list, whatever follows them in the read buffer |
| Database.FeedAndRead | src/database-builder.cpp:668-750 | what was fed for a trigram comes back from the file without repeats, and nothing comes back for any other |
| Orders.UniqueSort | include/unique_sort.h:6-12 | the same elements, each once, in order |
| Orders.ListOrder | src/flocate.cpp:512-515 | lexicographic order on lists of trigrams is a strict total order |
| ParseTrigrams.ReadUnigram | src/parse_trigrams.cpp:84-129 | reading always advances inside the pattern; a class ends at the first closing bracket after an optional ! and a leading ] |
| ParseTrigrams.TrigramIsFront | src/parse_trigrams.cpp:131-146 | read_trigram gives a trigram exactly if the pattern starts with three literal elements |
| ParseTrigrams.TrigramsNecessary | src/parse_trigrams.cpp:285-306 | whatever matches a glob, for any meaning of its wildcards, contains each trigram of its literals |
| ParseTrigrams.BasenameTrigrams | src/parse_trigrams.cpp:285-306 | a match against the basename still has the trigrams in the whole path |
| ParseTrigrams.Basename | src/flocate.cpp:185-195 | the part of the path with no slash in it that is all of it or comes right after one |
| ParseTrigrams.ParseCaseSensitive | src/parse_trigrams.cpp:285-306 | the walk emits one group per trigram of three consecutive literals, and no other |
| PatternMeaning.ClassRead | src/parse_trigrams.cpp:84-129 | a class in brackets ends at the first closing bracket after an optional ! and one byte of any kind |
| PatternMeaning.GlobIsTokens | src/parse_trigrams.cpp:84-129 | a glob matches byte by byte, with the backslash, the star, the question mark and classes read as fnmatch reads them, exactly if its tokens match |
| PatternMeaning.AcceptsIsMatches | src/needle.cpp:16-27 | what a pattern matches: texts that have the plain text inside, matches of the glob, matches of it in one spelling of each code point, or anything for a regular expression |
| ParseTrigrams.Unescape | src/needle.cpp:29-42 | a pattern without wildcards is turned into the text it stands for; it fails exactly on a pattern that ends early |
| ParseTrigrams.EscapeReadsBack | src/needle.cpp:29-42 | every text has a pattern that unescapes to it |
| ParseTrigrams.PlainNeedle | src/flocate.cpp:988 | re-reading an unescaped text as a glob loses no match if and only if each trigram read through a backslash also occurs in the text |
| ParseTrigrams.PlainNeedleWithoutBackslash | src/flocate.cpp:988 | no backslash in the text, no match lost |
| ParseTrigrams.PlainBackslashLosesMatches | src/flocate.cpp:988 | for the text ab\c the trigram abc is looked up, and the match ab\c has no such trigram |
| IgnoreCase.UnigramStable | src/parse_trigrams.cpp:84-129 | an element read in full does not change when more text follows |
| IgnoreCase.TrigramStable | src/parse_trigrams.cpp:131-146 | nor does a trigram |
| IgnoreCase.ExtendExact | src/parse_trigrams.cpp:221-244 | a pass of extension changes nothing in what the states stand for |
| IgnoreCase.ExtendBounds | src/parse_trigrams.cpp:221-244 | each pass brings the short states a code point closer to the end, without growing any state's byte budget |
| IgnoreCase.StuckRunsOut | src/parse_trigrams.cpp:230-234 | the early return is taken only when some spelling has no trigram left |
| IgnoreCase.ExtendPass | src/parse_trigrams.cpp:222-243 | a pass replaces each short state by one for each spelling of its next code point |
| IgnoreCase.ExtendAll | src/parse_trigrams.cpp:220-244 | the passes end with every state able to form a trigram and the same spellings stood for |
| IgnoreCase.ChopExact | src/parse_trigrams.cpp:253-265 | chopping the first element and deduplicating keeps exactly what the spellings have left |
| IgnoreCase.ChopBounds | src/parse_trigrams.cpp:253-265 | the largest number of bytes buffered and to come falls in every round, so the loop ends |
| IgnoreCase.FrontsExact | src/parse_trigrams.cpp:253-265 | the trigrams at the front of the states are exactly those some spelling can have at that position |
| IgnoreCase.Round | src/parse_trigrams.cpp:246-273 | a round's group is the set of all trigrams of all spellings at one position |
| IgnoreCase.ParseTrigramsIgnoreCase | src/parse_trigrams.cpp:165-283 | for given spellings of each code point, the groups are, position by position and leaving out those with a wildcard, exactly the trigrams the spellings can have there, up to where some spelling runs out or more than a hundred states are left; without case, the groups of the case-sensitive walk |
| IgnoreCase.GroupsNeeded | src/parse_trigrams.cpp:165-283 | whichever spelling of each code point is chosen, the string has a trigram of every group |
| IgnoreCase.SpellingNecessary | src/parse_trigrams.cpp:165-283 | so has every file name that matches some spelling as a glob |
| IgnoreCase.OneSpelling | src/parse_trigrams.cpp:285-306 | if every code point has one spelling, ignoring case gives the groups of the case-sensitive walk |
| IgnoreCase.LoneExtend | src/parse_trigrams.cpp:221-244 | code points of one spelling do not branch, so such a needle is never cut off |
| SortedLists.UnionIsUnion | src/flocate.cpp:434-440 | merging two increasing lists gives the increasing list of what is in either |
| SortedLists.IntersectionIsIntersection | src/flocate.cpp:455-460 | and intersecting them what is in both |
| Search.SortByMax | src/flocate.cpp:610-615 | the groups are reordered by estimated size, none lost or doubled |
| Search.Searcher.NothingFound | src/flocate.cpp:563-583 | if the last lookup of a group fails and none succeeded, no block can match |
| Search.Searcher.GroupLookedUp | src/flocate.cpp:560-591 | one lookup is counted off, its list noted; the early exit means nothing matches |
| Search.Searcher.TrigramLookedUp | src/flocate.cpp:560-591 | one completed lookup is counted once in each group that has the trigram |
| Search.Searcher.LookUpAll | src/flocate.cpp:523-593 | whatever the order of completion, each group ends up with the lists of exactly its indexed trigrams |
| Search.Searcher.ListJoins | src/flocate.cpp:434-441 | the union read so far is exactly the docids of the lists read so far |
| Search.Searcher.NewPostingListRead | src/flocate.cpp:428-473 | a list is joined to its group and a complete group narrows the candidates; abort means nothing matches |
| Search.Searcher.Narrow | src/flocate.cpp:449-472 | the candidates stay what the complete groups have in common; an empty list is taken for not started only when nothing is lost |
| Search.Searcher.ListArrived | src/flocate.cpp:648-678 | one completed read is used once in each group that has the trigram |
| Search.Searcher.SubmitGroup | src/flocate.cpp:635-679 | each list of the group is read, those already requested for another group not twice |
| Search.Searcher.FirstGroupDone | src/flocate.cpp:627-681 | when all reads have completed, at least the first group has narrowed the candidates |
| Search.Searcher.ReadLists | src/flocate.cpp:624-685 | with the 100x cut-off and the early exits, no block with a match is dropped |
| Search.Searcher.FindCandidates | src/flocate.cpp:523-689 | for every order of lookups and reads the candidates hold every block with a match, and are empty or exactly what some groups have in common |
| Search.CommonMeans | src/flocate.cpp:625-689 | what groups have in common: for each group, a list of one of its trigrams has the docid |
| Serializing.Serializer.Print | src/serializer.cpp:149-178 | a message is counted, printed at once or delayed, keeping the output the texts of all messages up to the next number |
| Serializing.Serializer.Drain | src/serializer.cpp:169-177 | delayed messages whose turn has come are printed, in order |
| Serializing.Serializer.ApplyLimit | src/serializer.cpp:17-28 | the limit is counted down; reaching zero ends the program, which prints the limit if only the count is wanted |
| Serializing.Serializer.Emit | src/serializer.cpp:149-178 | the message that begins at the next number is printed unless empty, and the number moves past it |
| Serializing.Serializer.Finished | src/serializer.cpp:149-178 | once all messages have been fed, all nonempty texts are out in order and nothing is pending, or the first limit of them are out and the program has ended |
| Serializing.TopIsNext | include/serializer.h:17-34 | the smallest queued message is next exactly if the plan's next message is queued |
| Serializing.TrackPush | src/serializer.cpp:158-161 | a delayed message is ahead of the next number and apart from all others in the queue |
| Serializing.TrackPop | src/serializer.cpp:169-177 | taking the top off the queue leaves the others as they were |
| Serializing.MergedTexts | src/flocate.cpp:291-308 | a message made longer by empty ones stands for the same texts |
| Serializing.TilingJoins | src/flocate.cpp:254-258 | tilings of adjoining ranges join |
| Serializing.Receive | src/flocate.cpp:291-308 | a worker's results hold one message more and the same texts, whether it was merged or appended |
| Serializing.Deliver | src/flocate.cpp:310-320 | all results of a worker go to the serializer |
| Serializing.ParallelScan.WorkerPrints | src/flocate.cpp:296-304 | any worker may come up with any message not yet produced |
| Serializing.ParallelScan.DeliverResults | src/flocate.cpp:310-320 | a worker's results are handed over once |
| Serializing.ParallelScan.AllFed | src/flocate.cpp:400-426 | with all messages produced and all results collected, the serializer has had everything |
| Serializing.SharedMove | src/flocate.cpp:328-426 | a message is to be done, with a worker, or with the serializer, never two of these |
| Serializing.SharedFlush | src/flocate.cpp:328-426 | handing over keeps that so |
| Serializing.ScanInParallel | src/flocate.cpp:328-426 | for every interleaving of workers and collections, the output is the first limit nonempty texts in sequence order, each once, and the count that is printed or returned is their number |
| Serializing.OneTold | src/flocate.cpp:210-215 | the match counter goes up by one exactly for messages with a text |
| Serializing.PrintInAnyOrder | src/serializer.cpp:149-178 | the same for messages printed singly in any order |
| BlockScan.ScanFileBlock | src/flocate.cpp:178-259 | the messages of a block are one for each matching name in order, then one that skips the rest of the block's numbers |
| BlockScan.NextName | src/flocate.cpp:225-253 | the walk visits the NUL-separated names of the block one by one |
| BlockScan.AllMatch | src/flocate.cpp:239-245 | a name is a match exactly if all needles match |
| BlockScan.BlockTiles | src/flocate.cpp:254-258 | a block's messages tile its range of 2^32 numbers |
| BlockScan.BlockTexts | src/flocate.cpp:224-258 | their texts are the block's matches that may be shown |
| BlockScan.PlanOfScan | src/flocate.cpp:261-274 | the messages of a scan tile the numbers from zero on, and their texts are all hits in order |
| BlockScan.FoundAmong | src/flocate.cpp:224-253 | what is found are exactly the names that match all needles |
| EndToEnd.ParsePattern | src/flocate.cpp:500-510 | each group of a pattern has a trigram of everything that matches the pattern |
| EndToEnd.ParsePatterns | src/flocate.cpp:500-515 | sorting and deduplicating the groups of all patterns keeps that |
| EndToEnd.HitHasTrigram | src/flocate.cpp:506-528 | a block with a hit contains a trigram of every group |
| EndToEnd.WantedGathered | src/flocate.cpp:523-592 | so it is in the union of the lists of every group |
| EndToEnd.InexactIsMissed | src/database-builder.cpp:359 | a block that is not indexed in full has a path that is a hit for its own text, while the block is in no list of that text's trigram |
| EndToEnd.FindBlocks | src/flocate.cpp:523-689 | no block outside the candidates has a hit |
| EndToEnd.SelectedHits | src/flocate.cpp:689 | scanning only the candidates gives the hits of scanning everything |
| EndToEnd.ScanAllDocids | src/flocate.cpp:328-426 | the plain scan prints the first limit hits in order and returns, or prints, their number |
| EndToEnd.ScanDocids | src/flocate.cpp:261-274 | so does the scan of the candidates |
| EndToEnd.DoSearchFile | src/flocate.cpp:475-694 | indexed search prints, counts and returns exactly what the plain scan would, for every order of completion |
| PatternMeaning.NeedlesDecide | src/needle.cpp:16-27 | all that a search asks of its needles: each accepts no text that its pattern, read byte by byte, does not match |
| PatternMeaning.MostAreTrusted | src/flocate.cpp:500-520 | globs, regular expressions, spellings that are not empty and plain texts without a backslash can all be searched for |
| SearchMeaning.HitsShow | src/flocate.cpp:178-259 | the hits are, in order and each where it stands among the paths, exactly those that may be shown and whose last component, or with no basename matching all of whose text, every needle accepts |
| SearchMeaning.AnswerIsFront | src/serializer.cpp:17-28 | an answer is the first hits up to the limit, and their number where it is printed or returned |
| SearchMeaning.LongPathsFit | src/database-builder.cpp:348-402 | files of which no path has just three bytes can all be indexed and searched |
| EndToEnd.HitsAreFiltered | src/flocate.cpp:178-259 | the hits of all blocks are those among all paths, in the order in which they were added |
| EndToEnd.ChunkIsExact | src/database-builder.cpp:348-402 | a block that does not end in a lone three-byte path is indexed in full |
| EndToEnd.Locate | src/flocate.cpp:475-694 | from the files added by updatedb to the output of flocate: printed, or counted, are the first limit paths that match and may be shown, in database order; unbuilt only if no table of the sizes tried can hold the trigrams or the file is too long |
| IOUring.IOUringEngine.SubmitStat | src/io_uring_engine.cpp:49-68 | a stat goes into the ring or, if that is full, into the queue |
| IOUring.IOUringEngine.SubmitRead | src/io_uring_engine.cpp:70-94 | a read goes into the ring, into the queue if that is full, or is done at once without a ring |
| IOUring.IOUringEngine.Complete | src/io_uring_engine.cpp:164-216 | a short read is resubmitted for the rest of its range; any other completion runs its callback with the bytes of the whole range |
| IOUring.IOUringEngine.SubmitQueued | src/io_uring_engine.cpp:219-248 | waiting requests move into the ring in the order in which they came, stats first, until it is full or none wait |
| IOUring.IOUringEngine.Round | src/io_uring_engine.cpp:141-249 | a batch of completions leaves less work, whatever the callbacks submit within their budget |
| IOUring.IOUringEngine.Finish | src/io_uring_engine.cpp:133-251 | when finish returns nothing is in flight or queued, and every request has had its callback exactly once, a read with the bytes of its full range of the file, a stat with its answer |
| IOUring.IOUringEngine.Counted | include/io_uring_engine.h:82 | at most 256 requests are in the ring, and no less while any wait |
| IOUring.IOUringEngine.Callback | src/io_uring_engine.cpp:165-216 | callbacks that submit more keep at most 256 requests in flight and the ring full while anything waits |
| IOUring.RingAnswered | src/io_uring_engine.cpp:165-216 | answering a request in the ring keeps every request accounted for once |
| IOUring.StatMoved | src/io_uring_engine.cpp:225-235 | so does moving a stat from the queue to the ring |
| IOUring.ReadMoved | src/io_uring_engine.cpp:238-248 | and moving a read |
| Metadata.MetadataEqualsIsEquivalence | include/metadata.h:85-104 | metadata_equals is an equivalence, with and without access times |
| RecordLayout.EqualIfStoredAlike | include/metadata.h:89-104 | with access times, metadata is equal exactly if it is stored in the same bytes |
| RecordLayout.AccessTimeAside | include/metadata.h:89-104 | without them, exactly if it would be equal with the same access time |
| Metadata.RecordReadsBack | src/metadata_codec.cpp:70-134 | an encoded record gives its size, its contents and where it ends |
| Metadata.PartialRecord | src/metadata_codec.cpp:91-106 | a buffer that ends inside a record is recognised at every cut |
| Metadata.StoredIsEqual | src/metadata_codec.cpp:70-134 | what is read back equals what was stored if and only if the hash length is at most 32 |
| Metadata.LongHashDiffers | src/metadata_codec.cpp:70-134 | metadata with a hash of 33 bytes does not equal what is read back |
| Metadata.EncodeMetadataRecord | src/metadata_codec.cpp:70-89 | the record is appended in the on-disk layout |
| Metadata.DecodeMetadataRecord | src/metadata_codec.cpp:108-134 | decoding fails exactly on a partial record, and otherwise moves past it |
| RecordLayout.FieldsOfRecord | src/metadata_codec.cpp:70-89 | which bytes of a record hold which field, low byte first and in two's complement |
| RecordLayout.CanonicalKeeps | src/metadata_codec.cpp:108-134 | all of the metadata comes back, but for the bytes of the hash that do not count |
| History.EventReadsBack | src/metadata_codec.cpp:136-179 | an encoded event gives its size, its contents and where it ends |
| History.PartialEvent | src/metadata_codec.cpp:150-179 | a buffer that ends inside an event is recognised at every cut |
| History.TruncatedStream | src/metadata_codec.cpp:150-179 | a stream cut off at any byte decodes to its longest prefix of whole events |
| History.StreamReadsBack | src/metadata_codec.cpp:136-179 | a whole stream decodes to its events |
| History.EncodeHistoryStream | src/metadata_codec.cpp:136-148 | the stream is its events one after the other |
| History.DecodeHistoryStream | src/metadata_codec.cpp:150-179 | the events of the stream, with an event of kind 3 and the time of the first put in front unless it begins with one |
| RecordLayout.FieldsOfEvent | src/metadata_codec.cpp:136-148 | which bytes of an event hold which field |
| RecordLayout.WholeIsLongest | src/metadata_codec.cpp:150-179 | the events found in a truncated stream are the longest part that ends within it |
| RecordLayout.FullHashesAreKept | src/metadata_codec.cpp:136-179 | events with no metadata or hashes that fill their array come back as they are |
| History.ReadEvent | src/metadata_codec.cpp:150-179 | one event is read, or the end of the data noticed |
| History.TrimHistoryRuns | src/updatedb.cpp:279-304 | what is kept is the last max_runs runs |
| RecordLayout.LastRunsAreLongest | src/updatedb.cpp:279-304 | the last n runs are the longest end of the log with at most n runs, counted by events of kind 3 |
| History.RunsFromStart | src/updatedb.cpp:279-304 | counting markers from the end is cutting at one of the positions found from the start |
| History.TrimBefore | src/updatedb.cpp:279-304 | trimming before new events are added changes nothing: trim(trim(a)+b) = trim(a+b) |
| History.FewerRuns | src/updatedb.cpp:279-304 | trimming twice is trimming to the smaller depth |
| History.UpdateHistory | src/updatedb.cpp:1186-1212 | the new log is the last depth runs of the old one and this run |
| History.NextRun | src/updatedb.cpp:1186-1212 | so it is when the old log has been through the file |
| History.ManyRuns | src/updatedb.cpp:1186-1212 | after any number of runs the stored log is the last depth runs of the full history |
| DirPath.CmpIsRankOrder | src/lib.cpp:41-63 | dir_path_cmp is lexicographic order with the slash as the lowest byte, and zero only on equal paths |
| DirPath.DirOrder | src/lib.cpp:41-63 | it is a strict total order |
| DirTree.LessAtFirstDifference | src/lib.cpp:41-63 | the lesser path ends first, or at the first difference has a slash, or the lower byte against no slash |
| DirPath.NameThenSlash | src/lib.cpp:41-63 | all that is under a name comes before any later name |
| DirPath.SiblingsInOrder | src/updatedb.cpp:937-939 | the subtree of a directory lies before the next sibling by name |
| DirPath.ParentFirst | src/updatedb.cpp:1097-1112 | a directory lies before its children |
| DirPath.PruneList.Contains | src/lib.cpp:73-89 | asked in increasing order, the forward-only cursor answers exactly whether the path is in the list |
| DirPath.Scan | src/updatedb.cpp:810-1112 | the traversal asks in increasing order, so it enters exactly the directories that membership tests would let it |
| DirPath.ScannedExactly | src/updatedb.cpp:810-818 | a directory is scanned exactly if it exists and neither it nor a directory above it is pruned |
| DirTree.SingleSlashes | src/updatedb.cpp:846 | below a root without two slashes in a row no directory has them |
| DirTree.ParentAndName | src/updatedb.cpp:1097-1100 | each directory but the root is another one, one slash and a name; a root that ends in a slash adds none |
| DirTree.WithinMeans | src/updatedb.cpp:810-818 | below a directory is exactly what continues it with a slash, below / what begins with one |
| DirTree.ProperIf | src/updatedb.cpp:937-939 | all that the scan asks of a tree: names that are not empty, without slashes, in byte order |
| DirTree.PrunedRoot | src/updatedb.cpp:810-818 | scanning / with directories p and q and /p pruned enters / and /q |
| DirPath.SiblingsApart | src/updatedb.cpp:1097-1112 | no path is under two siblings |
| SnapshotDiff.DiffSnapshots | src/showdiff.cpp:685-713 | the events, in path order, tell exactly of the paths that differ, each once, with the right kind and metadata |
| SnapshotDiff.ByteOrder | src/showdiff.cpp:693 | paths are compared byte by byte: the lesser one ends first or has the lower byte at the first difference |
| SnapshotDiff.SortedByBytes | src/showdiff.cpp:685-713 | all that the comparison asks of snapshots is that order |
| RecordLayout.EventsTell | src/showdiff.cpp:685-713 | an event of kind 0 for each path only in the new snapshot, 1 for each only in the old, 2 for each whose stored record differs, access times left aside unless compared |
| SnapshotDiff.CompareNext | src/showdiff.cpp:685-713 | a step of the merge deals with the smallest path left on either side |
| SnapshotDiff.EventsArePatch | src/showdiff.cpp:675-713 | applying the events to the old state gives the new one up to metadata_equals |
| SnapshotDiff.AppliedTold | src/showdiff.cpp:675-713 | what an event says still holds after the others |
| SnapshotDiff.FilesAt | src/showdiff.cpp:685-713 | a sorted snapshot is a map from paths to metadata |
| SnapshotDiff.ExtractPaths | src/showdiff.cpp:237-254 | the nonempty names of a block, in order |
| SnapshotDiff.MatchEntries | src/updatedb.cpp:941-956 | a new entry takes over time and metadata of the old one of its name exactly if there is one, and an old entry is marked exactly if it has a new one |
| Streams.AbsorbMore | src/metadata_hash.cpp:86-129 | taking in whole blocks and keeping the rest can be interrupted anywhere |
| XxHash64.XxHash64State.Consume | src/metadata_hash.cpp:86-129 | the state after a chunk is that of all bytes so far, whatever the chunks were |
| XxHash64.XxHash64State.Digest | src/metadata_hash.cpp:131-172 | the digest depends only on the bytes |
| XxHash64.HashChunks | src/metadata_hash.cpp:86-172 | for every split into chunks the digest is that of the concatenation |
| XxHashStandard.RoundIs | src/metadata_hash.cpp:59-65 | one round, with the primes and the rotation of the xxHash specification |
| XxHashStandard.MergeRoundIs | src/metadata_hash.cpp:67-73 | merging an accumulator |
| XxHashStandard.InitialIs | src/metadata_hash.cpp:75-84 | the accumulators for seed zero |
| XxHashStandard.StripeIs | src/metadata_hash.cpp:86-129 | a stripe is four lanes of eight bytes, low byte first |
| XxHashStandard.ConvergeIs | src/metadata_hash.cpp:135-140 | the accumulators rotated by 1, 7, 12 and 18, summed, and merged in order |
| XxHashStandard.StartIs | src/metadata_hash.cpp:134-145 | short input starts from the fifth prime, and the length is added |
| XxHashStandard.RestStepsAre | src/metadata_hash.cpp:148-164 | the steps for eight, four and single bytes of the rest, the first one both as the specification and as the program has it |
| XxHashStandard.FifteenBytes | src/metadata_hash.cpp:148-164 | a rest is taken in eights, then a four, then single bytes |
| XxHashStandard.AvalancheIs | src/metadata_hash.cpp:166-171 | the final mixing shifts by 33, 29 and 32 |
| XxHashStandard.RotlBit | src/metadata_hash.cpp:11-24 | rotation to the left, bit by bit |
| XxHashAgreement.AvalancheKeeps | src/metadata_hash.cpp:166-171 | the final mixing loses nothing |
| XxHashAgreement.ShortStepsKeep | src/metadata_hash.cpp:154-164 | nor do the steps for the last four and single bytes |
| XxHashAgreement.MulUndone | src/metadata_hash.cpp:59-73 | multiplication by the primes can be undone modulo 2^64 |
| XxHashAgreement.AgreeIfLanesDo | src/metadata_hash.cpp:148-152 | the digest is that of the xxHash specification if and only if the eight-byte steps without the rotation leave the same word as those with it |
| XxHashAgreement.AgreesWithXxHash | src/metadata_hash.cpp:148-152 | so it is if fewer than eight bytes follow the last 32-byte stripe; with one such lane, exactly if rotating that lane's word by 27 changes nothing |
| XxHashAgreement.DiffersOnEightZeroes | src/metadata_hash.cpp:148-152 | for eight zero bytes the digest is not that of the specification |
| Sha256.ZeroCountIsLeast | src/metadata_hash.cpp:265-287 | the padding of section 5.1.1 of FIPS 180-4 uses the least number of zero bytes that fills a block |
| Sha256.Sha256State.ProcessBlock | src/metadata_hash.cpp:185-235 | one block is compressed as in section 6.2.2 of FIPS 180-4 |
| Sha256.Sha256State.Schedule | src/metadata_hash.cpp:187-198 | the message schedule, built in place, is the recurrence of section 6.2.2 |
| Sha256.Sha256State.Consume | src/metadata_hash.cpp:237-263 | the state after a chunk is that of all bytes so far, whatever the chunks were |
| Sha256.Sha256State.Finalize | src/metadata_hash.cpp:265-287 | padding in the buffer, in one block or two, gives the digest of the padded message |
| Sha256.LongPadding | src/metadata_hash.cpp:268-274 | with 56 bytes or more buffered the padding spills into a second block |
| Sha256.HashChunks | src/metadata_hash.cpp:237-287 | for every split into chunks the digest is that of the concatenation |
| Sha256Standard.ConstantsAreRoots | src/metadata_hash.cpp:24-41 | the 64 constants are the first 32 fractional bits of the cube roots of the first 64 primes, section 4.2.2 of FIPS 180-4 |
| Sha256Standard.InitialIsRoots | src/metadata_hash.cpp:174-183 | the initial hash value: those of the square roots of the first eight, section 5.3.3 |
| Sha256Standard.ChoiceAndMajority | src/metadata_hash.cpp:205-220 | Ch chooses and Maj is the majority, bit by bit, section 4.1.2 |
| Sha256Standard.SigmaBits | src/metadata_hash.cpp:187-220 | each bit of the four one-word functions is the parity of three bits of the word, section 4.1.2 |
| Sha256Standard.StepIs | src/metadata_hash.cpp:205-227 | one step as sums modulo 2^32 of the variables of the last four steps, section 6.2.2 |
| Sha256Standard.OlderVariables | src/metadata_hash.cpp:205-227 | six of the working variables are the other two of earlier steps |
| Sha256Standard.ScheduleIs | src/metadata_hash.cpp:187-198 | the schedule in sums modulo 2^32 over big-endian words |
| Sha256Standard.CompressIs | src/metadata_hash.cpp:228-235 | the variables of the last four steps are added to the hash value |
| Sha256Standard.PaddedIs | src/metadata_hash.cpp:265-287 | a message is followed by a one bit, zeroes and its length in bits, in whole blocks, section 5.1.1 |
| Sha256Standard.BlocksOf | src/metadata_hash.cpp:265-287 | a message of up to 55 bytes is one block, of up to 119 two, compressed one after the other |
| Sha256Standard.OutputIs | src/metadata_hash.cpp:280-287 | the digest is the eight words of the hash value, most significant byte first |
| Sha256Standard.BigEndianAt | src/metadata_hash.cpp:265-279 | the most significant byte of a number comes first |
| MetadataHashes.MetadataHashBuilder.Update | src/metadata_hash.cpp:289-353 | data is added until the hash has been taken, and ignored after that |
| MetadataHashes.MetadataHashBuilder.Finalize | src/metadata_hash.cpp:289-353 | the hash of the chosen kind of all data added, XXH64 most significant byte first |
| MetadataHashes.ComputeFileHash | src/metadata_hash.cpp:355-403 | however reads cut up a file, its hash is that of the contents: SHA-256 for kind 1, the 64-bit digest most significant byte first for kind 2, none for others |
| ExistingDb.ExistingDB.TakeName | src/updatedb.cpp:742-747 | the next name of the block is taken |
| ExistingDb.ExistingDB.FillDirTimes | src/updatedb.cpp:674-740 | decompressing goes on until the next time is whole |
| ExistingDb.ExistingDB.TakeDirTime | src/updatedb.cpp:749-766 | the next time comes back, a non-directory as not_a_dir |
| ExistingDb.ExistingDB.RefillMetadataBlock | src/updatedb.cpp:483-551 | bytes move from the stream to the buffer, none lost, at least one unless the stream has ended |
| ExistingDb.ExistingDB.EnsureMetadataBytes | src/updatedb.cpp:463-481 | it succeeds exactly if the stream has as many bytes left |
| ExistingDb.ExistingDB.BufferRecord | src/updatedb.cpp:553-593 | flag, hash length and hash are waited for one after the other until the record is whole |
| ExistingDb.ExistingDB.ReadNextMetadataRecord | src/updatedb.cpp:553-593 | the next record comes back as it was stored |
| ExistingDb.ExistingDB.ReadNext | src/updatedb.cpp:595-767 | name, time and metadata of the next record come from three streams in step, then the end forever |
| ExistingDb.ExistingDB.Unread | src/updatedb.cpp:313-318 | the record just given is given again, metadata included |
| ExistingDb.RecordInPrefix | src/updatedb.cpp:553-593 | a record decodes alike however much of what follows it is buffered |
| ExistingDb.FirstName | src/updatedb.cpp:616-672 | the name at the cursor is the first of those to come |
| ExistingDb.ReadAll | src/updatedb.cpp:595-767 | for every chunking of the streams and with interleaved unread, the records read are exactly those added, in order, with the time (-1, 0) where there is none |
| ExistingDb.AddAndRead | src/updatedb.cpp:595-767 | whatever files are added to a corpus come back from the blocks in its file and the two streams, in order, with their metadata and their times, (-1, 0) where there is none |
| RecordLayout.FieldsOfDirTime | src/database-builder.cpp:263-279 | a directory time is stored as a one, seconds and nanoseconds, its absence as a zero byte |

## Left out

- XxHashAgreement.AgreesWithXxHash: gives a condition on the data only for at most one eight-byte lane after the last stripe; for two or three lanes the exact condition is that of AgreeIfLanesDo.
- IgnoreCase.ParseTrigramsIgnoreCase: mbtowc and the case folding of the locale are replaced by given spellings of each code point.
- EncodingCorpora.EncodingCorpus.AddFile: at most 2^24 blocks, so that the deltas of block numbers stay below 2^24; the streams are kept whole, their compression is left out.
- PostingList.PostingListBuilder.AddDocid: deltas of 2^24 or more, which the linear writer cannot pack, are excluded.
- PostingList.DecodePforDelta1: only for lists the builder can have written; corrupt input is excluded by the code's own comments.
- PostingList.PostingListBuilder.AddFirstDocid: docids of 2^28 or more have no code in write_baseval.
- Database.FinishCorpus: the table sizes are a given finite list; next_prime and the growth by five percent have no provable bound. Headers and section offsets are plain values.
- EndToEnd.DoSearchFile: blocks must be indexed in full and plain needles must pass the condition of PlainNeedle, since without these the property is false.
- EndToEnd.Locate: at most 2^24 files, so that there are at most 2^24 blocks; the zstd frames are an inverse pair of functions.
- BlockScan.ScanFileBlock: takes the decompressed block; the match counter is kept where the messages are made, in ScanInParallel and PrintInAnyOrder.
- IOUring.IOUringEngine.Finish: callbacks submit more requests within a budget, since otherwise the loop need not end; failing reads, at which the program exits, are not modelled.
- ExistingDb.ExistingDB.ReadNext: for files written by updatedb; the branches for failing reads and corrupt data, which end the reading of the old database, are not modelled.
- History.UpdateHistory: runs are taken as recorded; scan skips old records below a vanished directory, so the events of a run do not rebuild the database.
- DirPath.Scan: directories only, in a file system that does not change; mounts, bind mounts, names to prune and failing system calls are not modelled.
- zstd compression and dictionary training: decompression yields the plain bytes in arbitrary chunks.
- strstr, fnmatch, regexec and case folding of libc: a needle is any predicate whose matches the pattern matches as text, as a token glob with arbitrary wildcards, or under given spellings; POSIX classes and escapes inside brackets are not read.
- Regular expressions: no trigrams are taken from them, as in the code.
- access() and existence checks: one predicate on paths.
- Escaping of printed names, options, configuration, help, statistics and JSON output: user interface.
- num_bits without GNU builtins: that branch gives one less than the width, and is not part of the model.
- 64-bit wrap-around of file offsets: an index that long is not built.
