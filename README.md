# jffs2dparser reconstruction core, modelled in Dafny

jffs2dparser reads the textual node dump of a JFFS2 flash partition and
reconstructs the files in it. Every line becomes a record: a free-space
extent, a data node (an inode, a version, a byte range of the file and its
place on flash) or a directory entry (an inode, a version, a parent and a
name; inode 0 marks a deletion). From these records the program rebuilds,
for every inode, the current name, whether the file was deleted, its size,
and the data nodes that hold its live bytes. It then measures how the live
data is laid out on flash: the flash pages it occupies, the minimum it could
have occupied, and the number of flash page reads a sequential read costs.

The Dafny project covers that core:

- `flash_addr.dfy` (module `FlashAddr`) holds the page and block arithmetic
  of flash offsets. The geometry, which the program keeps in static fields,
  is passed as a value.
- `chunk_model.dfy` (module `ChunkModel`) holds the record datatype, the
  classification of a dump line by its prefix, record building from the
  extracted fields, and the pages a node occupies.
- `chunk_order.dfy` (module `ChunkOrder`) holds `sortChunkArray`, the in-place
  bubble sort of the record array. It is proved a stable reordering of the
  data nodes into non-increasing version order that leaves every other
  record in its slot, and it is proved to terminate.
- `parser.dfy` (module `Parser`) holds the record vector as a class. It
  models the duplicate-dropping insert of data nodes, the dispatch of one
  line, and the read loop with its skip rule for `#` and `W` lines.
- `resolution.dfy` (module `Resolution`) holds specification functions over
  index lists into the record sequence:
  - the coverage test, including its 64-bit wrap;
  - the data node that holds a byte;
  - the most recent data node;
  - the latest directory entry and the tombstone scan;
  - the valid data nodes in order of first appearance;
  - the grouping of records by inode.
- `page_lists.dfy` (module `PageLists`) holds the two vector helpers
  `addToArrayIfNotAlreadyPresent` and `addToArrayIfDifferentFromLastElement`,
  and loops that apply them to a run of pages.
- `locality.dfy` (module `Locality`) holds the locality metrics, integer parts
  only:
  - the concerned pages;
  - the theoretical page count;
  - the number of 4096-byte Linux pages;
  - the page walk behind the sequential cost and the non-sequential jumps;
  - the pages read for one Linux page and the per-page cost with its
    one-page buffer.
- `file.dfy` (module `Reconstruction`) holds the classes `File` and `FileSet`.
  Their methods update the file's lists and flags as the program does. Each
  is proved against the functions above. The `FileSet` constructor is proved
  to:
  - sort the records;
  - build one file per inode, the root first;
  - finalise every file;
  - drop exactly the discarded files, keeping the order of the rest.
- `wrappers.dfy` holds `Option` and `Result`. `arith.dfy` holds four facts
  about multiplication and division.

Records are referred to by their index in the record sequence. A comparison of
record addresses such as `dn == prev_dn` becomes an index comparison. Where the
program stops on a failed `assert` caused by the data, the model returns a
value instead: `None`, `false`, or the `AssertionFailed` outcome (of
`finalize`, and of `getMostRecentDataNode` as an error result). If any file
fails this way, the `FileSet` is marked `aborted`.
Assertions that are obligations of the caller become preconditions:
- an offset below the file size;
- a finalised file;
- a non-zero flash size.

The model assumes the program is built with assertions enabled. `addNode`
looks the newly pushed file up inside `assert(findFile(...) == 0)`
(src/File.cpp:576, 593). Without assertions that lookup is not run, and the
next line dereferences a null file (src/File.cpp:579, 596).

Behaviours of the program that the model keeps as they are written:
- The theoretical page count rounds the size up to whole maximal nodes of
  4096 + 68 bytes before it divides by the page size. A 100-byte file on
  2048-byte pages therefore needs 3 pages (`TheoreticalPageNumExample`).
  The fragmentation ratio can accordingly fall below 1.
- The tombstone scan compares only the name, not the parent inode, although
  a comment in the source mentions the parent.
- A data node covers `[dataOffset, dataOffset + dataSize - 1]`, with the end
  computed in 64-bit unsigned arithmetic. A node with size 0 at offset 0
  therefore covers every offset. A node with size 0 at any other offset
  covers nothing.
- `addToArrayIfNotAlreadyPresent` returns whether the value was already
  present, which is the opposite of whether it appended.
  `AddIfNotAlreadyPresent` returns `present` as the code does.

## Model

| member | source | states |
|---|---|---|
| FlashAddr.Init | src/FlashAddr.cpp:10-15 | the two-argument init is the three-argument one with partition offset 0; the geometry counts as initialised exactly when neither page size nor pages per block is -1 |
| FlashAddr.InitWithOffset | src/FlashAddr.cpp:17-22 | page size, pages per block and partition offset are stored unchanged |
| FlashAddr.NewAddr | src/FlashAddr.cpp:44-56 | an address is made exactly when the geometry is initialised, and it keeps the offset; with the geometry never initialised the result is the configuration error (the program exits) |
| FlashAddr.Page | src/FlashAddr.cpp:63-66 | the page index p is the one with p·pageSize <= offset < (p+1)·pageSize |
| FlashAddr.ByteInPage | src/FlashAddr.cpp:78-81 | the byte in page is below the page size and page·pageSize + byteInPage = offset |
| FlashAddr.Block | src/FlashAddr.cpp:68-71 | the block index b is the one with b·pagesPerBlock <= page < (b+1)·pagesPerBlock |
| FlashAddr.PageInBlock | src/FlashAddr.cpp:73-76 | the page in block is below pages-per-block and block·pagesPerBlock + pageInBlock = page |
| FlashAddr.IsStartOfAPage | src/FlashAddr.cpp:83-86 | true exactly when the byte in page is 0, i.e. the offset is the first byte of its page |
| FlashAddr.IsStartOfABlock | src/FlashAddr.cpp:88-91 | an offset starts a block exactly when it starts a page whose index within its block is 0 |
| FlashAddr.PageMonotone | src/FlashAddr.cpp:63-66 | a larger offset never lies in an earlier page |
| FlashAddr.PageOfPageStart | src/FlashAddr.cpp:63-66 | the first byte of page p lies in page p |
| ChunkModel.Classify | src/ChunkModel.cpp:11-32 | a line is free space, a data node or a directory entry exactly when it starts with "Empty space", "         Inode" or "         Dirent"; it cannot be built exactly when it starts with none of them |
| ChunkModel.PrefixesExclusive | src/ChunkModel.cpp:15-24 | no line starts with two of the three prefixes, so the order of the tests never changes the kind |
| ChunkModel.Build | src/ChunkModel.cpp:155-163 | the record has the requested kind; on-flash offsets are the extracted ones plus the partition offset; every other field is stored as extracted |
| ChunkModel.PageSpan | src/ChunkModel.cpp:192-208 | the pages of a node: a non-empty run of consecutive indices from the page of its first byte to the page of its last byte |
| ChunkModel.PageSpanExact | src/ChunkModel.cpp:192-208 | a page is in the span exactly when some byte of the node lies in that page |
| ChunkModel.ConcernedPagesIndexes | src/ChunkModel.cpp:192-208 | the loop builds exactly the page span of the node; the non-zero flash size the source asserts is required |
| ChunkModel.ConcernedPageAtOffset | src/ChunkModel.cpp:262-266 | with offset < dataSize, the result is the page holding byte flashOffset + offset, never before the node's first page |
| ChunkOrder.BubblePass | src/ChunkModel.cpp:371-392 | one pass is a stable reordering: same length, every slot keeps its kind, non-data records keep their slot, same multiset, and the data nodes of each version keep their order; a pass with a swap lowers the weight; a pass without one changes nothing and leaves neighbouring data nodes in non-increasing version order |
| ChunkOrder.SortChunkArray | src/ChunkModel.cpp:366-396 | the array ends as a stable reordering of the input in which every data node has a version at least that of every later data node |
| ChunkOrder.SwapStep | src/ChunkModel.cpp:386-391 | swapping a data node with the next data node when the latter has the strictly greater version is a stable reordering and lowers the weight |
| ChunkOrder.SwapKeepsVersionOrder | src/ChunkModel.cpp:386-391 | such a swap leaves the sequence of data nodes of every single version unchanged |
| ChunkOrder.SwapLowersWeight | src/ChunkModel.cpp:386-391 | the weight (sum of slot times version over data nodes) strictly drops on a swap, so the do-while terminates |
| ChunkOrder.StableReorderTrans | src/ChunkModel.cpp:368-393 | stable reorderings compose, so the passes together form one |
| ChunkOrder.AdjacentSortedIsSorted | src/ChunkModel.cpp:368-393 | when every data node has a version at least that of the next data node, the data nodes are sorted as a whole |
| ChunkOrder.NextDataUnique | src/ChunkModel.cpp:376-381 | the search for the next data node after slot i has a single answer |
| Parser.WithDataNode | src/Parser.cpp:93-105 | the vector is unchanged exactly when a data node with the same inode and version is present; otherwise the node is appended at the end; no two data nodes sharing inode and version is preserved |
| Parser.ChunkList.InsertDataNodeInVector | src/Parser.cpp:93-105 | returns 1 exactly when a data node with the same inode and version is present, else 0; the vector becomes `WithDataNode` of the old one |
| Parser.ParseStep | src/Parser.cpp:48-84 | status -1 exactly when the prefix is unknown or building fails, and then the vector is unchanged; free-space and directory records are always appended; data nodes go through the duplicate check; the old vector is a prefix of the new one, which is at most one longer; no duplicate data nodes is preserved |
| Parser.ChunkList.ParseLine | src/Parser.cpp:48-84 | status and new vector are those of `ParseStep` |
| Parser.Skipped | src/Parser.cpp:11-12 | a line starting with `#` or `W` is skipped (the same test guards the file loop at line 34); no such line starts with a record prefix, so without the skip it would stop the loop |
| Parser.ParseAll | src/Parser.cpp:33-41 | status 0 or -1, and -1 exactly when some line is neither skipped nor accepted (unknown prefix or failed build); records are only appended; no duplicate data nodes is preserved; input made only of `#`/`W` lines leaves the vector unchanged with status 0 |
| Parser.SkippedLineIgnored | src/Parser.cpp:33-41 | removing a skipped line from any position of the input changes neither the status nor the resulting vector |
| Parser.ChunkList.ParseLines | src/Parser.cpp:33-41 | the read loop skips `#`/`W` lines, stops with -1 at the first line that fails, and leaves the status and vector that `ParseAll` describes (so -1 exactly when some unskipped line is rejected) |
| Resolution.Covers | src/File.cpp:389-391 | a node with data covers exactly its byte range; a node of size 0 covers nothing, except at data offset 0 where the 64-bit wrap makes it cover every offset |
| Resolution.CoveringPos | src/File.cpp:386-397 | the position of the first node that covers the offset, no earlier node covering it; none exactly when no node covers it |
| Resolution.Resolve | src/File.cpp:362-401 | the node found is one of the file's data nodes, covers the offset and has a positive version; none is the failed assertion |
| Resolution.ResolveIsLatestCovering | src/File.cpp:358-401 | on a version-descending list the node found has the greatest version among those covering the offset; it is missing exactly when every covering node has version 0 |
| Resolution.FirstPositivePos | src/File.cpp:503-512 | the first position whose node has a positive version, all earlier ones having version 0; none exactly when all versions are 0 |
| Resolution.FirstPositiveIsMostRecent | src/File.cpp:503-512 | on a version-descending list that node exists exactly when the first node has a positive version, and it has the greatest version of all |
| Resolution.FileSize | src/File.cpp:442-451 | the size is undefined (a failed assertion) exactly when the file has no data node of positive version |
| Resolution.EarliestMaxAbove | src/File.cpp:275-283 | the running-maximum loop ends on the earliest entry of greatest value, when that value is above the start value; none exactly when no entry is above it |
| Resolution.EarliestMaxStep | src/File.cpp:275-283 | one more iteration replaces the choice exactly when the entry is strictly greater than the running maximum |
| Resolution.LatestDirent | src/File.cpp:275-286 | none exactly when the file is an orphan (no entry of positive version); otherwise the earliest entry of the greatest version |
| Resolution.LatestTombstone | src/File.cpp:288-302 | over the whole record sequence, an inode-0 entry with the same name and a version above the given one, of the greatest such version; none exactly when no such entry exists |
| Resolution.ResolvedDirent | src/File.cpp:267-305 | none exactly for an orphan; otherwise a directory entry of positive version |
| Resolution.ResolvedDirentMeaning | src/File.cpp:267-305 | the resolved entry has the greatest version among the file's own entries and the tombstones for its name, carries the name of its latest own entry, and is a tombstone exactly when the file was deleted |
| Resolution.AddByVersion | src/File.cpp:341-356 | the list is unchanged exactly when a node of the same version is in it, and otherwise gets the node appended; distinct versions are preserved |
| Resolution.Resolutions | src/File.cpp:325-333 | one entry per offset of the range, the node each offset resolves to |
| Resolution.Collect | src/File.cpp:325-333 | folding `AddByVersion` over the resolved nodes extends the list, keeps versions distinct and only adds resolved nodes |
| Resolution.ValidNodes | src/File.cpp:314-339 | the valid nodes are data nodes of the file with pairwise distinct versions |
| Resolution.ValidNodesSound | src/File.cpp:325-333 | each valid node is the node some byte below the size resolves to, so it covers at least one byte |
| Resolution.ValidNodesComplete | src/File.cpp:325-333 | the version of the node every byte resolves to is among the valid nodes |
| Resolution.ValidNodesOrdered | src/File.cpp:325-333 | valid nodes appear in order of the first byte that resolves to them: an earlier valid node is reached by an earlier byte |
| Resolution.GroupsMeaning | src/File.cpp:532-553 | a file's data list holds exactly the positions of its inode's data nodes, and its entry list exactly the positions of its inode's directory entries (none for inode 0), each once and in record order |
| Resolution.SortedGivesDescending | src/File.cpp:527-531 | on sorted records every file's data list is in non-increasing version order |
| PageLists.AddIfNotAlreadyPresent | src/File.cpp:631-645 | returns true exactly when the value was present; the vector becomes `AppendIfAbsent` of the old one |
| PageLists.AppendIfAbsent | src/File.cpp:631-645 | the vector is extended, contains the value, is unchanged exactly when the value was present, gains no other value, and stays duplicate-free |
| PageLists.AddAllAbsent | src/File.cpp:126-130 | adding a run extends the vector with exactly the run's values and keeps it duplicate-free |
| PageLists.AddEachIfNotAlreadyPresent | src/File.cpp:126-130 | the inner loop yields `AddAllAbsent` |
| PageLists.AppendIfNewLast | src/File.cpp:651-662 | the value ends the vector; it grows by at most one, and stays the same exactly when its last element already was the value; no two equal neighbours is preserved |
| PageLists.AddIfDifferentFromLastElement | src/File.cpp:651-662 | returns true exactly when the vector was empty or ended with another value; the vector becomes `AppendIfNewLast` of the old one |
| PageLists.AppendRun | src/File.cpp:106-108 | appending a run extends the vector by at most the run's length, ends with the run's last value, and keeps no two equal neighbours |
| PageLists.AppendRunMembers | src/File.cpp:106-108 | a value is in the result exactly when it was in the vector or in the run |
| PageLists.AppendEachIfDifferentFromLast | src/File.cpp:106-108 | the inner loop yields `AppendRun` |
| Locality.CeilDiv | src/File.cpp:36-38 | the ceiling of a/b: the least r with a <= r·b |
| Locality.TheoreticalPageNum | src/File.cpp:157-179 | the least number of pages holding ceil(size/4164) maximal nodes of 4164 bytes; at least enough pages for the size; 0 exactly for size 0 |
| Locality.TheoreticalPageNumExample | src/File.cpp:157-179 | 100 bytes on 2048-byte pages need 3 pages |
| Locality.LinuxPagesNum | src/File.cpp:29-41 | the number of 4096-byte pages of a non-empty file: at least 1, and the last one holds the last byte |
| Locality.ConcernedPages | src/File.cpp:119-133 | the concerned pages have no duplicates |
| Locality.ConcernedPagesExact | src/File.cpp:119-133 | a page is concerned exactly when some valid data node occupies it |
| Locality.Walk | src/File.cpp:193-206 | the page walk over a node sequence has no two equal neighbours, is empty exactly for no nodes, and remembers the last node visited |
| Locality.WalkPagesExact | src/File.cpp:193-206 | a page is in the walk exactly when a node visited occupies it |
| Locality.WalkPages | src/File.cpp:193-206 | the walk over the bytes of a range has no two equal neighbours and is empty exactly for an empty range |
| Locality.NonSeqJumps | src/File.cpp:210-213 | at most the walk's length minus one, and 0 exactly when every page follows its predecessor |
| Locality.CountNonSeqJumps | src/File.cpp:210-213 | the counting loop yields `NonSeqJumps` |
| Locality.FlashPagesRead | src/File.cpp:86-114 | empty exactly when the Linux page starts at or past the file size; no two equal neighbours |
| Locality.FlashPagesReadWindow | src/File.cpp:86-114 | for a Linux page inside the file, the pages read are the walk over the bytes from its start to 4096 bytes later or the end of the file |
| Locality.PageCost | src/File.cpp:58-60 | the count is the number of pages read, one less exactly when the first page is the last page of the previous Linux page |
| Locality.PerPageCosts | src/File.cpp:49-67 | one non-negative cost per Linux page of the file |
| Locality.PerPageCostsAt | src/File.cpp:55-65 | the i-th cost is `PageCost` of the non-empty pages read for page i against the last page read for page i-1 |
| Reconstruction.File.constructor | src/File.cpp:16-24 | a new file has the given inode, empty lists, no entry, not deleted, not final, cost -1 |
| Reconstruction.File.AddDataNode | src/File.cpp:478-482 | appends to the data list and changes nothing else |
| Reconstruction.File.AddDirentNode | src/File.cpp:484-488 | appends to the entry list and changes nothing else |
| Reconstruction.File.GetMostRecentDataNode | src/File.cpp:493-517 | the assertion failure exactly when the file is not deleted and no data node has a positive version; otherwise none exactly when the file was deleted, else the first data node of positive version |
| Reconstruction.File.Size | src/File.cpp:442-451 | 0 for a deleted file |
| Reconstruction.File.SizeIsLatest | src/File.cpp:442-451 | for a file not deleted, with version-descending data, the size is the file size recorded in a node of positive version whose version is the greatest of the file's |
| Reconstruction.File.GetValidDataNodeAtOffset | src/File.cpp:362-401 | with offset below the size, the result is `Resolve` of the offset |
| Reconstruction.File.AddValidDataNodeIfNotAlreadyPresent | src/File.cpp:341-356 | the valid list becomes `AddByVersion` of the old one; nothing else changes |
| Reconstruction.File.PickOwnDirent | src/File.cpp:275-286 | the last version is 0 exactly for an orphan; otherwise the valid entry is `LatestDirent` and the last version is its version |
| Reconstruction.File.AdoptTombstones | src/File.cpp:288-302 | the valid entry becomes the latest tombstone for its name above its version, if any, and the file is deleted exactly then |
| Reconstruction.ScanTombstones | src/File.cpp:288-300 | the scan over all records returns `LatestTombstone`, or the current entry when there is none, and reports whether one was found |
| Reconstruction.File.SetValidDirent | src/File.cpp:267-305 | 0 for the root, which is unchanged; otherwise 1 exactly for an orphan, and else the valid entry is `ResolvedDirent` and the file is deleted exactly when `Deleted` |
| Reconstruction.File.SetValidDataNodes | src/File.cpp:314-339 | nothing is added when the valid entry is a tombstone; otherwise success exactly when the size is defined and every byte below it resolves, and the valid list is the resolved nodes folded by `AddByVersion` |
| Reconstruction.FinalizeOutcomeCases | src/File.cpp:236-261 | for `FinalizeOutcome`, the outcome of finalising a freshly grouped file: the root is always final; a file is discarded exactly when it is not the root and has no directory entry of positive version; an assertion failure happens only for a non-root file whose live entry is not a deletion and whose data nodes give no size or leave some offset below the size a hole |
| Reconstruction.File.Finalize | src/File.cpp:236-261 | the root is final untouched; an orphan is discarded unchanged; otherwise the valid entry and deletion flag are resolved, and final exactly when the file was deleted or its size and every byte resolve; for a freshly grouped file the outcome is `FinalizeOutcome` and a final file is `Resolved` |
| Reconstruction.FinalizeFresh | src/File.cpp:236-261 | a freshly grouped file finalises to `FinalizeOutcome` of its inode and record lists |
| Reconstruction.File.ConcernedPagesIndexes | src/File.cpp:119-133 | the result is `ConcernedPages` of the valid data nodes |
| Reconstruction.File.FragmentationRatio | src/File.cpp:140-149 | numerator is the number of concerned pages, denominator `TheoreticalPageNum` of the size |
| Reconstruction.File.LinuxPagesNum | src/File.cpp:29-41 | for a final non-empty file, `Locality.LinuxPagesNum` of its size: at least 1 and enough 4096-byte pages for the size |
| Reconstruction.File.WalkOffsets | src/File.cpp:193-206 | the byte loop with the previous-node check yields `WalkPages` of the range |
| Reconstruction.File.FlashPagesReadForLinuxPage | src/File.cpp:86-114 | the result is `FlashPagesRead` of the Linux page |
| Reconstruction.File.LinuxPageReadCost | src/File.cpp:73-81 | the count of pages read, 0 exactly when the Linux page lies past the file |
| Reconstruction.File.ContiguousFactor | src/File.cpp:187-218 | the cached sequential cost is the walk's length, total jumps its length minus 1, non-sequential jumps `NonSeqJumps` of the walk |
| Reconstruction.File.SequentialReadCost | src/File.cpp:226-231 | returns the cached cost, computing it first when unset; it equals the length of the whole-file walk |
| Reconstruction.File.SequentialPerPageReadCost | src/File.cpp:49-67 | the loop yields `PerPageCosts` of the file |
| Reconstruction.File.PageReadCost | src/File.cpp:55-65 | one iteration: the cost of page i and the last page read, which is the previous-page value for page i+1 |
| Reconstruction.FilterByKept | src/File.cpp:555-563 | a file survives exactly when it is at a kept position |
| Reconstruction.EraseDiscarded | src/File.cpp:555-563 | the erase-and-step-back loop yields `FilterBy`: the kept files in their order |
| Reconstruction.FileSet.constructor | src/File.cpp:521-565 | the records end stably sorted; grouping gives one file per attached inode plus the root first, the others in the order of each inode's first attached record (`FileOrder`); aborted exactly when some file fails an assertion; otherwise the files are the grouped ones whose outcome is final, in order, each `Resolved` |
| Reconstruction.FileSet.Ingest | src/File.cpp:532-553 | after the loop there is one file per attached inode plus the root, in `FileOrder` (root first, then by each inode's first attached record), and every file holds exactly its inode's records in order |
| Reconstruction.FileSet.GroupRecord | src/File.cpp:534-552 | one turn of the loop: data nodes and non-tombstone entries go to `addNode`, other records are passed over; the file list only grows at its end, by at most one, and the grouping invariant (file order included) extends by one record |
| Reconstruction.FileOrderMeaning | src/File.cpp:572-577 | the order files are created in starts with the root, lists no inode twice, holds exactly the root and the inodes of attached records, and puts an inode after another only when each of its attached records is preceded by one of the other's |
| Reconstruction.FileSet.FindFile | src/File.cpp:604-614 | -1 exactly when no file has the inode; otherwise the first position with that inode |
| Reconstruction.FileSet.AddNode | src/File.cpp:567-599 | attaching one more record keeps the grouping invariant, file order included, for one more record; the file list only grows at its end, by at most one file |
| Reconstruction.FileSet.NewFile | src/File.cpp:572-577 | an inode without a file gets a new file with that inode, appended at the end of the list (`push_back`), and the set is then ready for the record to join |
| Reconstruction.FileSet.JoinFile | src/File.cpp:579-579 | adding the record to its file extends the grouping invariant by one record |
| Reconstruction.FileSet.SkipRecord | src/File.cpp:542-551 | a free-space record or a tombstone entry joins no file |
| Reconstruction.FileSet.FinalizeAll | src/File.cpp:555-563 | every file is finalised; aborted exactly when one fails an assertion; otherwise exactly the final ones remain, in order, each `Resolved` |
| Reconstruction.FinalizeEach | src/File.cpp:555-563 | the finalisation pass records, per file, whether it stays |
| Reconstruction.KeptAreResolved | src/File.cpp:555-563 | every file left after erasing is resolved |

## Left out

- Text extraction of the record fields (POSIX regular expressions, hex and `atoi` conversions in the `build` methods): `ChunkModel.Build` takes the extracted fields as given. A failure of the free-space regular expression or of a data node's or entry's own regular expression makes `build` return -1; that is the `None` field value passed to `ParseStep`. A failure of the shared node regular expression (offset, size, inode, version) is ignored: `DataNode::build` and `DirentNode::build` discard its -1 (src/ChunkModel.cpp:215, 303), so the line is stored with status 0 and uninitialised fields. The model passes such a line as `Some` with fields it does not specify.
- Reading the dump from a file or stdin with a 256-byte line buffer: `ParseLines` takes the lines as a sequence.
- The command-line front end, mode selection and every printer (`operator<<`, progress output, the `readpage[i]` lines); `SequentialPerPageReadCost` returns the costs it would print.
- `getName` and `getParentInodeNum` (src/File.cpp:458-476): on a file that is not final they print an error and return "" and 0; on a final file they read the name and parent of the resolved directory entry, `File.validDirent`. For the root that entry stays unset and the source dereferences a null record; the model has no member for them.
- The remaining field getters of the records and of `File`: plain reads of fields the model exposes directly.
- The `double` divisions of the fragmentation and contiguity factors: the model returns the integer numerator and denominator. The denominator of the contiguity factor is 0 for a one-page walk.
- Raw record addresses, `delete`, and the copies of `File` into the file vector: files are objects in a sequence and records are indices.
- Reconstruction.FileSet.constructor: the erase loop with `i--` is modelled as a finalisation pass followed by an erase pass; the resulting file list is the same because `finalize` of one file does not read another.
- Reconstruction.File.Finalize: the `-1` return of `finalize` cannot occur in the source (`set_valid_dirent` and `set_valid_datanodes` never return it), so it is not modelled; failed assertions are `AssertionFailed` and abort the set.
- Resolution.Covers: the 32-bit unsigned offsets and sizes are unbounded; only the 64-bit wrap of the end offset is modelled, since offsets and sizes of a real dump are far below 2^32.
- Locality.FlashPagesRead: the 32-bit wrap of `index * 4096` and of `start + 4096` is not modelled; index is below the number of Linux pages of a file whose size fits 32 bits.
- Locality.TheoreticalPageNum: the `int` overflow of `nodes * 4164` for sizes near 2^31 is not modelled.
- FlashAddr.Page: the truncation of page and block indices to 32 bits is not modelled.
- FlashAddr.Page, FlashAddr.Block: page and block computations require a positive page size (`Paged`) and, for blocks, a positive number of pages per block (`Usable`). The front end stores any `atoi` value of `-p` and `-b` (src/Jffs2DParser.cpp:56-59); with 0 the source divides by zero (src/FlashAddr.cpp:65, src/ChunkModel.cpp:198), and a negative value becomes a huge unsigned divisor. Neither is modelled.
- FlashAddr.IsStartOfABlock: the block size `pagesPerBlock * pageSize` is an unbounded product; the `int` overflow of the source's product for blocks of 2^31 bytes or more is not modelled.
- ChunkModel.Build: a negative partition offset (which wraps in the 64-bit offset) is excluded by the precondition.
- The geometry is a value passed to each computation rather than static fields written once.
- ChunkModel.ConcernedPagesIndexes, Reconstruction.File.LinuxPagesNum, Reconstruction.File.GetValidDataNodeAtOffset: the source's caller assertions (non-zero flash size, final non-empty file, offset below size) are preconditions.
- Reconstruction.File.AdoptTombstones: the scan loop lives in the module-level `ScanTombstones`; the inner page loops live in `PageLists`.
- The header-only declarations `getContainingPages` and `getMostRecentDirentVersion`, which the source never defines.
