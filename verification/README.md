# A verified model of libheapfile

libheapfile keeps small and medium-sized objects in one file: a hash table on disk with an index on the ids,
a block allocator in the style of Kernighan and Ritchie's `malloc`, and an exclusive-or cipher on ids and data.
This project models its block index, its blob format, its memory-mapped file and the store on top of them, and
proves that the store is a finite map whatever the blocks go through. `dafny verify dfyconfig.toml` checks it.

## How it is organised

| file | what it holds |
|---|---|
| `Bytes.dfy` | byte strings, `ftruncate` as a function, big-endian numbers |
| `ByteOrder.dfy` | `h2n`, `n2h`, `htonll`, `writeH2N`, `readN2H` on a host of either byte order, with or without the macro that the program tests |
| `SimpleEncrypt.dfy` | the exclusive-or cipher |
| `BlobFormat.dfy`, `HeapBlob.dfy` | the bytes of a blob, the djb2 hash, and the class that reads and writes blobs |
| `Blocks.dfy` | the allocator as a function on the list of blocks |
| `RecordMap.dfy`, `HeapIndex.dfy` | the records, the two multimaps and the list, updated in place |
| `MmapFile.dfy` | the sliding window on a growable file |
| `Store.dfy` | a heap file as a value, and what each operation does to it |
| `Views.dfy` | the stored table as seen through a key |
| `HeapFile.dfy` | the class with the operations that callers use |
| `Runs.dfy` | theorems on whole runs |
| `Sizes.dfy` | the size of the file against its limit, over single operations and whole runs |
| `Example.dfy` | the bytes of a whole file with one blob |

Each class keeps a ghost value (`HeapIndex.blocks`, `HeapFile.State()`), and each of its methods is proved to
change that value as a function or relation of `Blocks.dfy` or `Store.dfy` says; the properties are then lemmas on
those. `HeapFile.Did` ties every call to a transition of `Runs.Step`, and `HeapFile.ClosingAndOpeningIsAStep` does
so for a destructor followed by a constructor, so the theorems on runs speak of the methods.

The list of blocks is seen as `Alloc(offset, key, size)` and `Free(offset, size)`. The key that a free record
still carries is left out of this view, because no lookup by key ever reaches it.

## The main results

* **The file is a map.** Over every sequence of writes, erases, lookups, size limits and reopenings, each under
  its own key, the stored table changes as a map does (`Runs.RunRefinesMap`); a blob that was written is read
  back until its encrypted id is written or erased or a limit is set that does not spare its block
  (`Runs.WrittenIsRead`); and in a file that was empty at first whatever is found is what the last event that
  named its id has written (`Runs.NothingFromNowhere`).
* **Free space is used first.** A write that finds a free block of the erased file big enough puts the blob into a
  smallest one, and neither the file nor the list gets longer; only otherwise it appends
  (`Store.WriteInNumbers`, which gives sizes and the exact condition for success in numbers).
* **The format is fixed to the byte**: the committed file of one encrypted blob is spelled out
  (`Example.OneBlobOnDisk`), and `getData` accepts exactly the records that start with a written blob
  (`BlobFormat.IntactExactly`).
* **A failed write is a removal**, not a no-op: the old value goes before the new one is tried
  (`Store.WriteRefines`), and the blocks are those of the erase.
* **A size limit keeps everything exactly when the file is below it or empty** (`Store.LimitedKeepsExactly`);
  otherwise the longest proper prefix that fits is left (`Store.LimitedShrinks`), and a blob survives exactly when
  its block is not the last one and fits together with the blocks before it (`Store.SurvivesLimitExactly`).
* **The limit is outgrown exactly by the erase of a last block** that many blocks have joined since the file got its
  size: `Sizes.StepOutgrowsExactly` for every operation, `Sizes.RunStaysWithinExactly` for whole runs.
* **Closing and opening loses nothing** but the record of a free block at the very front
  (`Store.ReopenedIsSame`), also from one configured host to another.
* **The allocator keeps its three views in agreement** through in-place updates (`HeapIndex.HeapIndex.Allocate`,
  `Deallocate`, `AddAllocatedBlock`), and freeing undoes allocating (`Blocks.AllocateDeallocateRestores`,
  `Blocks.AppendDeallocateRestores`).
* **One changed byte of checksum or data is always noticed** (`BlobFormat.OneByteCorruptionIsRejected`).

## Where the program and its documentation part

* `HeapIndex::clear` is documented to clear the index entirely (include/heap_index.h:157-160) but never empties
  the list (src/heap_index.cpp:144-152). `HeapIndex.Clear` and `HeapFile.Clear` follow the program; the result is a
  valid, empty index if and only if the list was empty already, and otherwise no choice of blocks makes list and
  multimaps agree. `setMaxSize` calls it only with an empty list, and `Runs.Step` has `clear` only there.
* "A wrong key behaves as if the file were empty" (include/heap_file.h:19-21) is false: a file looks empty under a
  key if and only if it is empty (`Runs.LooksEmptyExactlyWhenEmpty`). `Views.WrongKeySees` says exactly which ids a
  wrong key finds, and `Runs.WrongKeyIsNotEmpty` gives a run in which one is found.
* `setMaxSize` deletes a blob from a file whose size equals the limit, although such a file already meets the
  documented bound (include/heap_file.h:84-93; the test is `<`, src/heap_file.cpp:293):
  `Store.FileAtItsLimitLosesABlob`. `Store.LimitedKeepsExactly` is the exact condition.
* Erasing the last blob is documented to truncate the file "to its actual size" (include/heap_file.h:62-69). The
  program resizes it to the place where the released block started plus the size of the index that is left
  (src/heap_file.cpp:87-92), as `Sizes.SizeAfterRelease` and `Sizes.SizeAfterErase` say in numbers. That is the size that blocks and index need exactly when no free block, and at the front
  of the file no unused place, comes before the released one (`Sizes.FileSizeAfterRelease`;
  `Sizes.EraseLeavesFreeSpace` is a run in which 4876 bytes are left of an empty heap file). And it can be more than
  before: a release lengthens the file exactly when the last block goes and the records of blocks that have reused
  free space since outweigh it (`Sizes.ReleaseLengthensExactly`).
* A limit is not kept between calls of `setMaxSize`. `Sizes.EraseOutgrowsLimit` is a run in which a file of 5164 bytes
  under a limit of 5165 has 5180 after an erase. The exact conditions: an erase passes the limit if and only if
  `Sizes.EraseBeyondExactly` says so, a write only through its erase (`Sizes.WriteBeyondExactly`), closing by
  the index (`Sizes.ClosedSize`), and no other operation (`Sizes.StepOutgrowsExactly`). Reopening lifts the limit.
* `htonll` reverses its bytes where the macro `__LITTLE_ENDIAN__` is defined (src/byte_order.cpp:5), which not every
  compiler for a little-endian host does. Eight-byte numbers go out in network order if and only if the macro is
  defined exactly on the little-endian hosts (`ByteOrder.NetworkOrderExactlyWhenConfigured`; the number 1 goes out
  wrong elsewhere). `HeapFile` is modelled on such a "configured" host. What one host has written it reads back itself in any case
  (`ByteOrder.SameHostRoundTrip`).
* `writeData` is documented to return false when the data does not fit (include/heap_blob.h:74-83), but the program
  asserts that it fits (src/heap_blob.cpp:73). `Blob.WriteData` is aborted, with nothing written, if and only if it
  does not; `HeapBlob.OneByteTooMany` is an instance. It never happens in a heap file, as `HeapFile.Fill` shows.
* Sizes are 32-bit sums. `Blocks.HoleTilesExactlyWhenItFits` shows that freeing keeps the list without gaps if and
  only if the hole is smaller than 2^32 bytes, `Blocks.HoleThatDoesNotFit` gives a list with a larger one, and
  `BlobFormat.BlobSizeHasRoomExactly` shows that the record of a blob has room for it if and only if the sum stays
  below 2^32. An erase therefore requires `Store.CanErase`: the block of the given id leaves no such hole inside the
  list. A write requires `Store.CanWrite`: that, and that the blob's size, the index and the file stay within the
  program's 32 and 64 bits. `Store.NothingToCheckBelow4GiB` shows that below 4 GiB only the blob's own size is left of
  this. Nothing else is required of a caller.
* `hasId` looks at one byte behind the record when length byte, record size and the length of the id are equal and
  every other byte matches. Exactly then the answer depends on more than the record's bytes
  (`HeapBlob.AnswerIsInTheRecordExactly`), and exactly then `Blob.HasId` requires that byte to be mapped. It never
  happens in a heap file.
* The read-only `getPtr` lets the file grow when a range starts inside it and ends outside. `GetReadPtr` says so.
  Lookups in a heap file never do that.

## Model

| member | source | states |
|---|---|---|
| Runs.RunRefinesMap | src/heap_file.cpp:165-319 | in every run of operations and reopenings each step updates, removes from, looks up in, restricts or clears the map as its answer says; a limit takes away exactly the blobs in blocks that it does not spare |
| Runs.RunStaysValid | src/heap_file.cpp:110-319 | every state of every run satisfies the invariant of the store |
| Runs.StepRefinesMap | src/heap_file.cpp:165-319 | one operation on a valid file is the corresponding operation on the map seen through its key; a limit takes away exactly the blobs in blocks that it does not spare, and at least one exactly when the file is not below it and not empty |
| Runs.StepKeeps | src/heap_file.cpp:84-319 | one operation keeps the file valid and changes the encrypted table as prescribed |
| Runs.WrittenIsRead | src/heap_file.cpp:110-319 | a successful write is read back unchanged, across reopenings, other keys and limits that spare its block, until its encrypted id is written or erased or a limit drops it |
| Runs.TouchedIsReplaced | src/heap_file.cpp:205-319 | an operation that ends that promise takes the blob away or stores another one under its id |
| Runs.NothingFromNowhere | src/heap_file.cpp:165-319 | in a run from an empty file every stored blob comes from a successful write after which no event has written or erased its encrypted id |
| Runs.OtherKeysStayApart | include/heap_file.h:19-26 | an operation under another key leaves every id alone whose encryption it does not touch |
| Runs.LooksEmptyExactlyWhenEmpty | include/heap_file.h:19-21 | under any key, right or wrong, a file looks empty exactly when it has no blocks |
| Runs.WrongKeyIsNotEmpty | include/heap_file.h:19-21 | a run of a write under one key and a reopening under another, which finds an id |
| Store.WriteRefines | src/heap_file.cpp:214-274 | a write is a map update when it succeeds and a removal when it fails; it succeeds exactly when the id has at most 255 bytes and there is room |
| Store.WriteInNumbers | src/heap_file.cpp:219-269 | a blob that fits into a free block goes into a smallest one, file and list keep their ends, and no limit matters; any other is appended at the end and succeeds exactly when end, Max(9 + id + data, 256) bytes and the index with one more record stay within the limit; no other byte changes |
| Store.ReusedPlace | src/heap_file.cpp:225-269 | the place and the size of the block in a smallest free one that fits, and that the rest of the file stays |
| Store.AppendedPlace | src/heap_file.cpp:231-269 | the place and the size of the appended block, and the size of the file in all three outcomes |
| Store.ReuseRefines | src/heap_file.cpp:225-274 | a write into a carved free block updates the map and keeps the size of the file; when the blob is refused, nothing at all has changed |
| Store.AppendRefines | src/heap_file.cpp:231-274 | a write into a new block updates the map and leaves a file within the limit; when it is refused, the blocks and the map are those before |
| Store.UnlimitedWriteSucceeds | include/heap_file.h:72-78 | without a limit every blob with an id of at most 255 bytes is stored |
| Store.WrittenInto | src/heap_file.cpp:247-269 | bytes written into one block change no other blob |
| Store.EraseForgets | src/heap_file.cpp:95-106 | an erase removes exactly the given id and keeps the file valid |
| Store.ReleasedForgets | src/heap_file.cpp:84-93 | releasing a block and resizing the file takes exactly its blob out of the map |
| Store.ReleasedAgrees | src/heap_file.cpp:84-93 | resizing the file never reaches the bytes of a remaining block |
| Store.BoundMeansStored | src/heap_file.cpp:66-82 | an id is bound if and only if some allocated block holds it |
| Store.StoredOnce | src/heap_file.cpp:66-82 | no two blocks hold the same id |
| Store.LimitedShrinks | src/heap_file.cpp:288-319 | after a size limit the file is no larger than it, the blocks and blobs left are a prefix of the old ones, unchanged, and no longer proper prefix would fit; the file then ends with its index, and an empty one has no limit; below the limit nothing else changes |
| Store.LimitedKeepsExactly | src/heap_file.cpp:288-319 | a limit keeps every block, and every blob, if and only if the file is smaller than the limit or has no blocks |
| Store.SurvivesLimitExactly | src/heap_file.cpp:288-319 | under a limit that the file is not below, a stored blob survives if and only if its block is not the last one and fits with the blocks before it and their index |
| Store.LimitedDropsExactly | src/heap_file.cpp:288-319 | an id is bound after a limit if and only if it was before and the limit does not drop its blob |
| Store.FileAtItsLimitLosesABlob | include/heap_file.h:84-93 | a limit equal to the size of a non-empty file takes a blob away |
| Sizes.SizeAfterRelease | src/heap_file.cpp:84-93 | after the release of the last block the file has the bytes before it, 4, and 16 for each block left, in every case; otherwise its old size |
| Sizes.SizeAfterErase | src/heap_file.cpp:84-106 | the same for an erase |
| Sizes.FileSizeAfterRelease | include/heap_file.h:62-69 | releasing the last block gives the file the size that blocks and index need exactly when no free or unused place was before it; releasing another one leaves the bytes |
| Sizes.EraseLeavesFreeSpace | include/heap_file.h:62-69 | a run whose last erase leaves no block but 4876 bytes |
| Sizes.ReleaseLengthensExactly | src/heap_file.cpp:84-93 | a release makes the file longer if and only if the last block goes and its place and the index add up to more than the file has |
| Sizes.EraseBeyondExactly | src/heap_file.cpp:84-106 | an erase ends beyond a given size, its own or the limit, if and only if the last block stores the id and its place and the index add up to more |
| Sizes.WriteBeyondExactly | src/heap_file.cpp:214-274 | a write passes the limit if and only if its erase does and then a free block is reused or none can be appended |
| Sizes.ClosedSize | src/heap_file.cpp:47-64 | the size after closing, and that closing passes the limit if and only if blocks and index do |
| Sizes.StepOutgrowsExactly | src/heap_file.cpp:84-319 | a file within its limit is beyond it after an operation exactly when the erase in it, or the index on reopening, outgrows the limit |
| Sizes.RunStaysWithinExactly | src/heap_file.cpp:84-319 | a run that starts within its limit stays there if and only if no event outgrows it |
| Sizes.EraseOutgrowsLimit | src/heap_file.cpp:84-93 | a run of the public operations whose last one, an erase, lengthens the file past its limit |
| Store.NothingToCheckBelow4GiB | src/heap_index.cpp:90-96 | while the blocks stay below 4 GiB no hole and no index is too large for its 32 bits |
| Store.ReopenedIsSame | src/heap_file.cpp:110-163 | closing and opening gives the same map and the same blocks except for a leading free one |
| Store.ReopenedTwiceIsSame | src/heap_file.cpp:110-163 | from the second time on, closing and opening changes no block |
| Store.IndexReadBack | src/heap_file.cpp:27-64 | the index that was written is found again and spells the allocated blocks |
| Store.CommittedAgrees | src/heap_file.cpp:47-64 | writing header and index changes no byte of a block |
| Store.CommittedElsewhere | src/heap_file.cpp:47-64 | nor any other byte outside the header and the place of the index |
| HeapFile.HeapFile.constructor | src/heap_file.cpp:110-131 | opening a file whose index is in order gives the loaded state, under any key, and a valid heap file exactly when its blobs are in order, too |
| HeapFile.ClosingAndOpeningIsAStep | src/heap_file.cpp:110-163 | what the destructor leaves can be opened, and the two together are the reopening step of a run |
| HeapFile.HeapFile.LoadIndex | src/heap_file.cpp:119-124 | the loop rebuilds the list of blocks from the stored records |
| HeapFile.HeapFile.FindHeapIndex | src/heap_file.cpp:27-42 | the number of records and their place, as the bytes say |
| HeapFile.HeapFile.FindBlob | src/heap_file.cpp:66-82 | nil if and only if no block holds the id, otherwise the one block that does; the file does not change |
| HeapFile.HeapFile.HasBlob | src/heap_file.cpp:165-172 | true exactly when the map binds the id |
| HeapFile.HeapFile.GetBlob | src/heap_file.cpp:174-203 | the bound data, decrypted, and null exactly when the id is not bound |
| HeapFile.HeapFile.EraseBlob | src/heap_file.cpp:205-211 | always true; the map loses exactly the id; the size of the file, exactly |
| HeapFile.HeapFile.WriteBlob | src/heap_file.cpp:213-274 | map update on success, removal on failure, and a step of a run; when it succeeds, in numbers; when a free block is big enough, the size of the file and the end of the list stay |
| HeapFile.HeapFile.ProposeBlock | src/heap_file.cpp:231-239 | one more block behind the last one, and the size that blocks and index then need |
| HeapFile.HeapFile.AppendBlock | src/heap_file.cpp:231-244 | a new block exactly when blocks and index stay within the limit, otherwise nothing has changed |
| HeapFile.HeapFile.Release | src/heap_file.cpp:84-93 | the state with the block freed, and the size of the file in numbers |
| HeapFile.HeapFile.SetMaxSize | src/heap_file.cpp:288-319 | the file ends no larger than the limit, and with its index when it had to shrink; the map loses exactly the blobs in blocks that the limit does not spare, none when the file was below it |
| HeapFile.HeapFile.ShrinkIndex | src/heap_file.cpp:304-316 | the loop terminates and leaves the longest proper prefix that fits |
| HeapFile.HeapFile.Clear | src/heap_file.cpp:276-282 | file emptied, limit lifted; a step of a run, and the heap file in order, exactly when the list was empty before; otherwise no blocks fit list and multimaps |
| HeapFile.HeapFile.PrepForCommit | src/heap_file.cpp:47-64 | header written, file grown, count written behind the last block, each through mapped bytes, and the place of the whole index mapped |
| HeapFile.HeapFile.Close | src/heap_file.cpp:133-163 | the committed bytes; as many records are serialised as are allocated |
| HeapIndex.HeapIndex.Allocate | src/heap_index.cpp:283-318 | null exactly when no free block has the size asked for, at least 256; otherwise a best fit is carved, and the three views agree again |
| HeapIndex.HeapIndex.SplitListed | src/heap_index.cpp:303-309 | after the split the list is still sorted and the search finds exactly the shrunken block |
| HeapIndex.HeapIndex.Deallocate | src/heap_index.cpp:240-265 | true exactly when an allocated record equals the given one, which is then freed, merged or dropped |
| HeapIndex.HeapIndex.Coalesce | src/heap_index.cpp:197-238 | the record is found in the list and takes in its free neighbours on both sides |
| HeapIndex.HeapIndex.AddAllocatedBlock | src/heap_index.cpp:155-167 | appends with a free block for the gap; refused exactly when the record starts before the end |
| HeapIndex.HeapIndex.IsFree | src/heap_index.cpp:175-187 | whether a free record equals the given one; for a listed record, whether it is free |
| HeapIndex.HeapIndex.IsLast | src/heap_index.cpp:189-195 | whether a record, listed or not, equals the last one; for a listed record, whether it is the last one |
| HeapIndex.HeapIndex.Clear | src/heap_index.cpp:144-152 | both multimaps emptied and the list kept; valid afterwards exactly when the list was empty, and otherwise no blocks fit list and multimaps |
| HeapIndex.OffsetLowerBound | src/heap_index.cpp:309-312 | the first record at or behind an offset |
| RecordMap.LowerBound | src/heap_index.cpp:288 | the first entry whose key is not below the given one |
| RecordMap.EqualRange | src/heap_index.cpp:243 | exactly the entries with the given key |
| RecordMap.Insert | src/heap_index.cpp:160-166 | one more entry, behind all with a key not above its own and before the others |
| RecordMap.RemoveIfFree | src/heap_index.cpp:32-44 | the record is removed if and only if it is filed, and nothing else is |
| RecordMap.Record.Gap | src/heap_index.cpp:62-69 | the free record between two others, its size cut to 32 bits; null exactly when there is no room between them, where the program throws |
| RecordMap.Record.Coalesce | src/heap_index.cpp:90-96 | lower offset, sum of the sizes in 32 bits, own key |
| RecordMap.Record.SplitOffLeft | src/heap_index.cpp:98-113 | the left bytes in a new record with key 0, the rest in this one |
| RecordMap.Record.Serialize | src/heap_index.cpp:71-76 | sixteen bytes, offset then key then size, in network order, except for the offset on a host that is not configured |
| RecordMap.Record.Deserialized | src/heap_index.cpp:78-83 | the numbers that the sixteen bytes spell, with the same exception |
| Blocks.DeallocatedWellFormed | src/heap_index.cpp:197-265 | freeing keeps the list gap-free, without free neighbours and ending in an allocated block, and all blocks at least 256 bytes, as long as a hole that stays fits in 32 bits |
| Blocks.DeallocatedRemoves | src/heap_index.cpp:240-265 | exactly one block leaves the allocated ones |
| Blocks.DeallocatedGivesUp | src/heap_index.cpp:240-265 | an address is allocated afterwards exactly when it was before and is not in the freed block |
| Blocks.HoleTilesExactlyWhenItFits | src/heap_index.cpp:90-96 | with 32-bit sums the list stays gap-free if and only if the hole is smaller than 2^32 bytes |
| Blocks.HoleThatDoesNotFit | src/heap_index.cpp:90-96 | a well-formed list with a hole of 2^32 bytes or more, which freeing leaves with a gap |
| Blocks.GapTilesExactlyWhenItFits | src/heap_index.cpp:62-69 | with a 32-bit size the free block before an appended one fills the gap if and only if the gap is smaller than 2^32 bytes |
| Blocks.CarvedWellFormed | src/heap_index.cpp:283-318 | allocation keeps the invariant; the block has exactly the size asked for, or that of the free block when less than 256 bytes would be left over |
| Blocks.CarvedAdds | src/heap_index.cpp:283-318 | exactly one block joins the allocated ones |
| Blocks.AllocateDeallocateRestores | src/heap_index.cpp:240-318 | freeing what was just allocated restores every block |
| Blocks.AppendDeallocateRestores | src/heap_index.cpp:155-265 | freeing what was just appended restores every block, gap or not |
| Blocks.AppendedWellFormed | src/heap_index.cpp:155-167 | appending keeps the invariant |
| Blocks.RebuiltFromAllocs | src/heap_index.cpp:155-167 | appending the allocated blocks again restores the list but for a leading free block |
| Blocks.ReadRecordsBack | src/heap_index.cpp:71-83 | stored records are read back as they were |
| Blocks.SpaceIsConserved | include/heap_index.h:116-119 | allocated and free bytes add up to the span of the blocks |
| Blocks.AllocsAscending | include/heap_index.h:116-119 | allocated blocks lie in increasing places that do not overlap |
| Blocks.ShrunkIsLongestFit | src/heap_file.cpp:304-316 | what is left is the longest proper prefix that ends in an allocated block and fits |
| BlobFormat.BlobRoundTrip | src/heap_blob.cpp:70-127 | a written blob is intact and gives back its id and its data |
| BlobFormat.OneByteCorruptionIsRejected | src/heap_blob.cpp:95-127 | one changed byte of checksum or data makes `getData` fail |
| BlobFormat.OneByteChangesChecksum | src/heap_blob.cpp:130-138 | one changed byte, wherever it is, changes the hash |
| BlobFormat.HashInArithmetic | src/heap_blob.cpp:130-138 | the hash starts at 5381; each byte multiplies it by 33 modulo 2^32 and changes the lowest eight bits by exclusive-or |
| BlobFormat.IntactExactly | src/heap_blob.cpp:70-127 | a record is accepted if and only if it starts with the bytes of a written blob |
| BlobFormat.BlobSizeExact | src/heap_blob.cpp:65-68 | the size is 9 and the lengths of id and data together as long as that is below 2^32, and otherwise a multiple of 2^32 less |
| BlobFormat.BlobSizeHasRoomExactly | src/heap_blob.cpp:65-68 | the computed size suffices exactly when the sum is below 2^32 |
| HeapBlob.Blob.HasId | src/heap_blob.cpp:46-63 | whether length byte and id bytes agree; the byte behind the record is needed only where the loop asks for it |
| HeapBlob.AnswerIsInTheRecordExactly | src/heap_blob.cpp:46-63 | the answer depends on the record's bytes alone if and only if the loop does not ask for the byte behind them |
| HeapBlob.Blob.WriteData | src/heap_blob.cpp:70-93 | the encoded blob at the record's place and every other byte as before; aborted, unchanged, exactly when the blob does not fit the record; otherwise refused, unchanged, exactly for ids over 255 bytes |
| HeapBlob.OneByteTooMany | include/heap_blob.h:74-83 | a blob that is too big by one byte aborts the program instead of being refused |
| HeapBlob.Blob.GetData | src/heap_blob.cpp:95-127 | data exactly when the record's bytes are intact, and only they matter |
| HeapBlob.ComputeHash | src/heap_blob.cpp:130-138 | the loop computes the hash |
| MmapFile.MmapFile.GetPtr | src/mmap_file.cpp:185-208 | the address shows exactly the requested bytes, all mapped and in the file, which has grown only as far as needed; a window that has to move starts with the page of the first byte and ends with the page behind the last |
| MmapFile.MmapFile.GetReadPtr | src/mmap_file.cpp:171-183 | nothing exactly at or past the end of the file, otherwise the requested bytes |
| MmapFile.MmapFile.IsInWindow | src/mmap_file.cpp:150-169 | a range is in the window exactly when it is mapped and in the file |
| MmapFile.MmapFile.Trim | src/mmap_file.cpp:142-148 | the file is cut or filled with zeros, and the window is the first page |
| MmapFile.MmapFile.AlignedWindow | src/mmap_file.cpp:192-197 | the new window starts and ends on page boundaries and covers the range |
| SimpleEncrypt.Simple.Encrypt | src/simple_encrypt.cpp:5-17 | the encrypted bytes at the target, also in place, and nothing else changed |
| SimpleEncrypt.CipherInvolution | src/simple_encrypt.cpp:36-50 | decryption undoes encryption |
| SimpleEncrypt.KnownTextShowsTheKey | src/simple_encrypt.cpp:5-17 | cipher and clear text together give the key byte of the place, and the key starts again behind its end |
| SimpleEncrypt.ZerosShowTheKey | src/simple_encrypt.cpp:5-17 | zeros are encrypted to the repeated key |
| SimpleEncrypt.KeyTwiceVanishes | src/simple_encrypt.cpp:5-17 | the key written twice is encrypted to zeros |
| SimpleEncrypt.XorIsBitwise | src/simple_encrypt.cpp:5-17 | each bit of the exclusive-or says whether the bits of the operands differ |
| SimpleEncrypt.EmptyKeyIsClear | include/simple_encrypt.h:13-18 | the empty key leaves everything in clear |
| Views.SeenAt | src/heap_file.cpp:165-203 | an id is seen exactly when its encryption is stored |
| Views.WrongKeySees | include/heap_file.h:19-21 | which ids a wrong key finds, exactly |
| Views.SeenEmptyExactly | include/heap_file.h:19-21 | a table is seen as empty under a key exactly when it is empty |
| ByteOrder.NetworkOrder | include/byte_order.h:93-101 | what is stored is big-endian on either kind of host, for eight-byte numbers on a configured one |
| ByteOrder.HostOrder | include/byte_order.h:75-82 | what is read is the big-endian number on either kind of host, for eight-byte numbers on a configured one |
| ByteOrder.NetworkOrderExactlyWhenConfigured | src/byte_order.cpp:3-13 | every eight-byte number goes out in network order if and only if the macro is defined exactly on little-endian hosts |
| ByteOrder.SameHostRoundTrip | include/byte_order.h:75-101 | a host reads back what it has written itself, configured or not |
| ByteOrder.HtonllReverses | src/byte_order.cpp:3-13 | on a little-endian host with the macro defined all eight bytes are reversed |
| ByteOrder.WriteH2N | include/byte_order.h:93-101 | the number in network order at the pointer, which moves behind it; for eight bytes on a host that is not configured, what `htonll` makes of it |
| ByteOrder.ReadN2H | include/byte_order.h:75-82 | the number stored in network order at the pointer, with the same exception |
| Bytes.BigEndianRoundTrip | include/byte_order.h:75-101 | a number that fits is read back from its bytes |
| Bytes.BigEndianDigit | include/byte_order.h:84-101 | byte by byte, which digit of the number stands where in network order |
| Example.OneBlobOnDisk | src/heap_file.cpp:110-274 | the bytes that a write under the key [1, 2] and the destructor leave of an empty file, one by one |

## Left out

- System calls and their errors: the file is one growable array of bytes, and mapping always succeeds at some address.
- Crashes: header and index reach the disk at closing only, so nothing is claimed about interrupted runs.
- The exception path of the constructor: it requires a file whose index is in order (`Store.Openable`), which
  `HeapFile.ClosingAndOpeningIsAStep` shows every closed file to be.
- Ownership and lifetime in C++: smart pointers, dangling references, `&v[0]` of an empty vector, const casts.
- The insides of `std::list`, `std::multimap` and `std::lower_bound`: the containers are sequences that are replaced as a
  whole, and their searches are binary searches.
- The abstract interfaces `BlobReader` and `BlobWriter`: the only reader and the only writer of the store, which
  decrypt and encrypt, are built in.
- The vector overloads of `encrypt` and `decrypt`, and `Simple` over wider integers than bytes.
- HeapFile.HeapFile.WriteBlob: does not cover calls outside `Store.CanWrite`, where a 32-bit size or a 64-bit offset of
  the program wraps; what a hole of 2^32 bytes or more does to the list is in `Blocks.HoleTilesExactlyWhenItFits`.
- HeapFile.HeapFile.EraseBlob: does not cover an erase that leaves a hole of 2^32 bytes or more inside the list.
- HeapFile.HeapFile.Release: has the same requirement on the hole.
- Store.EraseForgets: has the same requirement on the hole, as `Store.CanErase`.
- Store.ReleasedForgets: has the same requirement on the hole.
- Store.ReleasedAgrees: has the same requirement on the hole.
- Store.WriteRefines: requires `Store.CanWrite`, as the method does.
- Blocks.DeallocatedWellFormed: has the same requirement on the hole, which `Blocks.HoleTilesExactlyWhenItFits` shows to
  be exact.
- HeapFile.HeapFile.constructor: covers neither files whose index is not in order nor hosts that are not configured.
- HeapFile.HeapFile.FindHeapIndex: does not cover files whose index is missing or cut off, where the program throws or
  reads zeros behind the end.
- HeapIndex.HeapIndex.Deallocate: does not say what becomes of a hole of 2^32 bytes or more that stays in the list.
- HeapIndex.HeapIndex.Coalesce: covers listed records only; its one caller passes no other.
- HeapIndex.HeapIndex.AddAllocatedBlock: requires a non-empty block and a gap below 2^32 bytes, because the gap's size is
  cut to 32 bits; every caller in the store meets this.
- Runs.StepKeeps: has `clear` as a step of a run only where there are no blocks; elsewhere it leaves no heap file.
- MmapFile.MmapFile.GetPtr: says nothing about addresses handed out earlier, which a later call may invalidate.
- Secrecy of the cipher and running times.
