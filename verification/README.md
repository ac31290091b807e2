# MiniSQL storage and index core in Dafny

This project models the storage and index layers of MiniSQL, a teaching
relational database engine, together with the record formats its catalog
writes to disk. The modelled parts are:

- **Disk space.**
  - `Bitmap` models one extent's bitmap page. It holds an allocated-page
    counter, a next-free hint and one bit per data page.
  - `Disk` models the DiskManager. The file is a meta page followed by
    extents, and each extent is one bitmap page plus `BITMAP_SIZE` data
    pages. The module covers logical-to-physical page mapping, zero-filled
    reads past the end of the file, and page allocation and release.
- **Buffer pool.**
  - `Replacer` models the LRU replacer. It is a list of evictable frames,
    newest first, and the victim is taken from the back.
  - `BufferPool` models the BufferPoolManager. It has frames, a page table,
    a free list and a replacer, over a disk image.
- **B+ tree.**
  - `LeafPage` and `InternalPage` model the two page kinds. Each page holds
    a sequence of its live entries. `CopyNFrom`, `CopyLastFrom` and
    `CopyFirstFrom` are the appending steps of the `Move...` operations,
    and the properties are stated about the moves.
  - `PageArrays` models the same pages as fixed-capacity arrays with a size
    field. This is the form in which reads past the live size can be seen.
  - `BPlusTree` models the tree algorithms over a map from page id to page:
    point lookup, insert with leaf and internal splits, and remove with
    redistribution, coalescing and root adjustment.
  - `IndexIterator` models the leaf-chain iterator and the tree's
    `Begin`/`End`.
- **Catalog records.**
  - `CatalogMetaCodec` covers the catalog root record.
  - `TableMetaCodec` covers table metadata.
  - `IndexMetaCodec` covers index metadata.
  - `SchemaCodec` covers schema framing.
  - `RowCodec` covers row framing.
  - All of them build on `Bytes`, which has the little-endian u32 and i32
    encodings, and `Codec`, which has readers that take a field from the
    front of a buffer.

Conventions:

- **Bytes and counters.** A byte is an `int` in `[0, 256)`. The source's
  unsigned 32-bit counters wrap explicitly (`Inc32`, `Dec32`). Signed page
  ids are `i32`.
- **Failures.** An `ASSERT` in page code becomes a precondition of the page
  operation. A failure the tree can hit at run time is an error value
  instead. Examples are a missing page, an exhausted page-id space, or the
  assertion `KeyIndex` trips on an absent key.
- **Tree descent.** Descent through parent and child pointers takes a
  `fuel` bound. When the bound is exhausted the result is the error
  `Corrupt`.
- **Buffers.** A deserialiser's buffer is `Option<seq<byte>>`, where `None`
  is a NULL pointer. A read past the end of the bytes given is `Truncated`;
  the source would read whatever memory follows.

Where a function reproduces a defect of the source, it carries the suffix
`AsWritten`. The corrected function keeps the plain name, and the rest of
the model is built on the corrected one (see "## Findings").

## Model

| member | source | states |
|---|---|---|
| Bytes.Inc32 | src/storage/disk_manager.cpp:73-75 | a u32 counter incremented past 2^32 - 1 wraps to 0, otherwise it grows by one |
| Bytes.Dec32 | src/storage/disk_manager.cpp:94-95 | a u32 counter decremented at 0 wraps to 2^32 - 1, otherwise it drops by one |
| Bytes.DecodeEncodeU32 | src/catalog/catalog.cpp:7-18 | MACH_READ_UINT32 gives back every u32 MACH_WRITE_UINT32 stored |
| Bytes.EncodeDecodeU32 | src/catalog/catalog.cpp:38-60 | every four bytes are the encoding of the u32 read from them, so reading loses nothing |
| Bytes.DecodeEncodeI32 | src/catalog/table.cpp:65 | the signed root page id survives its 32-bit encoding, negative ids included |
| Bytes.ReadEncodedU32 | src/catalog/catalog.cpp:38-41 | a u32 written at the front of a buffer is read back whatever follows it |
| Bytes.ReadEncodedI32 | src/catalog/catalog.cpp:51-60 | an i32 written at the front of a buffer is read back whatever follows it |
| Codec.TakeU32 | src/catalog/catalog.cpp:38 | reading a u32 succeeds exactly when four bytes remain, yields their value and leaves the rest |
| Codec.TakeI32 | src/catalog/table.cpp:65 | reading an i32 succeeds exactly when four bytes remain, yields their signed value and leaves the rest |
| Codec.TakeBytes | src/catalog/table.cpp:56-63 | taking n bytes succeeds exactly when n remain and splits the buffer into them and the rest |
| Codec.TakeEncodedU32 | src/catalog/catalog.cpp:7-18 | a u32 written in front of any bytes is taken back and the bytes after it are what remains |
| Codec.TakeEncodedI32 | src/catalog/catalog.cpp:14-16 | an i32 written in front of any bytes is taken back and the bytes after it are what remains |
| Codec.TakeWrittenBytes | src/catalog/table.cpp:56-63 | copying a name into the buffer and reading its length back in bytes returns the name |
| Codec.Ascending | src/catalog/catalog.cpp:10-18 | a std::map's keys in visiting order: each key exactly once, strictly increasing |
| Bitmap.EditBit | src/page/bitmap_page.cpp:51-61 | exactly the addressed bit takes the new value; every other bit, the counter and the hint are unchanged |
| Bitmap.NextFreeFrom | src/page/bitmap_page.cpp:63-79 | the scan from byte i stops at the first clear bit at or after 8*i, or at the capacity when none is clear |
| Bitmap.GetNextFreePage | src/page/bitmap_page.cpp:63-79 | the result is the lowest clear bit of the page, or the capacity when every bit is set |
| Bitmap.ClearBitFrom | src/page/bitmap_page.cpp:71-75 | inside one byte, the first clear bit at or after the start position, or 8 when none |
| Bitmap.FullByte | src/page/bitmap_page.cpp:69 | a byte equal to 0xFF has all eight bits set, and any other byte has a clear bit, so skipping 0xFF bytes skips only full bytes |
| Bitmap.CountAfterEdit | src/page/bitmap_page.cpp:9-13 | flipping one bit moves the number of set bits below n by exactly one when the bit lies below n |
| Bitmap.CountAllSet | src/page/bitmap_page.cpp:5 | the count of set bits below n equals n exactly when every bit below n is set |
| Bitmap.AllocatePage | src/page/bitmap_page.cpp:3-15 | fails exactly when the hint is out of range or already set; otherwise hands out the hint, sets only that bit, counts one more page and moves the hint to the lowest clear bit |
| Bitmap.DeAllocatePage | src/page/bitmap_page.cpp:17-28 | fails exactly when the offset is out of range or already free; otherwise clears only that bit, counts one page fewer and points the hint at the freed page |
| Bitmap.AllocatePreservesValid | src/page/bitmap_page.cpp:3-15 | allocation keeps the counter equal to the number of set bits, and the hint on a clear bit, or at the capacity only when every bit is set |
| Bitmap.DeAllocatePreservesValid | src/page/bitmap_page.cpp:17-28 | release keeps the counter equal to the number of set bits, and the hint on a clear bit, or at the capacity only when every bit is set |
| Bitmap.AllocateSucceedsWhenNotFull | src/page/bitmap_page.cpp:5-7 | on a consistent page whose counter is below capacity, allocation never fails |
| Bitmap.DeAllocateThenAllocate | src/page/bitmap_page.cpp:17-28 | the page just released is the next one handed out |
| Bitmap.AllocateThenNotFree | src/page/bitmap_page.cpp:30-36 | the page handed out was free before and is no longer free after |
| Bitmap.DeAllocateThenFree | src/page/bitmap_page.cpp:30-36 | a released page was allocated before and is free after |
| Bitmap.DecodeEncode | src/storage/disk_manager.cpp:69-71 | a bitmap page written to its physical page reads back as the same bitmap |
| Bitmap.DecodeZeros | src/storage/disk_manager.cpp:48-49 | an all-zero page is a consistent bitmap with nothing allocated and the hint at 0 |
| Disk.Empty | src/storage/disk_manager.cpp:8-24 | a fresh file's meta page records no page used in any extent |
| Disk.ExtentOffsetAreDivMod | src/storage/disk_manager.cpp:87-88 | the extent and offset the model computes are logical id / BITMAP_SIZE and logical id % BITMAP_SIZE |
| Disk.MapPageIdStrictlyIncreasing | src/storage/disk_manager.cpp:113-115 | distinct logical pages map to distinct physical pages, in the same order |
| Disk.MapPageIdAvoidsMetadata | src/storage/disk_manager.cpp:113-115 | no logical page maps onto the meta page or onto any extent's bitmap page |
| Disk.BitmapPhysIdInjective | src/storage/disk_manager.cpp:64 | each extent's bitmap lives on its own physical page |
| Disk.ReadPhysicalPage | src/storage/disk_manager.cpp:123-144 | every read returns exactly one page of bytes |
| Disk.ReadPhysicalPageZeroFill | src/storage/disk_manager.cpp:126-142 | a page never written reads as zeros, and a short page is padded with zeros after its stored bytes |
| Disk.ReadAfterWrite | src/storage/disk_manager.cpp:146-158 | a written physical page reads back as the data written and other physical pages are unchanged |
| Disk.ReadPage | src/storage/disk_manager.cpp:34-37 | a logical page read through its physical page always yields one full page of bytes |
| Disk.WritePage | src/storage/disk_manager.cpp:39-42 | writing a data page never touches the meta page counters |
| Disk.ReadPageAfterWritePage | src/storage/disk_manager.cpp:34-42 | a written logical page reads back as the data written and every other logical page reads as before |
| Disk.IsPageFreeInExtent | src/storage/disk_manager.cpp:100-111 | a logical page is free exactly when its bit in its extent's bitmap is clear |
| Disk.FirstNonFull | src/storage/disk_manager.cpp:57-62 | the extent scan stops at the first extent not full, every earlier one being full |
| Disk.AllocateInExtent | src/storage/disk_manager.cpp:64-71 | the offset handed out lies inside the extent, and no physical page but that extent's bitmap page changes |
| Disk.AllocatePage | src/storage/disk_manager.cpp:44-78 | a full disk answers INVALID_PAGE_ID and changes nothing; otherwise the page lies in the first non-full extent, that extent's count and the total count go up by one (wrapping as u32), and the extent count grows when a new extent is opened |
| Disk.EmptyValid | src/storage/disk_manager.cpp:8-24 | a fresh file satisfies the disk invariant: the counters agree with each other and with every bitmap |
| Disk.NonFullExtentExists | src/storage/disk_manager.cpp:52-62 | when fewer than MAX_VALID_PAGE_ID pages are allocated the scan finds an extent that is not full |
| Disk.AllocateOnValidDisk | src/storage/disk_manager.cpp:44-78 | on a consistent disk below the limit, allocation succeeds with a page that was free and is now allocated, and the total goes up by one |
| Disk.AllocatePreservesValid | src/storage/disk_manager.cpp:44-78 | allocation keeps the meta page and every bitmap in agreement |
| Disk.AllocateKeepsOtherBitmaps | src/storage/disk_manager.cpp:64-71 | allocation writes only the chosen extent's bitmap |
| Disk.AllocateKeepsDataPages | src/storage/disk_manager.cpp:44-78 | allocation leaves every data page's contents unchanged |
| Disk.AllocateTakesBitmapChoice | src/storage/disk_manager.cpp:69-77 | the logical id returned is the extent base plus the offset the extent's bitmap handed out |
| Disk.DeAllocatePage | src/storage/disk_manager.cpp:80-98 | releasing a free page is refused; otherwise the extent's count and the total go down by one and the number of extents is kept |
| Disk.DeAllocateKeepsOtherPages | src/storage/disk_manager.cpp:89-92 | release writes only the page's own extent bitmap and no data page |
| Disk.DeAllocateClearsBit | src/storage/disk_manager.cpp:90-92 | release clears exactly the page's bit, so the page reads as free and the bitmap's own counter drops by one |
| Disk.DeAllocateOnValidDisk | src/storage/disk_manager.cpp:80-98 | on a consistent disk, releasing an allocated page frees it, lowers the total by one, keeps the invariant and keeps all data |
| Disk.AllocateAfterDeAllocate | src/storage/disk_manager.cpp:44-98 | when every earlier extent is full, the page just released is the next one allocated |
| Disk.ReallocateFreedPage | src/storage/disk_manager.cpp:44-98 | the same reuse, needing only that the page's extent bitmap is consistent |
| Disk.FreedExtentNotFull | src/storage/disk_manager.cpp:94 | after a release the page's extent is no longer counted full |
| Disk.FreeOfFreePageIsRefused | src/storage/disk_manager.cpp:91 | releasing page 0 of an empty disk is refused |
| Disk.DeAllocatePageAsWritten | src/storage/disk_manager.cpp:80-98 | the released page's extent count and the total are decremented without checking the bitmap, and an extent count that reaches 0 shrinks the number of extents |
| Disk.DoubleFreeReportsFull | src/storage/disk_manager.cpp:91-95 | releasing a never-allocated page wraps the total to 2^32 - 1, after which every allocation answers INVALID_PAGE_ID |
| Disk.AsWrittenShrinksLiveExtents | src/storage/disk_manager.cpp:96 | emptying an extent that is not the last lowers the number of extents while the last extent still holds pages, breaking the meta invariant |
| Disk.AllocateReissuesLivePage | src/storage/disk_manager.cpp:66-68 | an extent counted as not yet opened has its bitmap zeroed, so a page still allocated in it is handed out again |
| Replacer.Init | src/buffer/lru_replacer.cpp:3 | a new replacer tracks no frame |
| Replacer.Victim | src/buffer/lru_replacer.cpp:7-14 | fails exactly when nothing is tracked; otherwise returns the least recently unpinned frame and stops tracking it |
| Replacer.Pin | src/buffer/lru_replacer.cpp:16-22 | an untracked frame changes nothing; a tracked one is removed and nothing else moves |
| Replacer.PinPreservesValid | src/buffer/lru_replacer.cpp:16-22 | after Pin the frame is untracked, every other frame keeps its status, and the size drops by one exactly when the frame was tracked |
| Replacer.SizeCountsDistinctFrames | src/buffer/lru_replacer.cpp:34 | the size is the number of distinct frames tracked |
| Replacer.Unpin | src/buffer/lru_replacer.cpp:24-32 | exits exactly when the list is at capacity, even for a frame already tracked; otherwise a tracked frame keeps its place and a new one becomes the most recent |
| Replacer.DrainIsReverse | src/buffer/lru_replacer.cpp:7-14 | repeated Victim calls return the frames oldest first |
| Replacer.UnpinEvictedLast | src/buffer/lru_replacer.cpp:24-32 | a newly unpinned frame is evicted after every frame already tracked |
| Replacer.UnpinTrackedWhenFullExits | src/buffer/lru_replacer.cpp:26-28 | a full replacer exits on a frame it already tracks |
| Replacer.UnpinChecked | src/buffer/lru_replacer.cpp:24-32 | fails exactly when the frame is new and the list is full; otherwise the frame is tracked, a new one as the most recent |
| Replacer.UnpinCheckedExtendsUnpin | src/buffer/lru_replacer.cpp:24-32 | the checked Unpin agrees with the source wherever the source does not exit |
| Replacer.UnpinCheckedSucceeds | src/buffer/lru_replacer.cpp:3 | with capacity equal to the pool size and only pool frames tracked, the checked Unpin never fails |
| BufferPool.ReadAfterWrite | src/buffer/buffer_pool_manager.cpp:43 | after the pool writes a page back, that page reads as the data written and every other page reads as before |
| BufferPool.WritePage | src/storage/disk_manager.cpp:39-42 | the written page holds the data, other pages and the allocation state are unchanged |
| BufferPool.AllocatePage | src/buffer/buffer_pool_manager.cpp:124-127 | INVALID_PAGE_ID leaves the disk as it was; any other id was free, is below the limit and is now in use |
| BufferPool.DeAllocatePage | src/buffer/buffer_pool_manager.cpp:129-131 | only the given page stops being in use, and contents are kept |
| BufferPool.Init | src/buffer/buffer_pool_manager.cpp:6-14 | a new pool satisfies the invariant, has every frame on the free list in order, an empty page table and an empty replacer |
| BufferPool.ChooseFrame | src/buffer/buffer_pool_manager.cpp:36-41 | none exactly when the free list and the replacer are empty; otherwise the free list's head first, else the replacer's victim |
| BufferPool.ChooseFrameUnpinned | src/buffer/buffer_pool_manager.cpp:36-41 | a chosen frame is unpinned and left on neither list; a free-list frame is clean and unmapped, a victim still maps its page |
| BufferPool.Detach | src/buffer/buffer_pool_manager.cpp:42-46 | a dirty frame is written to its own page and no other page's contents change; its page leaves the page table, every other mapping is kept and none is added |
| BufferPool.DetachAsWritten | src/buffer/buffer_pool_manager.cpp:42-46 | a dirty frame is written to the page numbered by the write-back target given, and the frame's page leaves the page table |
| BufferPool.TableInsert | src/buffer/buffer_pool_manager.cpp:48 | std::unordered_map::insert adds a missing key and leaves a present key's mapping alone |
| BufferPool.Install | src/buffer/buffer_pool_manager.cpp:48-54 | the frame takes the new page's metadata and data, and the page is mapped (to this frame when it was unmapped); no other frame or mapping changes |
| BufferPool.ChooseDetachPreservesInv | src/buffer/buffer_pool_manager.cpp:36-46 | choosing and detaching a frame keeps the invariant and leaves the frame free to reuse |
| BufferPool.InstallPreservesInv | src/buffer/buffer_pool_manager.cpp:48-54 | installing a clean page into a detached frame keeps the invariant |
| BufferPool.ChooseFrameAsWritten | src/buffer/buffer_pool_manager.cpp:36-41 | with no free frame and an empty replacer, frame 0 is taken; otherwise the same frame as the checked choice |
| BufferPool.FetchPageAsWritten | src/buffer/buffer_pool_manager.cpp:24-56 | a resident page's frame is returned with pin count 1; a missing page is mapped to the chosen frame with pin count 0 |
| BufferPool.FetchPage | src/buffer/buffer_pool_manager.cpp:24-56 | a resident page is pinned with no disk access; nullptr exactly when the page is missing and no frame is free or evictable; a missing page lands in a pinned, clean, unevictable frame holding its disk contents, after a dirty victim is written to its own page; every other frame, every mapping to another frame, the allocation state and every other page's contents are unchanged |
| BufferPool.FetchKeepsPinnedPages | src/buffer/buffer_pool_manager.cpp:24-56 | fetching a page never moves or alters another page that is pinned |
| BufferPool.FetchHitPreservesInv | src/buffer/buffer_pool_manager.cpp:28-33 | a hit keeps the invariant |
| BufferPool.FetchMissPreservesInv | src/buffer/buffer_pool_manager.cpp:34-55 | a miss keeps the invariant |
| BufferPool.FetchPagePreservesInv | src/buffer/buffer_pool_manager.cpp:24-56 | FetchPage keeps the pool invariant: the page table and the frames agree, free frames are unused, evictable frames are unpinned |
| BufferPool.NewPageAsWritten | src/buffer/buffer_pool_manager.cpp:58-89 | nullptr exactly when no frame is free or evictable; otherwise the disk's next id in a zeroed frame pinned once |
| BufferPool.NewPage | src/buffer/buffer_pool_manager.cpp:58-89 | nullptr, with nothing changed, exactly when every frame is pinned or no page id is free; otherwise a page id that was free and is now the only new one in use, held in a zeroed, clean frame pinned once, mapped, and on neither the free list nor the replacer; every other frame and every mapping to another frame are unchanged |
| BufferPool.NewPageOnFullDiskMapsInvalid | src/buffer/buffer_pool_manager.cpp:67-85 | on a full disk the source still hands out a frame, mapped under INVALID_PAGE_ID and pinned |
| BufferPool.NewPagePreservesInv | src/buffer/buffer_pool_manager.cpp:58-89 | NewPage keeps the pool invariant |
| BufferPool.DeletePageAsWritten | src/buffer/buffer_pool_manager.cpp:91-109 | false exactly when the page is resident and pinned, yet the disk page is released in every case |
| BufferPool.DeletePage | src/buffer/buffer_pool_manager.cpp:91-109 | false exactly when the page is resident and pinned, and then nothing changes; otherwise the page is unmapped and released, and its frame is reset and moved to the free list, out of the replacer; no other frame, mapping, page allocation or page contents change |
| BufferPool.DeletePagePreservesInv | src/buffer/buffer_pool_manager.cpp:91-109 | DeletePage keeps the pool invariant |
| BufferPool.UnpinPageAsWritten | src/buffer/buffer_pool_manager.cpp:111-116 | exits exactly when the replacer is full; otherwise the frame's pin count is 0, its dirty flag absorbs the argument, and it is evictable |
| BufferPool.UnpinPage | src/buffer/buffer_pool_manager.cpp:111-116 | only the page's frame changes: pin count 0, dirty flag or-ed with the argument, evictable; the invariant is kept |
| BufferPool.FlushPage | src/buffer/buffer_pool_manager.cpp:117-122 | a dirty resident page is written to its own disk page and every other page reads as before; a clean one changes nothing |
| BufferPool.FlushPagePreservesInv | src/buffer/buffer_pool_manager.cpp:117-122 | FlushPage keeps the pool invariant |
| BufferPool.CheckAllUnpinned | src/buffer/buffer_pool_manager.cpp:138-147 | true exactly when every frame's pin count is 0 |
| BufferPool.FetchHitLeavesFrameEvictable | src/buffer/buffer_pool_manager.cpp:29 | pinning by page id instead of frame id leaves a fetched frame in the replacer while pinned |
| BufferPool.FetchWithoutVictimTakesPinnedFrame | src/buffer/buffer_pool_manager.cpp:36-41 | with no free frame and nothing evictable, the source takes pinned frame 0 and unmaps its page, where nullptr is due |
| BufferPool.WriteBackGoesToFrameId | src/buffer/buffer_pool_manager.cpp:43 | a dirty victim's data lands on the page numbered by its frame id, and its own page keeps the stale contents |
| BufferPool.FetchedPageCanBeDeleted | src/buffer/buffer_pool_manager.cpp:52 | a page just fetched has pin count 0, so DeletePage removes it from under its user |
| BufferPool.FetchedPageIsProtected | src/buffer/buffer_pool_manager.cpp:24-109 | with the corrected FetchPage, a page just fetched cannot be deleted |
| BufferPool.RefusedDeleteFreesDiskPage | src/buffer/buffer_pool_manager.cpp:93-103 | a pinned page that DeletePage refuses has already lost its disk allocation |
| BufferPool.DeletedFrameStaysEvictable | src/buffer/buffer_pool_manager.cpp:105-107 | a deleted page's frame goes on the free list while still in the replacer, so one frame can be handed out twice |
| LeafPage.Init | src/page/b_plus_tree_leaf_page.cpp:20-28 | a new leaf is empty, has no next leaf, and records its id, parent and maximum size |
| LeafPage.LowerBound | src/page/b_plus_tree_leaf_page.cpp:89-102 | the first position whose key is not below the key: every earlier key is smaller |
| LeafPage.LowerBoundUnique | src/page/b_plus_tree_leaf_page.cpp:89-102 | any position splitting the keys into smaller and not-smaller is the lower bound |
| LeafPage.MyLowerBound | src/page/b_plus_tree_leaf_page.cpp:89-102 | the binary search over sorted keys returns the lower bound |
| LeafPage.IndexOfKey | src/page/b_plus_tree_leaf_page.cpp:46-64 | the unique position holding a present key |
| LeafPage.KeyIndex | src/page/b_plus_tree_leaf_page.cpp:46-64 | the binary search returns the position of a present key |
| LeafPage.Lookup | src/page/b_plus_tree_leaf_page.cpp:171-182 | over sorted keys, finds a value exactly when the key is present, and the value is the one stored with it |
| LeafPage.Insert | src/page/b_plus_tree_leaf_page.cpp:112-128 | the entry goes in at the key's lower bound, keys stay sorted, and the size returned is one more |
| LeafPage.InsertAddsEntry | src/page/b_plus_tree_leaf_page.cpp:112-128 | after Insert the leaf holds exactly its old entries and the new one, and Lookup finds the new value |
| LeafPage.RemoveAt | src/page/b_plus_tree_leaf_page.cpp:194-209 | removing a position shifts every later entry down by one and keeps every earlier one |
| LeafPage.RemoveAndDeleteRecord | src/page/b_plus_tree_leaf_page.cpp:194-209 | an absent key leaves the leaf unchanged; a present key's entry is removed and the size returned is the new size |
| LeafPage.RemoveTakesKey | src/page/b_plus_tree_leaf_page.cpp:194-209 | after removal the keys stay sorted, the key is gone, and exactly the other entries remain |
| LeafPage.MoveHalfTo | src/page/b_plus_tree_leaf_page.cpp:137-143 | the page keeps its first minSize entries, the recipient gains the rest in order, and no entry is lost or duplicated |
| LeafPage.MoveAllTo | src/page/b_plus_tree_leaf_page.cpp:219-225 | the page empties into the end of the recipient, which inherits its next-leaf link |
| LeafPage.MoveFirstToEndOf | src/page/b_plus_tree_leaf_page.cpp:235-243 | one entry moves from the page's front to the recipient's end; the two pages read left to right are unchanged |
| LeafPage.MoveLastToFrontOf | src/page/b_plus_tree_leaf_page.cpp:260-264 | one entry moves from the page's end to the recipient's front; the two pages read left to right are unchanged |
| LeafPage.MoveHalfToKeepsOrder | src/page/b_plus_tree_leaf_page.cpp:137-143 | splitting a sorted leaf leaves both halves sorted, every key kept below every key moved, and the two halves together are the old entries |
| LeafPage.MoveAllToMerges | src/page/b_plus_tree_leaf_page.cpp:219-225 | merging a leaf into its left sibling gives a sorted page holding exactly the entries of both |
| LeafPage.MoveFirstToEndOfKeepsOrder | src/page/b_plus_tree_leaf_page.cpp:235-243 | lending the first entry to the left sibling keeps both pages sorted and the left one below the right one |
| LeafPage.MoveLastToFrontOfKeepsOrder | src/page/b_plus_tree_leaf_page.cpp:260-264 | lending the last entry to the right sibling keeps both pages sorted and the left one below the right one |
| LeafPage.SortedConcat | src/page/b_plus_tree_leaf_page.cpp:219-225 | two sorted runs, all of the first below all of the second, are sorted together |
| LeafPage.SortedSplit | src/page/b_plus_tree_leaf_page.cpp:137-143 | both halves of a sorted run are sorted and every key of the first is below every key of the second |
| InternalPage.Init | src/page/b_plus_tree_internal_page.cpp:14-21 | a new internal page is empty and records its id, parent and maximum size |
| InternalPage.Children | src/page/b_plus_tree_internal_page.cpp:54-58 | ValueAt(i) for every slot, in slot order |
| InternalPage.ChildrenConcat | src/page/b_plus_tree_internal_page.cpp:247-253 | the children of two runs of slots are the children of each, in order |
| InternalPage.ValueIndex | src/page/b_plus_tree_internal_page.cpp:41-47 | the first slot holding the child, or 0 when no slot holds it |
| InternalPage.Route | src/page/b_plus_tree_internal_page.cpp:69-97 | the slot to descend into: every key from slot 1 up to it is at most the search key, and the next slot's key is above it |
| InternalPage.ScanFrom | src/page/b_plus_tree_internal_page.cpp:87-93 | the forward scan stops at the last slot whose key is at most the search key: every key up to it is at most the key, the next one above it |
| InternalPage.RouteBrackets | src/page/b_plus_tree_internal_page.cpp:79-97 | with sorted separators, slot 0 is chosen exactly when the key is below slot 1's key, and every later separator is above the key |
| InternalPage.MyLowerBound | src/page/b_plus_tree_internal_page.cpp:79-97 | on a page with other than one slot, the loop returns the routing slot |
| InternalPage.Lookup | src/page/b_plus_tree_internal_page.cpp:69-76 | the child returned is one of the page's children, the one in the routing slot |
| InternalPage.PopulateNewRoot | src/page/b_plus_tree_internal_page.cpp:109-117 | a new root holds exactly the old child and the new child with their keys |
| InternalPage.InsertNodeAfter | src/page/b_plus_tree_internal_page.cpp:125-137 | the new slot goes right after the old child's slot and the size returned is one more |
| InternalPage.InsertNodeAfterPlacesChild | src/page/b_plus_tree_internal_page.cpp:125-137 | the old child keeps its slot and the new child sits in the next one |
| InternalPage.InsertNodeAfterKeepsChildren | src/page/b_plus_tree_internal_page.cpp:125-137 | the children become the old ones with the new child inserted after the old child |
| InternalPage.SetKeyAt | src/page/b_plus_tree_internal_page.cpp:34 | only the one slot's key changes and every child stays |
| InternalPage.EditNode | src/page/b_plus_tree_internal_page.cpp:140-145 | the slot of the named child takes the key, or slot 0 when no slot holds it; every other key and every child stays |
| InternalPage.Remove | src/page/b_plus_tree_internal_page.cpp:207-216 | one slot is removed and the others close up in order |
| InternalPage.RemoveDropsChild | src/page/b_plus_tree_internal_page.cpp:207-216 | removal drops exactly that slot's child from the child list |
| InternalPage.RemoveAndReturnOnlyChild | src/page/b_plus_tree_internal_page.cpp:223-232 | returns the first child and shrinks the page by one; a one-child page becomes empty |
| InternalPage.MoveHalfTo | src/page/b_plus_tree_internal_page.cpp:154-173 | the page keeps its first minSize slots and the recipient gains the rest, in order |
| InternalPage.MoveAllTo | src/page/b_plus_tree_internal_page.cpp:247-253 | the page empties into the end of the recipient |
| InternalPage.MoveFirstToEndOf | src/page/b_plus_tree_internal_page.cpp:269-277 | the first slot moves to the recipient's end; the two pages read left to right are unchanged |
| InternalPage.MoveLastToFrontOf | src/page/b_plus_tree_internal_page.cpp:303-308 | the last slot moves to the recipient's front; the two pages read left to right are unchanged |
| InternalPage.MoveHalfToKeepsChildren | src/page/b_plus_tree_internal_page.cpp:154-173 | splitting an internal page into an empty recipient loses and duplicates no child: the two pages' children in order are the old ones |
| InternalPage.MoveAllToKeepsChildren | src/page/b_plus_tree_internal_page.cpp:247-253 | after a merge the emptied page has no child and the recipient's children are its own followed by the merged page's |
| PageArrays.ShiftDown | src/page/b_plus_tree_leaf_page.cpp:200-205 | slots start..end take the value of the slot after them and every other slot stays |
| PageArrays.LeafLookupAsWritten | src/page/b_plus_tree_leaf_page.cpp:171-182 | an answer comes from a live slot or from the slot just past the live ones; it agrees with the live lookup unless that stale slot holds the key |
| PageArrays.LeafLookup | src/page/b_plus_tree_leaf_page.cpp:171-182 | the lookup restricted to the live slots finds the key exactly when a live slot holds it |
| PageArrays.KeySearch | src/page/b_plus_tree_leaf_page.cpp:46-64 | a hit of the binary search names a slot inside the range that holds the key |
| PageArrays.KeyIndexAsWritten | src/page/b_plus_tree_leaf_page.cpp:46-64 | a hit names a slot at most size, one past the live ones, holding the key |
| PageArrays.KeySearchFindsLiveKey | src/page/b_plus_tree_leaf_page.cpp:46-64 | over sorted live slots, the search finds the live slot holding the key |
| PageArrays.KeyIndexFindsLiveKey | src/page/b_plus_tree_leaf_page.cpp:46-64 | for a key in the live slots, the source's KeyIndex agrees with the live position |
| PageArrays.LeafRemoveAsWritten | src/page/b_plus_tree_leaf_page.cpp:194-209 | a key the lookup misses leaves the page as it was, and the array keeps its capacity |
| PageArrays.LeafRemoveAgreesWhenSlotIsClean | src/page/b_plus_tree_leaf_page.cpp:194-209 | when the slot past the live ones does not hold the key, the source's removal equals the corrected one |
| PageArrays.TwoKeyLeaf | src/page/b_plus_tree_leaf_page.cpp:112-128 | a leaf array holding live entries 1→10 and 2→20 |
| PageArrays.StaleSlotAnswersAfterRemove | src/page/b_plus_tree_leaf_page.cpp:174 | after removing key 2, the source's lookup still returns 20, and removing 2 again drops the live entry for key 1 |
| PageArrays.ScanLive | src/page/b_plus_tree_internal_page.cpp:87-93 | the routing loop's scan from slot i stays within the live slots |
| PageArrays.ScanLiveIsScanFrom | src/page/b_plus_tree_internal_page.cpp:87-93 | over two or more live slots, the array scan equals the scan over the live slots |
| PageArrays.InternalLowerBoundAsWritten | src/page/b_plus_tree_internal_page.cpp:79-97 | on a one-slot page the result depends on the stale slot 1's key |
| PageArrays.InternalLowerBoundIsRoute | src/page/b_plus_tree_internal_page.cpp:79-97 | on a page with other than one live slot, the source's routing equals the corrected one |
| PageArrays.InternalLookupAsWritten | src/page/b_plus_tree_internal_page.cpp:69-76 | with two or more live slots the child returned is the corrected lookup's |
| PageArrays.OneSlotPageRoutesToStaleChild | src/page/b_plus_tree_internal_page.cpp:84 | a one-slot page with a stale slot 1 sends key 6 to the removed child 9 instead of its only child 7 |
| PageArrays.InternalRemove | src/page/b_plus_tree_internal_page.cpp:207-216 | reading slot size while shifting does not matter: the live slots lose exactly the removed one |
| BPlusTree.WithParent | src/index/b_plus_tree.cpp:226-227 | SetParentPageId changes only the parent of a page; a leaf keeps its entries |
| BPlusTree.OnlyParentsChangeKeepsLeaves | src/index/b_plus_tree.cpp:314-333 | re-parenting pages never changes what any leaf holds |
| BPlusTree.GetNode | src/index/b_plus_tree.cpp:88 | fetching a page succeeds exactly when the page exists and yields it |
| BPlusTree.GetLeaf | src/index/b_plus_tree.cpp:88-100 | succeeds exactly when the page exists and is a leaf |
| BPlusTree.GetInternal | src/index/b_plus_tree.cpp:88-100 | succeeds exactly when the page exists and is internal |
| BPlusTree.Allocate | src/index/b_plus_tree.cpp:264 | fails exactly when page ids are exhausted; otherwise returns a valid id not yet used and advances the counter |
| BPlusTree.SetParent | src/index/b_plus_tree.cpp:226-227 | succeeds exactly when the page exists; only its parent changes and every other page is kept |
| BPlusTree.Adopt | src/page/b_plus_tree_internal_page.cpp:189-191 | succeeds exactly when every child exists; each then names the new parent and every other page is kept |
| BPlusTree.NewTree | src/index/b_plus_tree.cpp:18-27 | a new tree is empty, stores no page, and has only unused ids ahead |
| BPlusTree.FindLeafFrom | src/index/b_plus_tree.cpp:678-695 | a descent that succeeds ends at a leaf page of the tree |
| BPlusTree.FindLeaf | src/index/b_plus_tree.cpp:678-695 | a root-to-leaf descent that succeeds ends at a leaf page of the tree |
| BPlusTree.GetValue | src/index/b_plus_tree.cpp:84-111 | an empty tree answers no value; a value found is held by some leaf under the key |
| BPlusTree.Insert | src/index/b_plus_tree.cpp:124-141 | insertion keeps every stored id below the allocation counter and the configuration unchanged |
| BPlusTree.StartNewTree | src/index/b_plus_tree.cpp:149-158 | the root becomes one new leaf holding exactly the entry |
| BPlusTree.InsertIntoLeaf | src/index/b_plus_tree.cpp:169-250 | a refused insert leaves the tree exactly as it was |
| BPlusTree.AddToLeaf | src/index/b_plus_tree.cpp:192-235 | adding to a leaf and splitting when it overflows keeps ids fresh and the configuration unchanged |
| BPlusTree.PutInLeaf | src/index/b_plus_tree.cpp:188-213 | writing the entry and rewriting the separators changes only pages |
| BPlusTree.Propagate | src/index/b_plus_tree.cpp:200-213 | rewriting separators up the tree keeps every page, every leaf, and every internal page internal |
| BPlusTree.SplitLeaf | src/index/b_plus_tree.cpp:261-287 | a leaf splits into itself with its first min-size entries and a new leaf with the rest; the new leaf is linked after it and inherits its next link and parent |
| BPlusTree.NewRoot | src/index/b_plus_tree.cpp:216-232 | a new internal root holds the two halves' ids with their keys and becomes both halves' parent; no leaf changes |
| BPlusTree.SplitIfOverfull | src/index/b_plus_tree.cpp:216-235 | a leaf within its maximum size leaves the tree unchanged; an overfull leaf keeps its first min-size entries and a new page takes the rest, fewer than the maximum; a split root leaf gets a new root over the two halves, keyed by their first keys |
| BPlusTree.SplitInternalPages | src/index/b_plus_tree.cpp:280-283 | an internal page keeps its first min-size slots and a new internal page takes the rest |
| BPlusTree.SplitInternal | src/index/b_plus_tree.cpp:280-283 | the internal split also re-parents every moved child to the new page and changes no leaf |
| BPlusTree.InsertIntoParent | src/index/b_plus_tree.cpp:299-336 | a page is allocated exactly when the parent's size + 1 would exceed its maximum; without a split only the parent changes, gaining the new child after the old one; a new root, if any, is a freshly allocated internal page with two children and no parent; no leaf's entries change |
| BPlusTree.SplitParent | src/index/b_plus_tree.cpp:313-334 | an overflowing parent split always allocates at least one page; the leaves are untouched; a changed root is a freshly allocated internal page with two children and no parent |
| BPlusTree.FirstKeyOr | src/index/b_plus_tree.cpp:364-380 | the leaf's first key when it has one, else the key it had before |
| BPlusTree.Remove | src/index/b_plus_tree.cpp:349-404 | removal allocates nothing and never adds a page |
| BPlusTree.TakeFromLeaf | src/index/b_plus_tree.cpp:359-382 | taking the entry out of its leaf keeps every page and the leaf stays a leaf |
| BPlusTree.RemoveChecked | src/index/b_plus_tree.cpp:343-349 | removal on the checked path allocates nothing, and leaves the tree unchanged for a key GetValue does not find |
| BPlusTree.RebalanceLeaf | src/index/b_plus_tree.cpp:385-397 | rebalancing after removal only drops pages |
| BPlusTree.CoalesceOrRedistribute | src/index/b_plus_tree.cpp:415-442 | the sibling is the next child, or the previous one for the last child; it lends (no page is deleted, and an underfull leaf gains one entry) exactly when its size - 1 is at least its minimum; otherwise the right-hand page of the two is deleted; nothing is allocated |
| BPlusTree.Redistribute | src/index/b_plus_tree.cpp:552-589 | borrowing from a sibling keeps every page |
| BPlusTree.RedistributeLeaves | src/index/b_plus_tree.cpp:566-572 | the underfull leaf gains one entry from its sibling, the two leaves read left to right are unchanged, and no other leaf changes |
| BPlusTree.RedistributeInternals | src/index/b_plus_tree.cpp:575-583 | borrowing between internal pages keeps every page and changes no leaf |
| BPlusTree.Coalesce | src/index/b_plus_tree.cpp:460-539 | merging with a sibling deletes the page that does not survive, adds none and allocates nothing |
| BPlusTree.Survivor | src/index/b_plus_tree.cpp:460-539 | of the two siblings one is kept and the other deleted |
| BPlusTree.SurvivorIsLeftOfPair | src/index/b_plus_tree.cpp:425-442 | the page kept by a merge is the left-hand one of the pair in the parent and the deleted one the right-hand one |
| BPlusTree.Merge | src/index/b_plus_tree.cpp:460-539 | exactly the deleted sibling leaves the store and the parent stays internal |
| BPlusTree.MergeLeaves | src/index/b_plus_tree.cpp:471-500 | the kept leaf holds its entries followed by the deleted leaf's; no other leaf changes |
| BPlusTree.MergeInternals | src/index/b_plus_tree.cpp:502-536 | exactly the deleted page leaves the store and no leaf changes |
| BPlusTree.AdjustRoot | src/index/b_plus_tree.cpp:602-618 | adjusting the root only drops pages |
| BPlusTree.SameLeavesHoldSame | src/index/b_plus_tree.cpp:314-333 | when every leaf is unchanged the tree holds the same entries |
| BPlusTree.MovedBetweenTwo | src/index/b_plus_tree.cpp:552-589 | entries moved between two leaves, with the others untouched, leave the tree holding the same entries |
| BPlusTree.SplitLeafKeepsEntries | src/index/b_plus_tree.cpp:261-287 | a leaf split keeps exactly the tree's entries |
| BPlusTree.SplitIfOverfullKeepsEntries | src/index/b_plus_tree.cpp:216-235 | the split that follows an insertion keeps exactly the tree's entries |
| BPlusTree.StartNewTreeAddsEntry | src/index/b_plus_tree.cpp:149-158 | the new tree holds its old entries plus exactly the inserted one |
| BPlusTree.LeafWriteAddsEntry | src/index/b_plus_tree.cpp:192 | rewriting one leaf to its old entries plus one makes the tree hold exactly one more entry |
| BPlusTree.PutInLeafAddsEntry | src/index/b_plus_tree.cpp:188-213 | writing into the leaf adds exactly the new entry to the tree |
| BPlusTree.AddToLeafAddsEntry | src/index/b_plus_tree.cpp:188-235 | writing into the leaf and splitting adds exactly the new entry to the tree |
| BPlusTree.InsertIntoLeafAddsEntry | src/index/b_plus_tree.cpp:169-250 | a refused insert changes nothing; an accepted one adds exactly the new entry |
| BPlusTree.InsertAddsEntry | src/index/b_plus_tree.cpp:124-141 | Insert on an empty or non-empty tree either changes nothing or adds exactly the new entry |
| BPlusTree.InsertRefusesPresentKey | src/index/b_plus_tree.cpp:124-141 | Insert reports a duplicate exactly when GetValue finds the key |
| BPlusTree.StartNewTreeThenGetValue | src/index/b_plus_tree.cpp:124-158 | inserting into an empty tree succeeds and GetValue then finds the value |
| BPlusTree.RedistributeKeepsEntries | src/index/b_plus_tree.cpp:552-589 | borrowing keeps exactly the tree's entries |
| BPlusTree.MergeKeepsEntries | src/index/b_plus_tree.cpp:460-539 | merging two siblings keeps exactly the tree's entries |
| BPlusTree.AdjustRootKeepsEntries | src/index/b_plus_tree.cpp:602-618 | adjusting the root keeps exactly the tree's entries |
| BPlusTree.CoalesceOrRedistributeKeepsEntries | src/index/b_plus_tree.cpp:415-442 | rebalancing, including the recursion up the tree, keeps exactly the tree's entries |
| BPlusTree.CoalesceKeepsEntries | src/index/b_plus_tree.cpp:460-539 | coalescing, including the parent's rebalancing, keeps exactly the tree's entries |
| BPlusTree.RebalanceLeafKeepsEntries | src/index/b_plus_tree.cpp:385-397 | the rebalancing after a removal keeps exactly the tree's entries |
| BPlusTree.LeafWriteTakesKey | src/index/b_plus_tree.cpp:382 | rewriting one leaf without the key removes only entries with that key, and all of them when the key lived in that leaf only |
| BPlusTree.TakeFromLeafTakesKey | src/index/b_plus_tree.cpp:359-382 | taking the key from its leaf removes only the key's entries, and all of them when no other leaf holds it |
| BPlusTree.RemoveTakesKey | src/index/b_plus_tree.cpp:349-404 | a successful Remove keeps every other entry, adds none, and leaves no entry with the key when keys are unique |
| BPlusTree.SeparatorsCompose | src/index/b_plus_tree.cpp:200-213 | two rounds of separator rewriting to the same key compose into one |
| BPlusTree.ValueIndexByChildren | src/page/b_plus_tree_internal_page.cpp:41-47 | ValueIndex depends only on the children, not on the keys |
| BPlusTree.SeparatorStaysWritten | src/index/b_plus_tree.cpp:200-213 | a separator already rewritten is not disturbed by further rewrites to the same key |
| BPlusTree.SetKeyRewritesOneSeparator | src/index/b_plus_tree.cpp:208 | SetKeyAt changes one separator, to the new key |
| BPlusTree.PropagateRewritesSeparator | src/index/b_plus_tree.cpp:200-213 | the parent's slot for the child ends up holding the new first key, and every changed separator takes that key |
| BPlusTree.RemoveOnEmptyTreeFails | src/index/b_plus_tree.cpp:359 | removal from an empty tree descends into INVALID_PAGE_ID and fails |
| BPlusTree.RemoveCheckedOnEmptyTreeIsNoOp | src/index/b_plus_tree.cpp:343 | the checked removal leaves an empty tree unchanged and, for a key GetValue finds, is the source's removal |
| BPlusTree.RemoveCheckedAbsentKeyIsNoOp | src/index/b_plus_tree.cpp:343-364 | removing a key the tree does not hold leaves it unchanged, where the source's removal fails KeyIndex's assertion |
| BPlusTree.RemoveLastKeyEmptiesTree | src/index/b_plus_tree.cpp:385-391 | removing the only entry of a root leaf deletes the root and empties the tree |
| BPlusTree.RemoveNeedsPresentKey | src/index/b_plus_tree.cpp:359-364 | removal succeeds only for a key GetValue finds; an absent key trips KeyIndex's assertion |
| IndexIterator.Make | src/index/index_iterator.cpp:5-12 | an iterator opens exactly when its page exists, positioned at the given index |
| IndexIterator.End | src/index/b_plus_tree.cpp:667 | the end iterator is invalid and has no page |
| IndexIterator.Deref | src/index/index_iterator.cpp:17-27 | an invalid iterator yields a default pair; a valid one on a live slot of a leaf yields an entry of that leaf |
| IndexIterator.Next | src/index/index_iterator.cpp:29-50 | advancing steps within the leaf, moves to slot 0 of the next leaf at its end, and becomes End after the last leaf |
| IndexIterator.EqualIsSamePosition | src/index/index_iterator.cpp:53-65 | two iterators are equal exactly when validity, page and index agree, and not-equal is its negation |
| IndexIterator.LeftmostFrom | src/index/b_plus_tree.cpp:629-645 | the leftmost descent ends at a leaf |
| IndexIterator.Begin | src/index/b_plus_tree.cpp:629-645 | Begin opens a valid iterator at slot 0 of a leaf; on an empty tree the descent looks up INVALID_PAGE_ID and fails |
| IndexIterator.BeginAt | src/index/b_plus_tree.cpp:653-659 | Begin(key) points at the entry for the key, the one GetValue finds |
| IndexIterator.ChainFrom | src/index/index_iterator.cpp:29-50 | the entries of the leaf chain from a page, every leaf in it non-empty |
| IndexIterator.Walk | src/index/index_iterator.cpp:17-50 | n steps of dereference-and-advance yield n entries |
| IndexIterator.WalkSeesChain | src/index/index_iterator.cpp:29-50 | walking from slot i of a leaf yields that leaf's remaining entries and then every later leaf's, and ends at End |
| IndexIterator.BeginWalksChain | src/index/b_plus_tree.cpp:629-667 | from Begin, a full walk yields every entry of the leaf chain in order and stops at End |
| CatalogMetaCodec.EncodePairs | src/catalog/catalog.cpp:10-18 | eight bytes per (id, page) pair written |
| CatalogMetaCodec.EncodeMap | src/catalog/catalog.cpp:10-18 | a count and eight bytes per entry |
| CatalogMetaCodec.Serialize | src/catalog/catalog.cpp:3-29 | the record takes exactly GetSerializedSize bytes |
| CatalogMetaCodec.ReadPairs | src/catalog/catalog.cpp:51-60 | reading n pairs takes 8n bytes and keeps every id already read; a short buffer is Truncated |
| CatalogMetaCodec.ReadMap | src/catalog/catalog.cpp:51-71 | a map read fails only by truncation |
| CatalogMetaCodec.Deserialize | src/catalog/catalog.cpp:31-74 | a NULL buffer and a wrong magic number are refused; success takes no more bytes than given |
| CatalogMetaCodec.StoredHolds | src/catalog/catalog.cpp:51-60 | storing pairs gives each id read its page and leaves every other entry alone |
| CatalogMetaCodec.ReadEncodedPairs | src/catalog/catalog.cpp:10-18 | reading back written pairs stores exactly those pairs |
| CatalogMetaCodec.StoredAll | src/catalog/catalog.cpp:51-60 | storing the pairs for all of a map's ids into an empty map rebuilds the map |
| CatalogMetaCodec.ReadAllPairs | src/catalog/catalog.cpp:10-18 | reading back all pairs of a map in ascending order rebuilds it |
| CatalogMetaCodec.ReadEncodedMap | src/catalog/catalog.cpp:10-18 | a written map reads back as itself and leaves the bytes after it |
| CatalogMetaCodec.DeserializeSerialize | src/catalog/catalog.cpp:3-78 | deserialising a serialised catalog gives it back, negative page ids included, and takes exactly GetSerializedSize bytes whatever follows |
| SchemaCodec.EncodeColumns | src/record/schema.cpp:4-21 | the columns take the sum of their own serialised sizes |
| SchemaCodec.Serialize | src/record/schema.cpp:4-29 | the schema takes exactly GetSerializedSize bytes |
| SchemaCodec.ReadColumns | src/record/schema.cpp:46-50 | n columns are read and the bytes taken are their serialised sizes |
| SchemaCodec.Deserialize | src/record/schema.cpp:31-54 | a result takes exactly its GetSerializedSize bytes; fewer than eight bytes is Truncated |
| SchemaCodec.MagicOnlyWarns | src/record/schema.cpp:35-37 | the magic number's value never changes the result, since a mismatch is only reported |
| SchemaCodec.ReadEncodedColumns | src/record/schema.cpp:46-50 | written columns read back as themselves |
| SchemaCodec.DeserializeSerialize | src/record/schema.cpp:4-54 | deserialising a serialised schema gives it back and takes exactly GetSerializedSize bytes |
| TableMetaCodec.Serialize | src/catalog/table.cpp:3-28 | the record takes exactly GetSerializedSize bytes |
| TableMetaCodec.AsU32 | src/catalog/table.cpp:65 | the signed root id read into a table_id_t keeps its value modulo 2^32 |
| TableMetaCodec.AsI32 | src/catalog/table.cpp:65 | a u32 read as the signed root id keeps its value modulo 2^32 |
| TableMetaCodec.RootSurvivesConversions | src/catalog/table.cpp:65-71 | the root id read as i32, kept in a table_id_t and passed on as a page_id_t is unchanged |
| TableMetaCodec.Deserialize | src/catalog/table.cpp:33-74 | a NULL buffer and a wrong magic number are refused; a result takes exactly its GetSerializedSize bytes |
| TableMetaCodec.DeserializeSerialize | src/catalog/table.cpp:3-74 | deserialising serialised table metadata gives it back and takes exactly GetSerializedSize bytes |
| IndexMetaCodec.EncodeKeys | src/catalog/indexes.cpp:35-38 | four bytes per key column |
| IndexMetaCodec.Serialize | src/catalog/indexes.cpp:10-45 | the record takes exactly GetSerializedSize bytes |
| IndexMetaCodec.ReadHead | src/catalog/indexes.cpp:57-78 | a wrong magic number is refused; the magic, id and name length take twelve bytes before the name |
| IndexMetaCodec.KeyAsWritten | src/catalog/indexes.cpp:88 | a key read as one signed char is the byte for 0..127 and wraps to a u32 near 2^32 for 128..255 |
| IndexMetaCodec.ReadKeysAsWritten | src/catalog/indexes.cpp:86-90 | n keys step four bytes each, yet each key is the first byte of its field read as a signed char |
| IndexMetaCodec.DeserializeAsWritten | src/catalog/indexes.cpp:47-94 | a NULL buffer and a wrong magic number are refused; a success takes four bytes fewer than the record's own size |
| IndexMetaCodec.ReadKeys | src/catalog/indexes.cpp:86-90 | n u32 keys take 4n bytes |
| IndexMetaCodec.Deserialize | src/catalog/indexes.cpp:47-94 | a NULL buffer and a wrong magic number are refused; a result takes exactly its GetSerializedSize bytes |
| IndexMetaCodec.ReadEncodedHead | src/catalog/indexes.cpp:10-23 | the written magic, id and name read back |
| IndexMetaCodec.ReadEncodedKeys | src/catalog/indexes.cpp:35-38 | written key columns read back as themselves |
| IndexMetaCodec.DeserializeSerialize | src/catalog/indexes.cpp:10-94 | deserialising serialised index metadata, with the second index id skipped, gives it back and takes exactly GetSerializedSize bytes |
| IndexMetaCodec.AsWrittenMisreadsTableAndKeys | src/catalog/indexes.cpp:25 | the source reads the duplicated index id as the table id and the table id as the key count |
| IndexMetaCodec.AsWrittenCounterexample | src/catalog/indexes.cpp:80-94 | index 7 of table 3 on keys [1, 2] reads back as table 7 on keys [2, 1, 2], consuming all 33 bytes written while its own GetSerializedSize is 37 |
| IndexMetaCodec.AsWrittenKeyIsLowSignedByte | src/catalog/indexes.cpp:88 | key 256 reads back as 0 and key 200 as 2^32 - 56, where the corrected reader gives 256 and 200 |
| RowCodec.NullFlag | src/record/row.cpp:27-30 | the flag byte is non-zero exactly for a null field |
| RowCodec.NullFlags | src/record/row.cpp:27-30 | one flag byte per field, in field order |
| RowCodec.Payloads | src/record/row.cpp:32-37 | the payloads take the non-null fields' bytes |
| RowCodec.Serialize | src/record/row.cpp:16-40 | the row takes exactly GetSerializedSize bytes |
| RowCodec.ReadFields | src/record/row.cpp:59-72 | one field per column, typed as the column, null exactly when its flag is set, a null one with no payload |
| RowCodec.Deserialize | src/record/row.cpp:42-75 | the fields follow the schema's columns and their null flags; the bytes taken are the header, the flags and the payloads, which is GetSerializedSize when the stored count equals the column count |
| RowCodec.MagicOnlyWarns | src/record/row.cpp:46 | the magic number's value never changes the result, since a mismatch is only reported |
| RowCodec.ReadFieldsStep | src/record/row.cpp:59-72 | one round of the field loop reads the first field and continues with the rest |
| RowCodec.ReadEncodedFields | src/record/row.cpp:59-72 | written flags and payloads read back as the fields |
| RowCodec.DeserializeSerialize | src/record/row.cpp:16-85 | deserialising a serialised row gives it back and takes exactly GetSerializedSize bytes |

## Left out

- The scope covers catalog.cpp lines 3-78. The CatalogManager after
  them is not part of this model, and neither are the executor, the table
  heap and its iterator, or the column codec. A column is an opaque value
  that a given reader function parses back (`SchemaCodec.ColumnReader`).
  A field payload is handled the same way (`RowCodec.PayloadReader`).
- File I/O, the database file's creation and `Close` are left out. So are
  mutexes and latches, the buffer pool's destructor, and every
  concurrency concern.
- BufferPoolManager's own `AllocatePage`, `DeallocatePage` and
  `IsPageFree` only forward to the disk manager.
  - `BufferPool` runs over a simplified disk image whose
    `BufferPool.AllocatePage` hands out the lowest free id. The real
    allocator, `Disk.AllocatePage`, hands out the next-free hint of the
    first extent that is not full (`Disk.AllocateTakesBitmapChoice`),
    which need not be the lowest free id. The pool's contracts use only
    that the id handed out was free and is in use afterwards.
- Pin and unpin bookkeeping inside the B+ tree is left out. Every `FetchPage`
  and `UnpinPage` call of b_plus_tree.cpp becomes a map lookup. A page the
  tree asks for and cannot find becomes the error `MissingPage`.
- `IndexRootsPage`, `UpdateRootPageId` and `EditRoot` are left out. They
  record the root id in a header page that is not part of this model.
- `Destroy` and `Destroy_subtree`, and the debugging output `ToGraph`,
  `ToString` and `Check`, are left out.
- `BPlusTree.Propagate`: the search-tree invariant, that every key below
  an internal slot lies between that slot's separator and the next, is not
  stated, and neither Insert, Remove nor the separator rewrite is proved
  to keep it. The proofs about whole-tree contents are already the largest
  in the model, and stating the ordering of keys across pages would
  multiply them. The model states instead which separator each step
  rewrites (`BPlusTree.PropagateRewritesSeparator`), which entries each
  step keeps, and the split and merge rules.
- `BPlusTree.GetValue`: the contract states soundness only. A value found
  is held by a leaf, and an empty tree finds nothing. The converse, that a
  held key is found, needs a global search-tree invariant over routing
  keys, which the model does not state.
- `BPlusTree.Insert`: stated through `BPlusTree.InsertAddsEntry` and
  `BPlusTree.InsertRefusesPresentKey`. Its own contract gives only
  freshness and the unchanged configuration.
- `BPlusTree.Remove`: removal is stated through `BPlusTree.RemoveTakesKey`
  and the `...KeepsEntries` lemmas. Its own contract gives only that no
  page is added.
- The tree's descent, the `Propagate` walk up the parents and the
  leftmost descent of `Begin` are bounded by a fuel argument. A tree
  deeper than the fuel answers `Corrupt`. The bound used is the number of
  pages plus one.
- Leaf and internal page accessors are read directly from the datatype
  and have no separate member: `KeyAt`, `GetItem`, `ValueAt`,
  `GetNextPageId`, `SetNextPageId`, sizes, parent and page ids.
- `InternalPage.ValueIndex` scans the live slots. The source scans up to
  the maximum size, which also matches a stale slot past the live ones
  when no live slot holds the child.
- `SchemaCodec` takes the schema magic number as a named constant. Its
  value is defined in a header that is not part of this model, and the
  deserialiser only warns on a mismatch.
- `TableMetaCodec.Deserialize` ignores the warning for a non-NULL output
  pointer, because the warning has no effect on the result.
- `RowCodec.Deserialize` reads into a row with no fields yet. The source
  appends to whatever fields the row already holds.
- row.h documents that an empty row serialises to 0 bytes. The code
  writes the magic number and the count, so it is 8 bytes, and the model
  follows the code.
- `IndexIterator.Next` on an iterator that is not valid is a failure in
  the model. The source dereferences its null leaf pointer there.
- A key column index past the end of the buffer is undefined behaviour in
  the source. The model reports it as `Truncated`.
- `TableMetaCodec.RootSurvivesConversions`,
  `IndexIterator.EqualIsSamePosition` and
  `BufferPool.FlushPagePreservesInv`: these hold by unfolding the
  definitions alone. They are kept because the properties they state are
  ones the source relies on.

## Findings

| source | as written | input that shows it | evidently intended | confidence | as-written member | corrected member |
|---|---|---|---|---|---|---|
| src/page/b_plus_tree_leaf_page.cpp:174 | `Lookup` also compares the slot at index `GetSize()`, one past the live entries | leaf 1→10, 2→20; remove key 2; look up 2 | look only at live slots, so the removed key is absent | not executed | PageArrays.StaleSlotAnswersAfterRemove | PageArrays.LeafLookup |
| src/page/b_plus_tree_leaf_page.cpp:46-64 | `KeyIndex` searches slots 0 to `GetSize()` inclusive, and `RemoveAndDeleteRecord` trusts a hit in the stale slot | the leaf above after removing 2; remove 2 again: the size drops to 0 and the live entry for key 1 is lost | a removed key is absent and the page stays unchanged | not executed | PageArrays.StaleSlotAnswersAfterRemove | LeafPage.RemoveTakesKey |
| src/page/b_plus_tree_internal_page.cpp:84 | `my_lower_bound` compares slot 1's key even when the page has one slot | slots (·,7),(5,9) with size 1; Lookup(6) returns 9 | a one-slot page routes every key to its only child | not executed | PageArrays.OneSlotPageRoutesToStaleChild | PageArrays.InternalLowerBoundIsRoute |
| src/index/b_plus_tree.cpp:359 | `Remove` descends from the root without checking for an empty tree, although the comment at 343 says to return at once | any key on an empty tree: the descent fetches INVALID_PAGE_ID | do nothing on an empty tree | not executed | BPlusTree.RemoveOnEmptyTreeFails | BPlusTree.RemoveCheckedOnEmptyTreeIsNoOp |
| src/index/b_plus_tree.cpp:364 | `Remove` calls `KeyIndex` for any key, and `KeyIndex` asserts that the key is present | a one-leaf tree holding key 1; remove key 2: the assertion fails | removing an absent key does nothing | not executed | BPlusTree.RemoveNeedsPresentKey | BPlusTree.RemoveCheckedAbsentKeyIsNoOp |
| src/catalog/indexes.cpp:25 | the serialiser writes the index id twice; the deserialiser reads the second copy as the table id and the table id as the key count | IndexMetadata(7, "i", 3, [1, 2]) reads back as table 7 with keys [2, 1, 2] | the record reads back as written | not executed | IndexMetaCodec.AsWrittenCounterexample | IndexMetaCodec.DeserializeSerialize |
| src/catalog/indexes.cpp:88 | each key is `buf[ofs]`, one signed char, while four bytes are skipped | key column 200 reads back as 2^32 - 56 and 256 as 0 | read the u32 key | not executed | IndexMetaCodec.AsWrittenKeyIsLowSignedByte | IndexMetaCodec.ReadEncodedKeys |
| src/storage/disk_manager.cpp:91-95 | `DeAllocatePage` ignores the bitmap's refusal and decrements the counters anyway | release page 0 of a new file: the total wraps to 2^32 - 1 and every allocation then fails | refuse to release a free page | not executed | Disk.DoubleFreeReportsFull | Disk.FreeOfFreePageIsRefused |
| src/storage/disk_manager.cpp:96 | an extent that empties lowers `num_extents_` even when later extents are live, and line 66 then zeroes a live extent's bitmap | three extents, the first holding one page; release it, and the next allocation in the last extent reissues an allocated page | keep the number of extents opened | not executed | Disk.AsWrittenShrinksLiveExtents | Disk.DeAllocateOnValidDisk |
| src/buffer/buffer_pool_manager.cpp:29 | a fetch hit calls `replacer_->Pin(page_id)` with the page id instead of the frame id | page 5 resident in evictable frame 2; fetch 5: frame 2 is pinned yet still evictable | pin the frame | not executed | BufferPool.FetchHitLeavesFrameEvictable | BufferPool.FetchPagePreservesInv |
| src/buffer/buffer_pool_manager.cpp:40 | the result of `Victim` is ignored, so with every frame pinned frame 0 is reused | one frame, pinned, holding page 1; fetch page 2: page 1 is unmapped from under its user | return nullptr | not executed | BufferPool.FetchWithoutVictimTakesPinnedFrame | BufferPool.FetchPage |
| src/buffer/buffer_pool_manager.cpp:43 | a dirty victim is written to the disk page numbered by its frame id | frame 3 dirty with page 8; fetch another page: page 3 is overwritten and page 8 stays stale | write to the victim's own page | not executed | BufferPool.WriteBackGoesToFrameId | BufferPool.FetchPage |
| src/buffer/buffer_pool_manager.cpp:52 | a fetched page gets pin count 0 | fetch a missing page, then DeletePage succeeds on it | pin count 1, so the page is protected | not executed | BufferPool.FetchedPageCanBeDeleted | BufferPool.FetchedPageIsProtected |
| src/buffer/buffer_pool_manager.cpp:93 | the disk page is released before the pin check | a pinned resident page: DeletePage returns false but its disk page is free | release only when the delete goes ahead | not executed | BufferPool.RefusedDeleteFreesDiskPage | BufferPool.DeletePage |
| src/buffer/buffer_pool_manager.cpp:67 | the id from `AllocatePage` is not checked for INVALID_PAGE_ID | every page id in use and one free frame: NewPage maps INVALID_PAGE_ID to that frame and returns it pinned | return nullptr when no page id is free | not executed | BufferPool.NewPageOnFullDiskMapsInvalid | BufferPool.NewPage |
| src/buffer/buffer_pool_manager.cpp:105-107 | the deleted page's frame goes on the free list but stays in the replacer | an unpinned, evictable resident page; delete it: its frame is both free and evictable | take the frame out of the replacer | not executed | BufferPool.DeletedFrameStaysEvictable | BufferPool.DeletePagePreservesInv |
| src/buffer/lru_replacer.cpp:26-28 | `Unpin` exits when the list is full before checking whether the frame is already tracked | capacity 1 tracking frame 0; unpin frame 0 | a tracked frame is a no-op | not executed | Replacer.UnpinTrackedWhenFullExits | Replacer.UnpinCheckedSucceeds |
