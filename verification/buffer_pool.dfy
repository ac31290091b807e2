/** BufferPoolManager: a fixed array of frames caching disk pages, a page
    table from page id to frame, a free list of unused frames and an LRU
    replacer over the unpinned resident frames.

    Each operation comes in two forms. The `AsWritten` form follows the source
    line by line, including the slips listed under Findings in the README; the
    plain form is the repaired operation, and the invariant `Inv` is proved for
    the repaired forms only. The disk is the page-level view the pool sees:
    page contents by id, the set of allocated ids and the allocation limit. */
module BufferPool {
  import opened Wrappers
  import opened Bytes
  import Replacer
  import opened Common

  type FrameId = int

  /** A Page object: which page it holds, its pin count, dirty flag and data. */
  datatype Frame = Frame(pageId: PageId, pinCount: int, dirty: bool, data: seq<byte>)

  /** The disk as the pool uses it. Pages never written read as zeros. */
  datatype DiskImage = DiskImage(pages: map<PageId, seq<byte>>, inUse: set<PageId>, maxPages: nat)

  datatype Pool = Pool(
    pageSize: nat,
    frames: seq<Frame>,
    pageTable: map<PageId, FrameId>,
    freeList: seq<FrameId>,
    replacer: Replacer.Replacer,
    disk: DiskImage)

  // ---------------------------------------------------------------------------
  // The disk as seen by the pool

  function ReadPage(d: DiskImage, pageSize: nat, p: PageId): seq<byte> {
    if p in d.pages then d.pages[p] else Zeros(pageSize)
  }

  function WritePage(d: DiskImage, p: PageId, data: seq<byte>): (d': DiskImage)
    ensures p in d'.pages && d'.pages[p] == data
    ensures forall q :: q != p && q in d.pages ==> q in d'.pages && d'.pages[q] == d.pages[q]
    ensures d'.inUse == d.inUse && d'.maxPages == d.maxPages
  {
    d.(pages := d.pages[p := data])
  }

  /** A read after a write sees the written data on that page and the old
      contents everywhere else. */
  lemma ReadAfterWrite(d: DiskImage, pageSize: nat, p: PageId, data: seq<byte>, q: PageId)
    ensures ReadPage(WritePage(d, p, data), pageSize, q) == if q == p then data else ReadPage(d, pageSize, q)
  {
  }

  /** The lowest id in [from, limit) that is not inUse, if any. */
  function LowestFree(inUse: set<PageId>, from: nat, limit: nat): (r: Option<PageId>)
    ensures r.Some? ==> from <= r.value < limit && r.value !in inUse
    ensures r.Some? ==> forall q :: from <= q < r.value ==> q in inUse
    ensures r.None? ==> forall q :: from <= q < limit ==> q in inUse
    decreases limit - from
  {
    if from >= limit then None
    else if from !in inUse then Some(from)
    else LowestFree(inUse, from + 1, limit)
  }

  /** The pool's simplified allocator hands out the lowest free id, or
      INVALID_PAGE_ID when every id below the limit is taken; the pool's
      contracts rely only on the id having been free and being in use after. */
  function AllocatePage(d: DiskImage): (res: (PageId, DiskImage))
    ensures res.0 == INVALID_PAGE_ID ==> res.1 == d
    ensures res.0 != INVALID_PAGE_ID ==>
      && 0 <= res.0 < d.maxPages && res.0 !in d.inUse
      && res.1 == d.(inUse := d.inUse + {res.0})
  {
    match LowestFree(d.inUse, 0, d.maxPages)
    case None => (INVALID_PAGE_ID, d)
    case Some(p) => (p, d.(inUse := d.inUse + {p}))
  }

  function DeAllocatePage(d: DiskImage, p: PageId): (d': DiskImage)
    ensures p !in d'.inUse
    ensures forall q :: q != p ==> (q in d'.inUse <==> q in d.inUse)
    ensures d'.pages == d.pages
  {
    d.(inUse := d.inUse - {p})
  }

  // ---------------------------------------------------------------------------
  // The invariant of the repaired pool

  predicate InPool(b: Pool, f: FrameId) {
    0 <= f < |b.frames|
  }

  /** Every frame id the pool stores names a frame. */
  predicate FramesInRange(b: Pool) {
    && (forall f :: f in b.freeList ==> InPool(b, f))
    && (forall f :: f in b.replacer.track ==> InPool(b, f))
    && (forall p :: p in b.pageTable ==> InPool(b, b.pageTable[p]))
  }

  /** The page table maps each resident page to the frame that holds it. */
  predicate TableAgrees(b: Pool) {
    forall p :: p in b.pageTable ==> InPool(b, b.pageTable[p]) && b.frames[b.pageTable[p]].pageId == p
  }

  /** A frame on the free list is clean, unpinned, not resident and not evictable. */
  predicate FreeFramesUnused(b: Pool) {
    && (forall f :: f in b.freeList ==> InPool(b, f) && !b.frames[f].dirty && b.frames[f].pinCount == 0)
    && (forall f :: f in b.freeList ==> f !in b.replacer.track)
    && (forall p :: p in b.pageTable ==> b.pageTable[p] !in b.freeList)
  }

  /** A frame the replacer may evict is resident and unpinned. */
  predicate EvictableUnpinned(b: Pool) {
    forall f :: f in b.replacer.track ==>
      && InPool(b, f)
      && b.frames[f].pinCount == 0
      && b.frames[f].pageId in b.pageTable
      && b.pageTable[b.frames[f].pageId] == f
  }

  predicate Inv(b: Pool) {
    && |b.frames| == b.replacer.capacity
    && Replacer.Valid(b.replacer)
    && Replacer.NoDuplicates(b.freeList)
    && FramesInRange(b)
    && TableAgrees(b)
    && FreeFramesUnused(b)
    && EvictableUnpinned(b)
  }

  /** The frame ids 0 .. n-1, in order: the initial free list. */
  function Range(n: nat): (s: seq<FrameId>)
    ensures |s| == n
    ensures forall i :: 0 <= i < n ==> s[i] == i
  {
    if n == 0 then [] else Range(n - 1) + [n - 1]
  }

  /** The constructor: every frame free, nothing resident, nothing evictable. */
  function Init(poolSize: nat, pageSize: nat, disk: DiskImage): (b: Pool)
    ensures Inv(b)
    ensures |b.frames| == poolSize && b.pageTable == map[] && Replacer.Size(b.replacer) == 0
    ensures |b.freeList| == poolSize && forall i :: 0 <= i < poolSize ==> b.freeList[i] == i
    ensures b.disk == disk
  {
    Pool(pageSize, seq(poolSize, _ => Frame(INVALID_PAGE_ID, 0, false, Zeros(pageSize))),
      map[], Range(poolSize), Replacer.Init(poolSize), disk)
  }

  // ---------------------------------------------------------------------------
  // Shared steps

  /** Take a frame from the front of the free list, or else from the replacer. */
  function ChooseFrame(b: Pool): (res: Option<(FrameId, Pool)>)
    ensures res.None? <==> |b.freeList| == 0 && |b.replacer.track| == 0
    ensures res.Some? && |b.freeList| > 0 ==>
      res.value == (b.freeList[0], b.(freeList := b.freeList[1..]))
    ensures res.Some? && |b.freeList| == 0 ==>
      var v := Replacer.Victim(b.replacer);
      v.0 == Some(res.value.0) && res.value.1 == b.(replacer := v.1)
  {
    if |b.freeList| > 0 then Some((b.freeList[0], b.(freeList := b.freeList[1..])))
    else
      var v := Replacer.Victim(b.replacer);
      match v.0
      case None => None
      case Some(f) => Some((f, b.(replacer := v.1)))
  }

  /** Under the invariant the chosen frame is never pinned: it is either a free
      frame or the replacer's least recently unpinned one. */
  lemma ChooseFrameUnpinned(b: Pool)
    requires Inv(b)
    ensures ChooseFrame(b).Some? ==>
      var (f, b') := ChooseFrame(b).value;
      && InPool(b, f)
      && b.frames[f].pinCount == 0
      && f !in b'.freeList
      && f !in b'.replacer.track
      && (|b.freeList| > 0 ==> !b.frames[f].dirty && forall p :: p in b.pageTable ==> b.pageTable[p] != f)
      && (|b.freeList| == 0 ==> b.frames[f].pageId in b.pageTable && b.pageTable[b.frames[f].pageId] == f)
  {
    if ChooseFrame(b).Some? {
      if |b.freeList| > 0 {
        assert b.freeList[0] in b.freeList;
      } else {
        var t := b.replacer.track;
        assert t[|t| - 1] !in t[..|t| - 1];
      }
    }
  }

  /** Lines 42-46: write a dirty frame back to `target` and drop the page table
      entry of the page the frame held. */
  function DetachAsWritten(b: Pool, f: FrameId, target: PageId): (b': Pool)
    requires InPool(b, f)
    ensures b'.frames == b.frames && b'.freeList == b.freeList && b'.replacer == b.replacer
    ensures b.frames[f].dirty ==> target in b'.disk.pages && b'.disk.pages[target] == b.frames[f].data
    ensures b.frames[f].pageId !in b'.pageTable
  {
    var fr := b.frames[f];
    b.(disk := if fr.dirty then WritePage(b.disk, target, fr.data) else b.disk,
       pageTable := b.pageTable - {fr.pageId})
  }

  /** The repaired detach writes the data back to the page it belongs to and
      drops the page table entry only when it still points at this frame. */
  function Detach(b: Pool, f: FrameId): (b': Pool)
    requires InPool(b, f) && TableAgrees(b)
    ensures b'.frames == b.frames && b'.freeList == b.freeList && b'.replacer == b.replacer
    ensures b.frames[f].dirty ==> ReadPage(b'.disk, b.pageSize, b.frames[f].pageId) == b.frames[f].data
    ensures !b.frames[f].dirty ==> b'.disk == b.disk
    ensures forall p :: p in b'.pageTable ==> b'.pageTable[p] != f
    ensures forall p :: p in b.pageTable && b.pageTable[p] != f ==> p in b'.pageTable && b'.pageTable[p] == b.pageTable[p]
    ensures forall p :: p in b'.pageTable ==> p in b.pageTable
    ensures b'.disk.inUse == b.disk.inUse && b'.disk.maxPages == b.disk.maxPages
    ensures forall q :: q != b.frames[f].pageId ==> ReadPage(b'.disk, b.pageSize, q) == ReadPage(b.disk, b.pageSize, q)
  {
    var fr := b.frames[f];
    var table := if fr.pageId in b.pageTable && b.pageTable[fr.pageId] == f
      then b.pageTable - {fr.pageId} else b.pageTable;
    b.(disk := if fr.dirty then WritePage(b.disk, fr.pageId, fr.data) else b.disk,
       pageTable := table)
  }

  /** std::unordered_map::insert: an existing entry is kept. */
  function TableInsert(t: map<PageId, FrameId>, p: PageId, f: FrameId): (t': map<PageId, FrameId>)
    ensures p in t' && (p !in t ==> t'[p] == f)
    ensures forall q :: q in t ==> q in t' && t'[q] == t[q]
    ensures forall q :: q in t' ==> q in t || q == p
  {
    if p in t then t else t[p := f]
  }

  /** Lines 48-54 and 80-85: put the page into the frame and map it. */
  function Install(b: Pool, p: PageId, f: FrameId, fr: Frame): (b': Pool)
    requires InPool(b, f)
    ensures |b'.frames| == |b.frames| && b'.frames[f] == fr
    ensures p in b'.pageTable && (p !in b.pageTable ==> b'.pageTable[p] == f)
    ensures b'.freeList == b.freeList && b'.replacer == b.replacer && b'.disk == b.disk
    ensures forall g :: 0 <= g < |b.frames| && g != f ==> b'.frames[g] == b.frames[g]
    ensures forall q :: q in b.pageTable ==> q in b'.pageTable && b'.pageTable[q] == b.pageTable[q]
    ensures forall q :: q in b'.pageTable ==> q in b.pageTable || q == p
  {
    b.(pageTable := TableInsert(b.pageTable, p, f), frames := b.frames[f := fr])
  }

  /** A frame that nothing in the pool refers to. */
  predicate Detached(b: Pool, f: FrameId) {
    && InPool(b, f)
    && f !in b.freeList
    && f !in b.replacer.track
    && (forall q :: q in b.pageTable ==> b.pageTable[q] != f)
  }

  /** Choosing a frame and detaching it keeps the invariant and leaves the
      frame referenced by nothing. */
  lemma ChooseDetachPreservesInv(b: Pool)
    requires Inv(b) && ChooseFrame(b).Some?
    ensures var (f, b1) := ChooseFrame(b).value;
      InPool(b1, f) && Inv(Detach(b1, f)) && Detached(Detach(b1, f), f)
  {
    ChooseFrameUnpinned(b);
    var (f, b1) := ChooseFrame(b).value;
    if |b.freeList| > 0 {
      assert b.freeList == [f] + b1.freeList;
      assert forall g :: g in b1.freeList ==> g in b.freeList;
    } else {
      var t := b.replacer.track;
      assert t == b1.replacer.track + [f];
      assert forall g :: g in b1.replacer.track ==> g in t;
    }
  }

  /** Installing a page into a detached frame keeps the invariant. */
  lemma InstallPreservesInv(b: Pool, p: PageId, f: FrameId, fr: Frame)
    requires Inv(b) && Detached(b, f)
    requires fr.pageId == p && !fr.dirty
    ensures Inv(Install(b, p, f, fr))
  {
  }

  // ---------------------------------------------------------------------------
  // FetchPage

  /** Lines 36-41: the free list first, else the replacer, whose answer is not
      checked: when it has no frame, the initial 0 is used. */
  function ChooseFrameAsWritten(b: Pool): (res: (FrameId, Pool))
    requires |b.frames| > 0 && FramesInRange(b)
    ensures InPool(b, res.0) && FramesInRange(res.1) && res.1.frames == b.frames
    ensures res.1.pageTable == b.pageTable && res.1.disk == b.disk
    ensures |b.freeList| == 0 && |b.replacer.track| == 0 ==> res == (0, b)
    ensures ChooseFrame(b).Some? ==> ChooseFrame(b).value == res
  {
    if |b.freeList| > 0 then
      assert forall g :: g in b.freeList[1..] ==> g in b.freeList;
      (b.freeList[0], b.(freeList := b.freeList[1..]))
    else
      var v := Replacer.Victim(b.replacer);
      match v.0
      case None => (0, b)
      case Some(f) =>
        assert forall g :: g in v.1.track ==> g in b.replacer.track;
        (f, b.(replacer := v.1))
  }

  /** FetchPage as written: the replacer is told the page id on a hit (line 29),
      the victim is not checked (40), a dirty frame is written to the page
      numbered by its frame id (43) and the fetched page is left unpinned (52). */
  function FetchPageAsWritten(b: Pool, p: PageId): (res: (FrameId, Pool))
    requires |b.frames| > 0 && FramesInRange(b)
    ensures InPool(res.1, res.0) && |res.1.frames| == |b.frames| && FramesInRange(res.1)
    ensures p in res.1.pageTable && res.1.pageTable[p] == res.0
    ensures p in b.pageTable ==> res.0 == b.pageTable[p] && res.1.frames[res.0].pinCount == 1
    ensures p !in b.pageTable ==> res.1.frames[res.0].pageId == p && res.1.frames[res.0].pinCount == 0
  {
    if p in b.pageTable then
      var f := b.pageTable[p];
      (f, b.(replacer := Replacer.Pin(b.replacer, p), frames := b.frames[f := b.frames[f].(pinCount := 1)]))
    else
      var c := ChooseFrameAsWritten(b);
      var f := c.0;
      var b2 := DetachAsWritten(c.1, f, f);
      (f, Install(b2, p, f, Frame(p, 0, false, ReadPage(b2.disk, b2.pageSize, p))))
  }

  /** FetchPage: a resident page is pinned in place with no disk access; a
      missing page takes a free or evictable frame, whose dirty contents go back
      to their own page, and is read from disk. None when every frame is pinned. */
  function FetchPage(b: Pool, p: PageId): (res: (Option<FrameId>, Pool))
    requires Inv(b)
    ensures |res.1.frames| == |b.frames| && res.1.pageSize == b.pageSize
    ensures p in b.pageTable ==>
      && res.0 == Some(b.pageTable[p])
      && res.1.disk == b.disk && res.1.pageTable == b.pageTable
      && res.1.frames[b.pageTable[p]] == b.frames[b.pageTable[p]].(pinCount := 1)
    ensures res.0.None? <==> p !in b.pageTable && |b.freeList| == 0 && Replacer.Size(b.replacer) == 0
    ensures res.0.None? ==> res.1 == b
    ensures res.0.Some? ==>
      && InPool(res.1, res.0.value)
      && res.0.value !in res.1.replacer.track
      && p in res.1.pageTable && res.1.pageTable[p] == res.0.value
      && res.1.frames[res.0.value].pageId == p
      && res.1.frames[res.0.value].pinCount == 1
    ensures res.0.Some? && p !in b.pageTable ==>
      var f := res.0.value;
      && res.1.frames[f] == Frame(p, 1, false, ReadPage(b.disk, b.pageSize, p))
      && (forall q :: q in res.1.pageTable && q != p ==> res.1.pageTable[q] != f)
      && (|b.freeList| == 0 ==> b.frames[f].pageId !in res.1.pageTable)
      && (b.frames[f].dirty ==> ReadPage(res.1.disk, b.pageSize, b.frames[f].pageId) == b.frames[f].data)
      && (forall q :: q != b.frames[f].pageId ==> ReadPage(res.1.disk, b.pageSize, q) == ReadPage(b.disk, b.pageSize, q))
      && (|b.freeList| > 0 ==> res.1.freeList == b.freeList[1..] && res.1.replacer == b.replacer)
      && (|b.freeList| == 0 ==> res.1.freeList == b.freeList)
    ensures p in b.pageTable ==> res.1.freeList == b.freeList
    ensures res.1.disk.inUse == b.disk.inUse && res.1.disk.maxPages == b.disk.maxPages
    ensures forall g :: 0 <= g < |b.frames| && res.0 != Some(g) ==> res.1.frames[g] == b.frames[g]
    ensures forall q :: q in b.pageTable && res.0 != Some(b.pageTable[q]) ==>
      q in res.1.pageTable && res.1.pageTable[q] == b.pageTable[q]
    ensures forall q :: q in res.1.pageTable ==> q in b.pageTable || q == p
  {
    if p in b.pageTable then
      var f := b.pageTable[p];
      (Some(f), b.(replacer := Replacer.Pin(b.replacer, f), frames := b.frames[f := b.frames[f].(pinCount := 1)]))
    else
      match ChooseFrame(b)
      case None => (None, b)
      case Some((f, b1)) =>
        ChooseFrameUnpinned(b);
        var b2 := Detach(b1, f);
        assert b.frames[f].dirty ==> b.frames[f].pageId in b.pageTable;
        assert ReadPage(b2.disk, b.pageSize, p) == ReadPage(b.disk, b.pageSize, p);
        (Some(f), Install(b2, p, f, Frame(p, 1, false, ReadPage(b2.disk, b2.pageSize, p))))
  }

  /** Fetching never disturbs another pinned page: it keeps its frame, and
      the frame keeps its contents. */
  lemma FetchKeepsPinnedPages(b: Pool, p: PageId, q: PageId)
    requires Inv(b) && q != p && q in b.pageTable && b.frames[b.pageTable[q]].pinCount > 0
    ensures var b' := FetchPage(b, p).1;
      && q in b'.pageTable && b'.pageTable[q] == b.pageTable[q]
      && b'.frames[b.pageTable[q]] == b.frames[b.pageTable[q]]
  {
    ChooseFrameUnpinned(b);
  }

  lemma FetchHitPreservesInv(b: Pool, p: PageId)
    requires Inv(b) && p in b.pageTable
    ensures Inv(FetchPage(b, p).1)
  {
    var f := b.pageTable[p];
    Replacer.PinPreservesValid(b.replacer, f);
  }

  lemma FetchMissPreservesInv(b: Pool, p: PageId)
    requires Inv(b) && p !in b.pageTable
    ensures Inv(FetchPage(b, p).1)
  {
    if ChooseFrame(b).Some? {
      ChooseDetachPreservesInv(b);
      var (f, b1) := ChooseFrame(b).value;
      var c := Detach(b1, f);
      InstallPreservesInv(c, p, f, Frame(p, 1, false, ReadPage(c.disk, c.pageSize, p)));
    }
  }

  /** The repaired FetchPage keeps the invariant. */
  lemma FetchPagePreservesInv(b: Pool, p: PageId)
    requires Inv(b)
    ensures Inv(FetchPage(b, p).1)
  {
    if p in b.pageTable {
      FetchHitPreservesInv(b, p);
    } else {
      FetchMissPreservesInv(b, p);
    }
  }

  // ---------------------------------------------------------------------------
  // NewPage

  /** NewPage as written: nullptr when no frame is free or evictable, otherwise a
      fresh page id from the disk and a zeroed, pinned frame; an evicted dirty
      frame is written to the page numbered by its frame id (line 75). */
  function NewPageAsWritten(b: Pool): (res: (Option<(PageId, FrameId)>, Pool))
    requires |b.frames| > 0 && FramesInRange(b)
    ensures res.0.None? <==> |b.freeList| == 0 && Replacer.Size(b.replacer) == 0
    ensures res.0.None? ==> res.1 == b
    ensures res.0.Some? ==>
      var (pid, f) := res.0.value;
      && pid == AllocatePage(b.disk).0
      && InPool(res.1, f)
      && res.1.frames[f] == Frame(pid, 1, false, Zeros(b.pageSize))
  {
    if |b.freeList| == 0 && Replacer.Size(b.replacer) == 0 then (None, b)
    else
      var (pid, d) := AllocatePage(b.disk);
      var c := ChooseFrameAsWritten(b.(disk := d));
      var f := c.0;
      var b2 := if |b.freeList| > 0 then c.1 else DetachAsWritten(c.1, f, f);
      (Some((pid, f)), Install(b2, pid, f, Frame(pid, 1, false, Zeros(b.pageSize))))
  }

  /** On a full disk the source's NewPage maps INVALID_PAGE_ID into a pinned,
      zeroed frame and hands it out as a new page. */
  lemma NewPageOnFullDiskMapsInvalid(b: Pool)
    requires |b.frames| > 0 && FramesInRange(b)
    requires |b.freeList| > 0 || Replacer.Size(b.replacer) > 0
    requires forall q :: 0 <= q < b.disk.maxPages ==> q in b.disk.inUse
    ensures var (r, b') := NewPageAsWritten(b);
      && r.Some? && r.value.0 == INVALID_PAGE_ID
      && INVALID_PAGE_ID in b'.pageTable
      && b'.frames[r.value.1] == Frame(INVALID_PAGE_ID, 1, false, Zeros(b.pageSize))
  {
    var a := AllocatePage(b.disk).0;
    if a != INVALID_PAGE_ID {
      assert false;
    }
  }

  /** NewPage: nullptr without touching the disk when every frame is pinned or
      no page id is free; otherwise a page id that was free and is now in use,
      held in a zeroed, pinned, clean frame taken from the free list or from
      the replacer. */
  function NewPage(b: Pool): (res: (Option<(PageId, FrameId)>, Pool))
    requires Inv(b)
    ensures res.0.None? <==>
      (|b.freeList| == 0 && Replacer.Size(b.replacer) == 0) || AllocatePage(b.disk).0 == INVALID_PAGE_ID
    ensures res.0.None? ==> res.1 == b
    ensures res.0.Some? ==>
      var (pid, f) := res.0.value;
      && pid != INVALID_PAGE_ID && 0 <= pid < b.disk.maxPages && pid !in b.disk.inUse
      && res.1.disk.inUse == b.disk.inUse + {pid} && res.1.disk.maxPages == b.disk.maxPages
      && InPool(res.1, f) && InPool(b, f) && |res.1.frames| == |b.frames|
      && res.1.frames[f] == Frame(pid, 1, false, Zeros(b.pageSize))
      && pid in res.1.pageTable
      && (pid !in b.pageTable ==> res.1.pageTable[pid] == f)
      && f !in res.1.replacer.track && f !in res.1.freeList
      && (forall g :: 0 <= g < |b.frames| && g != f ==> res.1.frames[g] == b.frames[g])
      && (forall q :: q in b.pageTable && b.pageTable[q] != f ==> q in res.1.pageTable && res.1.pageTable[q] == b.pageTable[q])
      && (forall q :: q in res.1.pageTable ==> q in b.pageTable || q == pid)
      && (forall q :: q != b.frames[f].pageId ==> ReadPage(res.1.disk, b.pageSize, q) == ReadPage(b.disk, b.pageSize, q))
      && (|b.freeList| > 0 ==> res.1.freeList == b.freeList[1..] && res.1.replacer == b.replacer && res.1.disk.pages == b.disk.pages)
      && (|b.freeList| == 0 ==> res.1.freeList == b.freeList)
  {
    if |b.freeList| == 0 && Replacer.Size(b.replacer) == 0 then (None, b)
    else if AllocatePage(b.disk).0 == INVALID_PAGE_ID then (None, b)
    else
      var (pid, d) := AllocatePage(b.disk);
      var b0 := b.(disk := d);
      ChooseDetachPreservesInv(b0);
      var (f, b1) := ChooseFrame(b0).value;
      var c := Detach(b1, f);
      (Some((pid, f)), Install(c, pid, f, Frame(pid, 1, false, Zeros(b.pageSize))))
  }

  lemma NewPagePreservesInv(b: Pool)
    requires Inv(b)
    ensures Inv(NewPage(b).1)
  {
    if !(|b.freeList| == 0 && Replacer.Size(b.replacer) == 0) && AllocatePage(b.disk).0 != INVALID_PAGE_ID {
      var (pid, d) := AllocatePage(b.disk);
      var b0 := b.(disk := d);
      ChooseDetachPreservesInv(b0);
      var (f, b1) := ChooseFrame(b0).value;
      var c := Detach(b1, f);
      InstallPreservesInv(c, pid, f, Frame(pid, 1, false, Zeros(b.pageSize)));
    }
  }

  // ---------------------------------------------------------------------------
  // DeletePage

  /** DeletePage as written: the disk page is released first (line 93), then a
      missing page answers true and a pinned one false; an unpinned one has its
      data zeroed, its frame appended to the free list and its mapping dropped,
      while the frame stays in the replacer and keeps its page id and dirty flag. */
  function DeletePageAsWritten(b: Pool, p: PageId): (res: (bool, Pool))
    requires FramesInRange(b)
    ensures p !in res.1.disk.inUse
    ensures !res.0 <==> p in b.pageTable && b.frames[b.pageTable[p]].pinCount != 0
    ensures res.0 ==> p !in res.1.pageTable
    ensures res.1.replacer == b.replacer
  {
    var b0 := b.(disk := DeAllocatePage(b.disk, p));
    if p !in b.pageTable then (true, b0)
    else
      var f := b.pageTable[p];
      if b.frames[f].pinCount != 0 then (false, b0)
      else (true, b0.(frames := b.frames[f := b.frames[f].(data := Zeros(b.pageSize))],
                      freeList := b.freeList + [f],
                      pageTable := b.pageTable - {p}))
  }

  /** DeletePage: a missing page is released on disk and answers true; a pinned
      page answers false and nothing changes; an unpinned page is released, its
      frame reset and returned to the free list, and it is no longer evictable. */
  function DeletePage(b: Pool, p: PageId): (res: (bool, Pool))
    requires Inv(b)
    ensures !res.0 <==> p in b.pageTable && b.frames[b.pageTable[p]].pinCount != 0
    ensures |res.1.frames| == |b.frames|
    ensures !res.0 ==> res.1 == b
    ensures res.0 ==> p !in res.1.pageTable && p !in res.1.disk.inUse
    ensures res.0 && p in b.pageTable ==>
      var f := b.pageTable[p];
      && f in res.1.freeList
      && f !in res.1.replacer.track
      && res.1.frames[f] == Frame(INVALID_PAGE_ID, 0, false, Zeros(b.pageSize))
      && res.1.freeList == b.freeList + [f]
      && (forall g :: 0 <= g < |b.frames| && g != f ==> res.1.frames[g] == b.frames[g])
    ensures res.0 ==> res.1.pageTable == b.pageTable - {p}
    ensures res.0 && p !in b.pageTable ==> res.1 == b.(disk := res.1.disk)
    ensures res.1.disk.pages == b.disk.pages && res.1.disk.maxPages == b.disk.maxPages
    ensures forall q :: q != p ==> (q in res.1.disk.inUse <==> q in b.disk.inUse)
  {
    if p !in b.pageTable then (true, b.(disk := DeAllocatePage(b.disk, p)))
    else
      var f := b.pageTable[p];
      if b.frames[f].pinCount != 0 then (false, b)
      else
        Replacer.PinPreservesValid(b.replacer, f);
        (true, b.(disk := DeAllocatePage(b.disk, p),
                  frames := b.frames[f := Frame(INVALID_PAGE_ID, 0, false, Zeros(b.pageSize))],
                  freeList := b.freeList + [f],
                  pageTable := b.pageTable - {p},
                  replacer := Replacer.Pin(b.replacer, f)))
  }

  lemma DeletePagePreservesInv(b: Pool, p: PageId)
    requires Inv(b)
    ensures Inv(DeletePage(b, p).1)
  {
    if p in b.pageTable && b.frames[b.pageTable[p]].pinCount == 0 {
      var f := b.pageTable[p];
      Replacer.PinPreservesValid(b.replacer, f);
      var b' := DeletePage(b, p).1;
      assert forall g :: g in b'.freeList ==> g in b.freeList || g == f;
      assert Replacer.NoDuplicates(b'.freeList) by {
        assert f !in b.freeList;
      }
    }
  }

  // ---------------------------------------------------------------------------
  // UnpinPage

  /** UnpinPage as written: the frame of a resident page is handed to the
      replacer, which ends the process when it is full (lru_replacer.cpp:26);
      the dirty flag is or-ed in and the pin count cleared. */
  function UnpinPageAsWritten(b: Pool, p: PageId, isDirty: bool): (res: Result<Pool, Replacer.ReplacerError>)
    requires p in b.pageTable && FramesInRange(b)
    ensures res.Failure? <==> |b.replacer.track| >= b.replacer.capacity
    ensures res.Success? ==>
      var f := b.pageTable[p];
      && |res.value.frames| == |b.frames|
      && res.value.frames[f] == b.frames[f].(dirty := b.frames[f].dirty || isDirty, pinCount := 0)
      && f in res.value.replacer.track
  {
    var f := b.pageTable[p];
    match Replacer.Unpin(b.replacer, f)
    case Failure(e) => Failure(e)
    case Success(r) =>
      Success(b.(replacer := r, frames := b.frames[f := b.frames[f].(dirty := b.frames[f].dirty || isDirty, pinCount := 0)]))
  }

  /** UnpinPage: the page's frame becomes unpinned and evictable and remembers
      whether it was modified; nothing else changes. */
  function UnpinPage(b: Pool, p: PageId, isDirty: bool): (b': Pool)
    requires Inv(b) && p in b.pageTable
    ensures var f := b.pageTable[p];
      && |b'.frames| == |b.frames|
      && b'.frames[f] == b.frames[f].(dirty := b.frames[f].dirty || isDirty, pinCount := 0)
      && (forall g :: 0 <= g < |b.frames| && g != f ==> b'.frames[g] == b.frames[g])
      && f in b'.replacer.track
      && b'.pageTable == b.pageTable && b'.disk == b.disk && b'.freeList == b.freeList
    ensures Inv(b')
  {
    var f := b.pageTable[p];
    Replacer.UnpinCheckedSucceeds(b.replacer, f);
    var r := Replacer.UnpinChecked(b.replacer, f).value;
    b.(replacer := r, frames := b.frames[f := b.frames[f].(dirty := b.frames[f].dirty || isDirty, pinCount := 0)])
  }

  // ---------------------------------------------------------------------------
  // FlushPage

  /** FlushPage: a dirty resident page is written to its own disk page. The
      dirty flag stays set and nothing but the disk changes. */
  function FlushPage(b: Pool, p: PageId): (b': Pool)
    requires TableAgrees(b) && p in b.pageTable
    ensures b'.frames == b.frames && b'.pageTable == b.pageTable
    ensures b'.freeList == b.freeList && b'.replacer == b.replacer
    ensures b.frames[b.pageTable[p]].dirty ==> ReadPage(b'.disk, b.pageSize, p) == b.frames[b.pageTable[p]].data
    ensures !b.frames[b.pageTable[p]].dirty ==> b'.disk == b.disk
    ensures forall q :: q != p ==> ReadPage(b'.disk, b.pageSize, q) == ReadPage(b.disk, b.pageSize, q)
  {
    var fr := b.frames[b.pageTable[p]];
    if fr.dirty then b.(disk := WritePage(b.disk, p, fr.data)) else b
  }

  /** Flushing keeps the invariant, and a later miss on the page reads back what
      the frame held when it was flushed. */
  lemma FlushPagePreservesInv(b: Pool, p: PageId)
    requires Inv(b) && p in b.pageTable
    ensures Inv(FlushPage(b, p))
    ensures b.frames[b.pageTable[p]].dirty ==>
      ReadPage(FlushPage(b, p).disk, b.pageSize, p) == b.frames[b.pageTable[p]].data
  {
  }

  // ---------------------------------------------------------------------------
  // CheckAllUnpinned

  /** CheckAllUnpinned: true exactly when no frame holds a pin. */
  method CheckAllUnpinned(b: Pool) returns (res: bool)
    ensures res <==> forall i :: 0 <= i < |b.frames| ==> b.frames[i].pinCount == 0
  {
    res := true;
    var i := 0;
    while i < |b.frames|
      invariant 0 <= i <= |b.frames|
      invariant res <==> forall j :: 0 <= j < i ==> b.frames[j].pinCount == 0
    {
      if b.frames[i].pinCount != 0 {
        res := false;
      }
      i := i + 1;
    }
  }

  // ---------------------------------------------------------------------------
  // What the written operations do to a pool in good order

  /** Line 29 pins the frame numbered by the page id, so a fetched page whose
      frame was evictable stays evictable while pinned. */
  lemma FetchHitLeavesFrameEvictable(b: Pool, p: PageId)
    requires Inv(b) && p in b.pageTable
    requires b.pageTable[p] in b.replacer.track && b.pageTable[p] != p
    ensures var (f, b') := FetchPageAsWritten(b, p);
      && f == b.pageTable[p]
      && b'.frames[f].pinCount == 1
      && f in b'.replacer.track
      && !Inv(b')
  {
    Replacer.PinPreservesValid(b.replacer, p);
  }

  /** Line 40 ignores a failed Victim: with every frame pinned, frame 0 is taken
      from the page that holds it, which loses its page table entry. */
  lemma FetchWithoutVictimTakesPinnedFrame(b: Pool, p: PageId)
    requires Inv(b) && |b.frames| > 0
    requires |b.freeList| == 0 && |b.replacer.track| == 0
    requires p !in b.pageTable
    requires b.frames[0].pageId in b.pageTable && b.pageTable[b.frames[0].pageId] == 0
    requires b.frames[0].pinCount > 0
    ensures var (f, b') := FetchPageAsWritten(b, p);
      && f == 0
      && b'.frames[0].pageId == p
      && b.frames[0].pageId !in b'.pageTable
    ensures FetchPage(b, p).0.None?
  {
  }

  /** Line 43 writes a dirty victim to the page numbered by its frame id: the
      data lands on that page and the page it belongs to keeps its old contents. */
  lemma WriteBackGoesToFrameId(b: Pool, p: PageId, f: FrameId)
    requires Inv(b) && |b.freeList| == 0 && p !in b.pageTable
    requires f in b.replacer.track && f == b.replacer.track[|b.replacer.track| - 1]
    requires b.frames[f].dirty && b.frames[f].pageId != f
    ensures var (g, b') := FetchPageAsWritten(b, p);
      && g == f
      && f in b'.disk.pages && b'.disk.pages[f] == b.frames[f].data
      && ReadPage(b'.disk, b.pageSize, b.frames[f].pageId) == ReadPage(b.disk, b.pageSize, b.frames[f].pageId)
  {
  }

  /** Line 52 leaves a page fetched from disk unpinned, so a DeletePage can drop
      it while its caller still uses it; the repaired fetch pins it, and the
      same DeletePage is refused. */
  lemma FetchedPageCanBeDeleted(b: Pool, p: PageId)
    requires Inv(b) && |b.frames| > 0 && |b.freeList| > 0 && p !in b.pageTable
    ensures var b' := FetchPageAsWritten(b, p).1;
      DeletePageAsWritten(b', p).0 && p !in DeletePageAsWritten(b', p).1.pageTable
  {
  }

  /** With the repaired operations a page that FetchPage handed out cannot be
      deleted until it is unpinned. */
  lemma FetchedPageIsProtected(b: Pool, p: PageId)
    requires Inv(b)
    ensures FetchPage(b, p).0.Some? ==>
      Inv(FetchPage(b, p).1) && !DeletePage(FetchPage(b, p).1, p).0
  {
    FetchPagePreservesInv(b, p);
  }

  /** Line 93 releases the disk page before the pin test, so a refused delete
      still frees the page on disk. */
  lemma RefusedDeleteFreesDiskPage(b: Pool, p: PageId)
    requires Inv(b) && p in b.pageTable && b.frames[b.pageTable[p]].pinCount != 0
    requires p in b.disk.inUse
    ensures !DeletePageAsWritten(b, p).0 && p !in DeletePageAsWritten(b, p).1.disk.inUse
    ensures !DeletePage(b, p).0 && DeletePage(b, p).1.disk == b.disk
  {
  }

  /** Lines 105-107 put the frame on the free list without taking it out of the
      replacer, so the same frame is both free and evictable. */
  lemma DeletedFrameStaysEvictable(b: Pool, p: PageId)
    requires Inv(b) && p in b.pageTable && b.frames[b.pageTable[p]].pinCount == 0
    requires b.pageTable[p] in b.replacer.track
    ensures var f := b.pageTable[p];
      var (ok, b') := DeletePageAsWritten(b, p);
      && ok && f in b'.freeList && f in b'.replacer.track
      && !Inv(b')
  {
  }
}
