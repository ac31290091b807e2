/** DiskManager: logical page ids over a file made of a meta page, then extents of
    one bitmap page followed by BITMAP_SIZE data pages. The file is a map from
    physical page id to page bytes; a page that was never written reads as zeros. */
module Disk {
  import opened Wrappers
  import opened Bytes
  import Bitmap
  import opened Common
  const META_PAGE_ID: nat := 0

  /** The sizes the source takes from its headers: a bitmap page of
      `bitmapChars` bytes of bits (PAGE_SIZE - 8), MAX_VALID_PAGE_ID and
      the number of extent slots in the meta page. */
  datatype Config = Config(bitmapChars: nat, maxValidPageId: nat, maxExtents: nat)

  predicate ValidConfig(c: Config) {
    && c.bitmapChars > 0
    && 8 * c.bitmapChars < U32_LIMIT
    && c.maxValidPageId < U32_LIMIT
    && c.maxExtents < U32_LIMIT
    && c.maxValidPageId <= Capacity(c)
  }

  function PageSize(c: Config): nat {
    c.bitmapChars + 8
  }

  /** BITMAP_SIZE: data pages per extent, one per bit of the bitmap page. */
  function BitmapSize(c: Config): nat {
    8 * c.bitmapChars
  }

  /** The number of logical pages the extent table can address. */
  function Capacity(c: Config): nat {
    Times(c.maxExtents, 8 * c.bitmapChars)
  }

  /** DiskFileMetaPage. */
  datatype Meta = Meta(numAllocated: u32, numExtents: u32, extentUsed: seq<u32>)

  datatype Disk = Disk(meta: Meta, file: map<nat, seq<byte>>)

  /** A new database file: zero meta page, nothing written. */
  function Empty(c: Config): (d: Disk)
    ensures |d.meta.extentUsed| == c.maxExtents
    ensures forall i :: 0 <= i < c.maxExtents ==> d.meta.extentUsed[i] == 0
  {
    Disk(Meta(0, 0, seq(c.maxExtents, _ => 0)), map[])
  }

  // ---------------------------------------------------------------------------
  // Multiplication and division by BITMAP_SIZE
  //
  // The page-id arithmetic multiplies and divides by a symbolic BITMAP_SIZE.
  // It is spelled out as repeated addition and subtraction, and the lemmas below
  // tie it to `*`, `/` and `%`.

  /** `n * b`. */
  function Times(n: nat, b: nat): nat {
    if n == 0 then 0 else Times(n - 1, b) + b
  }

  lemma {:induction false} TimesIsProduct(n: nat, b: nat)
    ensures Times(n, b) == n * b
  {
    if n > 0 {
      TimesIsProduct(n - 1, b);
      assert n * b == (n - 1) * b + b;
    }
  }

  lemma {:induction false} TimesMonotone(i: nat, j: nat, b: nat)
    requires i <= j
    ensures Times(i, b) <= Times(j, b)
    decreases j
  {
    if i < j {
      TimesMonotone(i, j - 1, b);
    }
  }

  lemma {:induction false} TimesSucc(q: nat, b: nat)
    ensures Times(q, b + 1) == Times(q, b) + q
  {
    if q > 0 {
      TimesSucc(q - 1, b);
    }
  }

  /** The extent of logical page `l`: `l / BITMAP_SIZE`. */
  function ExtentOf(c: Config, l: nat): nat
    requires ValidConfig(c)
    decreases l
  {
    if l < BitmapSize(c) then 0 else ExtentOf(c, l - BitmapSize(c)) + 1
  }

  /** The page's offset inside its extent: `l % BITMAP_SIZE`. */
  function OffsetOf(c: Config, l: nat): (off: nat)
    requires ValidConfig(c)
    ensures off < BitmapSize(c)
    decreases l
  {
    if l < BitmapSize(c) then l else OffsetOf(c, l - BitmapSize(c))
  }

  lemma {:induction false} ExtentOffsetSplit(c: Config, l: nat)
    requires ValidConfig(c)
    ensures l == Times(ExtentOf(c, l), BitmapSize(c)) + OffsetOf(c, l)
    decreases l
  {
    if l >= BitmapSize(c) {
      ExtentOffsetSplit(c, l - BitmapSize(c));
    }
  }

  lemma MulAtLeastOne(k: int, d: nat)
    requires k >= 1
    ensures k * d >= d
  {
    assert k * d == (k - 1) * d + d;
  }

  /** Multiplying a strictly larger integer by `d` gains at least `d`. */
  lemma MulGap(x: int, y: int, d: nat)
    ensures x > y ==> x * d >= y * d + d
  {
    if x > y {
      assert x * d == (x - y) * d + y * d;
      MulAtLeastOne(x - y, d);
    }
  }

  /** Quotient and remainder are determined by `n == q * b + r` with `0 <= r < b`. */
  lemma DivUnique(n: int, b: int, q: int, r: int)
    requires b > 0 && 0 <= r < b && n == q * b + r
    ensures n / b == q && n % b == r
  {
    var q0 := n / b;
    assert n == q0 * b + n % b;
    MulGap(q, q0, b);
    MulGap(q0, q, b);
  }

  /** ExtentOf and OffsetOf are the source's `/` and `%` (on non-negative ids
      C++'s truncating division agrees with Dafny's). */
  lemma ExtentOffsetAreDivMod(c: Config, l: nat)
    requires ValidConfig(c)
    ensures ExtentOf(c, l) == l / BitmapSize(c) && OffsetOf(c, l) == l % BitmapSize(c)
  {
    ExtentOffsetSplit(c, l);
    TimesIsProduct(ExtentOf(c, l), BitmapSize(c));
    DivUnique(l, BitmapSize(c), ExtentOf(c, l), OffsetOf(c, l));
  }

  /** The id AllocatePage returns for offset `off` of extent `i` addresses that
      extent and offset again in DeAllocatePage and IsPageFree. */
  lemma {:induction false} ExtentOfPageId(c: Config, i: nat, off: nat)
    requires ValidConfig(c) && off < BitmapSize(c)
    ensures ExtentOf(c, Times(i, BitmapSize(c)) + off) == i
    ensures OffsetOf(c, Times(i, BitmapSize(c)) + off) == off
  {
    if i > 0 {
      ExtentOfPageId(c, i - 1, off);
    }
  }

  lemma {:induction false} ExtentOfMonotone(c: Config, l: nat, l': nat)
    requires ValidConfig(c) && l <= l'
    ensures ExtentOf(c, l) <= ExtentOf(c, l')
    decreases l
  {
    if l >= BitmapSize(c) {
      ExtentOfMonotone(c, l - BitmapSize(c), l' - BitmapSize(c));
    }
  }

  // ---------------------------------------------------------------------------
  // Page-id mapping

  /** Physical position of extent `i`'s bitmap page: `1 + i * (BITMAP_SIZE + 1)`. */
  function BitmapPhysId(c: Config, i: nat): nat {
    1 + Times(i, BitmapSize(c) + 1)
  }

  /** MapPageId: `l + 2 + l / BITMAP_SIZE`, skipping the meta page and one bitmap
      page per extent. */
  function MapPageId(c: Config, l: nat): nat
    requires ValidConfig(c)
  {
    l + 2 + ExtentOf(c, l)
  }

  lemma MapPageIdStrictlyIncreasing(c: Config, l: nat, l': nat)
    requires ValidConfig(c) && l < l'
    ensures MapPageId(c, l) < MapPageId(c, l')
  {
    ExtentOfMonotone(c, l, l');
  }

  /** A data page never lands on the meta page or on any extent's bitmap page. */
  lemma MapPageIdAvoidsMetadata(c: Config, l: nat, i: nat)
    requires ValidConfig(c)
    ensures MapPageId(c, l) != META_PAGE_ID
    ensures MapPageId(c, l) != BitmapPhysId(c, i)
  {
    var b := BitmapSize(c);
    var q, r := ExtentOf(c, l), OffsetOf(c, l);
    ExtentOffsetSplit(c, l);
    TimesSucc(q, b);
    // MapPageId(c, l) == 1 + Times(q, b + 1) + (r + 1), with 1 <= r + 1 <= b
    if i <= q {
      TimesMonotone(i, q, b + 1);
    } else {
      TimesMonotone(q + 1, i, b + 1);
    }
  }

  lemma BitmapPhysIdInjective(c: Config, i: nat, j: nat)
    requires ValidConfig(c) && i != j
    ensures BitmapPhysId(c, i) != BitmapPhysId(c, j)
  {
    var b := BitmapSize(c);
    if i < j {
      TimesMonotone(i + 1, j, b + 1);
    } else {
      TimesMonotone(j + 1, i, b + 1);
    }
  }

  // ---------------------------------------------------------------------------
  // Physical pages

  /** ReadPhysicalPage: the stored bytes, cut or zero-padded to one page; beyond
      the end of the file the page is all zeros. */
  function ReadPhysicalPage(c: Config, file: map<nat, seq<byte>>, p: nat): (page: seq<byte>)
    ensures |page| == PageSize(c)
  {
    if p !in file then Zeros(PageSize(c))
    else if |file[p]| >= PageSize(c) then file[p][..PageSize(c)]
    else file[p] + Zeros(PageSize(c) - |file[p]|)
  }

  /** A read past the end of the file gives zeros, and a short page is padded
      with zeros. */
  lemma ReadPhysicalPageZeroFill(c: Config, file: map<nat, seq<byte>>, p: nat)
    ensures var page := ReadPhysicalPage(c, file, p);
      && (p !in file ==> forall k :: 0 <= k < |page| ==> page[k] == 0)
      && (p in file ==> forall k :: 0 <= k < |page| ==>
            page[k] == if k < |file[p]| then file[p][k] else 0)
  {
  }

  function WritePhysicalPage(file: map<nat, seq<byte>>, p: nat, data: seq<byte>): map<nat, seq<byte>> {
    file[p := data]
  }

  lemma ReadAfterWrite(c: Config, file: map<nat, seq<byte>>, p: nat, q: nat, data: seq<byte>)
    requires |data| == PageSize(c)
    ensures ReadPhysicalPage(c, WritePhysicalPage(file, p, data), q)
         == if q == p then data else ReadPhysicalPage(c, file, q)
  {
    if q == p {
      assert data[..PageSize(c)] == data;
    }
  }

  /** ReadPage / WritePage: logical pages through MapPageId. */
  function ReadPage(c: Config, d: Disk, l: nat): (page: seq<byte>)
    requires ValidConfig(c)
    ensures |page| == PageSize(c)
  {
    ReadPhysicalPage(c, d.file, MapPageId(c, l))
  }

  function WritePage(c: Config, d: Disk, l: nat, data: seq<byte>): (d': Disk)
    requires ValidConfig(c)
    ensures d'.meta == d.meta
  {
    d.(file := WritePhysicalPage(d.file, MapPageId(c, l), data))
  }

  lemma ReadPageAfterWritePage(c: Config, d: Disk, l: nat, l': nat, data: seq<byte>)
    requires ValidConfig(c) && |data| == PageSize(c)
    ensures ReadPage(c, WritePage(c, d, l, data), l') == if l' == l then data else ReadPage(c, d, l')
  {
    if l < l' {
      MapPageIdStrictlyIncreasing(c, l, l');
    } else if l' < l {
      MapPageIdStrictlyIncreasing(c, l', l);
    }
  }

  /** The bitmap of extent `i` as stored in the file. */
  function BitmapAt(c: Config, d: Disk, i: nat): (bm: Bitmap.BitmapPage)
    ensures Bitmap.MaxSupportedSize(bm) == BitmapSize(c)
  {
    Bitmap.Decode(ReadPhysicalPage(c, d.file, BitmapPhysId(c, i)))
  }

  /** IsPageFree: the page's bit in its extent's bitmap is clear. */
  predicate IsPageFree(c: Config, d: Disk, l: nat)
    requires ValidConfig(c)
  {
    Bitmap.IsPageFree(BitmapAt(c, d, ExtentOf(c, l)), OffsetOf(c, l))
  }

  /** IsPageFree of the `off`-th page of extent `i` reads that extent's bitmap. */
  lemma IsPageFreeInExtent(c: Config, d: Disk, i: nat, off: nat)
    requires ValidConfig(c) && off < BitmapSize(c)
    ensures IsPageFree(c, d, Times(i, BitmapSize(c)) + off) == Bitmap.IsPageFree(BitmapAt(c, d, i), off)
  {
    ExtentOfPageId(c, i, off);
    var l := Times(i, BitmapSize(c)) + off;
    assert ExtentOf(c, l) == i && OffsetOf(c, l) == off;
  }

  // ---------------------------------------------------------------------------
  // The disk invariant

  function Sum(s: seq<u32>): nat {
    if s == [] then 0 else Sum(s[..|s| - 1]) + s[|s| - 1]
  }

  lemma {:induction false} SumUpdate(s: seq<u32>, i: nat, v: u32)
    requires i < |s|
    ensures Sum(s[i := v]) == Sum(s) - s[i] + v
  {
    var t := s[i := v];
    if i < |s| - 1 {
      assert t[..|t| - 1] == s[..|s| - 1][i := v];
      SumUpdate(s[..|s| - 1], i, v);
    } else {
      assert t[..|t| - 1] == s[..|s| - 1];
    }
  }

  lemma {:induction false} SumAllFull(s: seq<u32>, b: nat)
    requires forall j :: 0 <= j < |s| ==> s[j] == b
    ensures Sum(s) == Times(|s|, b)
  {
    if s != [] {
      SumAllFull(s[..|s| - 1], b);
    }
  }

  /** What the meta page promises by itself: one count per extent slot, the page
      count is the sum of the extent counts, and no extent at or past
      `num_extents_` holds pages. */
  ghost predicate MetaValid(c: Config, m: Meta) {
    && |m.extentUsed| == c.maxExtents
    && m.numExtents <= c.maxExtents
    && m.numAllocated == Sum(m.extentUsed)
    && (forall i :: m.numExtents <= i < c.maxExtents ==> m.extentUsed[i] == 0)
  }

  /** Each extent's bitmap page is valid and counts what the meta page says. */
  ghost predicate BitmapsAgree(c: Config, d: Disk)
    requires |d.meta.extentUsed| == c.maxExtents
  {
    forall i :: 0 <= i < c.maxExtents ==>
      Bitmap.Valid(BitmapAt(c, d, i)) && BitmapAt(c, d, i).pageAllocated == d.meta.extentUsed[i]
  }

  /** The disk invariant: the meta page and the bitmap pages agree. */
  ghost predicate Valid(c: Config, d: Disk) {
    ValidConfig(c) && MetaValid(c, d.meta) && BitmapsAgree(c, d)
  }

  lemma EmptyValid(c: Config)
    requires ValidConfig(c)
    ensures Valid(c, Empty(c))
  {
    var d := Empty(c);
    SumAllFull(d.meta.extentUsed, 0);
    TimesIsProduct(c.maxExtents, 0);
    forall i | 0 <= i < c.maxExtents
      ensures Bitmap.Valid(BitmapAt(c, d, i)) && BitmapAt(c, d, i).pageAllocated == 0
    {
      assert ReadPhysicalPage(c, d.file, BitmapPhysId(c, i)) == Zeros(PageSize(c));
      Bitmap.DecodeZeros(PageSize(c));
    }
  }

  /** A bitmap page that counts no allocated page has no bit set. */
  lemma EmptyBitmapAllClear(bm: Bitmap.BitmapPage)
    requires Bitmap.Valid(bm) && bm.pageAllocated == 0
    ensures forall o :: 0 <= o < Bitmap.MaxSupportedSize(bm) ==> !Bitmap.GetBit(bm, o)
  {
    forall o | 0 <= o < Bitmap.MaxSupportedSize(bm)
      ensures !Bitmap.GetBit(bm, o)
    {
      SetBitCounts(bm, o, Bitmap.MaxSupportedSize(bm));
    }
  }

  lemma {:induction false} SetBitCounts(bm: Bitmap.BitmapPage, o: nat, n: nat)
    requires o < n <= Bitmap.MaxSupportedSize(bm)
    ensures Bitmap.GetBit(bm, o) ==> Bitmap.CountSetBelow(bm, n) >= 1
  {
    if o < n - 1 {
      SetBitCounts(bm, o, n - 1);
    }
  }

  // ---------------------------------------------------------------------------
  // AllocatePage

  /** The extent scan: the first extent whose used count is not BITMAP_SIZE. */
  function FirstNonFull(used: seq<u32>, b: nat, from: nat): (i: nat)
    requires from <= |used|
    ensures from <= i <= |used|
    ensures forall j :: from <= j < i ==> used[j] == b
    ensures i < |used| ==> used[i] != b
    decreases |used| - from
  {
    if from == |used| then from
    else if used[from] == b then FirstNonFull(used, b, from + 1)
    else from
  }

  lemma {:induction false} FirstNonFullIs(used: seq<u32>, b: nat, from: nat, i: nat)
    requires from <= i < |used|
    requires forall j :: from <= j < i ==> used[j] == b
    requires used[i] != b
    ensures FirstNonFull(used, b, from) == i
    decreases i - from
  {
    if from < i {
      FirstNonFullIs(used, b, from + 1, i);
    }
  }

  datatype DiskError = ExtentOverflow

  datatype Allocated = Allocated(disk: Disk, pageId: int)

  datatype ExtentAllocation = ExtentAllocation(file: map<nat, seq<byte>>, offset: nat)

  /** The bitmap half of AllocatePage for extent `i`: zero its bitmap page when
      the extent is being opened, read it, take the hinted page and write the
      bitmap back. The bitmap's verdict is ignored: on failure the offset stays 0
      and the page is written back unchanged. */
  function AllocateInExtent(c: Config, file: map<nat, seq<byte>>, i: nat, opening: bool): (r: ExtentAllocation)
    requires ValidConfig(c)
    ensures r.offset < BitmapSize(c)
    ensures forall p :: p != BitmapPhysId(c, i) ==> ReadPhysicalPage(c, r.file, p) == ReadPhysicalPage(c, file, p)
  {
    var phys := BitmapPhysId(c, i);
    var file' := if opening then WritePhysicalPage(file, phys, Zeros(PageSize(c))) else file;
    var page := ReadPhysicalPage(c, file', phys);
    var a := Bitmap.AllocatePage(Bitmap.Decode(page));
    if a.Some? then ExtentAllocation(WritePhysicalPage(file', phys, Bitmap.Encode(a.value.page)), a.value.offset)
    else ExtentAllocation(WritePhysicalPage(file', phys, page), 0)
  }

  /** AllocatePage. `Failure(ExtentOverflow)` stands for the write past the
      extent table that the source would make if every extent were full. */
  function AllocatePage(c: Config, d: Disk): (r: Result<Allocated, DiskError>)
    requires ValidConfig(c) && |d.meta.extentUsed| == c.maxExtents
    ensures d.meta.numAllocated >= c.maxValidPageId ==> r == Success(Allocated(d, INVALID_PAGE_ID))
    ensures r.Success? && r.value.pageId != INVALID_PAGE_ID ==>
      && 0 <= r.value.pageId
      && var i, m, m' := ExtentOf(c, r.value.pageId), d.meta, r.value.disk.meta;
      && i < c.maxExtents
      && (forall j :: 0 <= j < i ==> m.extentUsed[j] == BitmapSize(c))
      && m.extentUsed[i] != BitmapSize(c)
      && m'.extentUsed == m.extentUsed[i := Inc32(m.extentUsed[i])]
      && m'.numAllocated == Inc32(m.numAllocated)
      && m'.numExtents == (if m.numExtents <= i then Inc32(m.numExtents) else m.numExtents)
  {
    var m := d.meta;
    if m.numAllocated >= c.maxValidPageId then Success(Allocated(d, INVALID_PAGE_ID))
    else
      var i := FirstNonFull(m.extentUsed, BitmapSize(c), 0);
      if i == c.maxExtents then Failure(ExtentOverflow)
      else
        var opening := m.numExtents <= i;
        var e := AllocateInExtent(c, d.file, i, opening);
        var m' := Meta(Inc32(m.numAllocated),
                       if opening then Inc32(m.numExtents) else m.numExtents,
                       m.extentUsed[i := Inc32(m.extentUsed[i])]);
        ExtentOfPageId(c, i, e.offset);
        Success(Allocated(Disk(m', e.file), Times(i, BitmapSize(c)) + e.offset))
  }

  /** Below MAX_VALID_PAGE_ID a valid disk has a non-full extent. */
  lemma NonFullExtentExists(c: Config, d: Disk)
    requires Valid(c, d) && d.meta.numAllocated < c.maxValidPageId
    ensures FirstNonFull(d.meta.extentUsed, BitmapSize(c), 0) < c.maxExtents
  {
    var used := d.meta.extentUsed;
    if FirstNonFull(used, BitmapSize(c), 0) == c.maxExtents {
      SumAllFull(used, BitmapSize(c));
      assert false;
    }
  }

  /** The bitmap AllocateInExtent starts from. */
  function StartBitmap(c: Config, file: map<nat, seq<byte>>, i: nat, opening: bool): Bitmap.BitmapPage {
    if opening then Bitmap.Decode(Zeros(PageSize(c)))
    else Bitmap.Decode(ReadPhysicalPage(c, file, BitmapPhysId(c, i)))
  }

  /** From a valid bitmap that is not full, AllocateInExtent takes a free page,
      marks it allocated and leaves a valid bitmap counting one more page. */
  lemma AllocateInExtentTakesFreePage(c: Config, file: map<nat, seq<byte>>, i: nat, opening: bool)
    requires ValidConfig(c)
    requires Bitmap.Valid(StartBitmap(c, file, i, opening))
    requires StartBitmap(c, file, i, opening).pageAllocated < BitmapSize(c)
    ensures var bm := StartBitmap(c, file, i, opening);
      var e := AllocateInExtent(c, file, i, opening);
      var bm' := Bitmap.Decode(ReadPhysicalPage(c, e.file, BitmapPhysId(c, i)));
      && Bitmap.IsPageFree(bm, e.offset)
      && !Bitmap.IsPageFree(bm', e.offset)
      && Bitmap.Valid(bm')
      && bm'.pageAllocated == bm.pageAllocated + 1
  {
    var phys := BitmapPhysId(c, i);
    var file' := if opening then WritePhysicalPage(file, phys, Zeros(PageSize(c))) else file;
    var page := ReadPhysicalPage(c, file', phys);
    assert opening ==> page == Zeros(PageSize(c));
    var bm := Bitmap.Decode(page);
    assert bm == StartBitmap(c, file, i, opening);
    Bitmap.CountAllSet(bm, BitmapSize(c));
    Bitmap.AllocateSucceedsWhenNotFull(bm);
    Bitmap.AllocatePreservesValid(bm);
    var a := Bitmap.AllocatePage(bm).value;
    var e := AllocateInExtent(c, file, i, opening);
    assert e.file == WritePhysicalPage(file', phys, Bitmap.Encode(a.page));
    ReadAfterWrite(c, file', phys, phys, Bitmap.Encode(a.page));
    Bitmap.DecodeEncode(a.page);
    assert Bitmap.Decode(ReadPhysicalPage(c, e.file, phys)) == a.page;
  }

  lemma AllocatePageUnfold(c: Config, d: Disk, i: nat)
    requires ValidConfig(c) && |d.meta.extentUsed| == c.maxExtents
    requires d.meta.numAllocated < c.maxValidPageId
    requires i == FirstNonFull(d.meta.extentUsed, BitmapSize(c), 0) < c.maxExtents
    ensures var m := d.meta;
      var opening := m.numExtents <= i;
      var e := AllocateInExtent(c, d.file, i, opening);
      var m' := Meta(Inc32(m.numAllocated),
                     if opening then Inc32(m.numExtents) else m.numExtents,
                     m.extentUsed[i := Inc32(m.extentUsed[i])]);
      AllocatePage(c, d) == Success(Allocated(Disk(m', e.file), Times(i, BitmapSize(c)) + e.offset))
  {
  }

  /** The extent AllocatePage picks on a valid disk below MAX_VALID_PAGE_ID is
      the first one at or before `num_extents_` that is not full; the bitmap it
      starts from is valid and not full, and every page that bitmap calls free
      is free on the disk. */
  lemma PickedExtent(c: Config, d: Disk)
    requires Valid(c, d) && d.meta.numAllocated < c.maxValidPageId
    ensures var i := FirstNonFull(d.meta.extentUsed, BitmapSize(c), 0);
      var opening := d.meta.numExtents <= i;
      var bm := StartBitmap(c, d.file, i, opening);
      && i < c.maxExtents
      && (opening ==> i == d.meta.numExtents)
      && GoodPick(c, d, i)
  {
    NonFullExtentExists(c, d);
    var m := d.meta;
    var b := BitmapSize(c);
    var i := FirstNonFull(m.extentUsed, b, 0);
    // the scan stops at `num_extents_` at the latest
    assert m.numExtents < c.maxExtents ==> m.extentUsed[m.numExtents] == 0;
    var bm := StartBitmap(c, d.file, i, m.numExtents <= i);
    if m.numExtents <= i {
      Bitmap.DecodeZeros(PageSize(c));
      EmptyBitmapAllClear(BitmapAt(c, d, i));
    } else {
      assert bm == BitmapAt(c, d, i);
    }
  }

  /** What AllocatePage needs of the extent it picks: a valid bitmap to start
      from that is not full and whose free pages are free on the disk. */
  ghost predicate GoodPick(c: Config, d: Disk, i: nat)
    requires ValidConfig(c) && |d.meta.extentUsed| == c.maxExtents
  {
    var opening := d.meta.numExtents <= i;
    var bm := StartBitmap(c, d.file, i, opening);
    && d.meta.numAllocated < c.maxValidPageId
    && i == FirstNonFull(d.meta.extentUsed, BitmapSize(c), 0) < c.maxExtents
    && Bitmap.Valid(bm) && bm.pageAllocated == d.meta.extentUsed[i] < BitmapSize(c)
    && (forall o :: 0 <= o < BitmapSize(c) && Bitmap.IsPageFree(bm, o) ==> Bitmap.IsPageFree(BitmapAt(c, d, i), o))
  }

  lemma AllocateFromGoodPick(c: Config, d: Disk, i: nat)
    requires ValidConfig(c) && |d.meta.extentUsed| == c.maxExtents
    requires GoodPick(c, d, i)
    ensures AllocatePage(c, d).Success?
    ensures var a := AllocatePage(c, d).value;
      && a.pageId == Times(i, BitmapSize(c)) + AllocateInExtent(c, d.file, i, d.meta.numExtents <= i).offset
      && var off := AllocateInExtent(c, d.file, i, d.meta.numExtents <= i).offset;
      && Bitmap.IsPageFree(BitmapAt(c, d, i), off)
      && !Bitmap.IsPageFree(BitmapAt(c, a.disk, i), off)
      && Bitmap.Valid(BitmapAt(c, a.disk, i))
      && BitmapAt(c, a.disk, i).pageAllocated == d.meta.extentUsed[i] + 1
  {
    var opening := d.meta.numExtents <= i;
    AllocateInExtentTakesFreePage(c, d.file, i, opening);
    AllocatePageUnfold(c, d, i);
    var e := AllocateInExtent(c, d.file, i, opening);
    var a := AllocatePage(c, d).value;
    assert a.disk.file == e.file;
    assert BitmapAt(c, a.disk, i) == Bitmap.Decode(ReadPhysicalPage(c, e.file, BitmapPhysId(c, i)));
  }

  /** On a valid disk below MAX_VALID_PAGE_ID, AllocatePage succeeds and hands out
      a page that was free and no longer is, counting one more page. */
  lemma AllocateOnValidDisk(c: Config, d: Disk)
    requires Valid(c, d) && d.meta.numAllocated < c.maxValidPageId
    ensures AllocatePage(c, d).Success?
    ensures var a := AllocatePage(c, d).value;
      && 0 <= a.pageId && ExtentOf(c, a.pageId) < c.maxExtents
      && IsPageFree(c, d, a.pageId)
      && !IsPageFree(c, a.disk, a.pageId)
      && a.disk.meta.numAllocated == d.meta.numAllocated + 1
  {
    PickedExtent(c, d);
    var i := FirstNonFull(d.meta.extentUsed, BitmapSize(c), 0);
    AllocateFromGoodPick(c, d, i);
    var e := AllocateInExtent(c, d.file, i, d.meta.numExtents <= i);
    var a := AllocatePage(c, d).value;
    ExtentOfPageId(c, i, e.offset);
    IsPageFreeInExtent(c, d, i, e.offset);
    IsPageFreeInExtent(c, a.disk, i, e.offset);
  }

  /** AllocatePage rewrites only the bitmap of the extent it picks. */
  lemma AllocateKeepsOtherBitmaps(c: Config, d: Disk, i: nat)
    requires ValidConfig(c) && |d.meta.extentUsed| == c.maxExtents
    requires d.meta.numAllocated < c.maxValidPageId
    requires i == FirstNonFull(d.meta.extentUsed, BitmapSize(c), 0) < c.maxExtents
    ensures AllocatePage(c, d).Success?
    ensures forall j :: j != i ==> BitmapAt(c, AllocatePage(c, d).value.disk, j) == BitmapAt(c, d, j)
  {
    AllocatePageUnfold(c, d, i);
    var e := AllocateInExtent(c, d.file, i, d.meta.numExtents <= i);
    var d' := AllocatePage(c, d).value.disk;
    assert d'.file == e.file;
    forall j | j != i
      ensures BitmapAt(c, d', j) == BitmapAt(c, d, j)
    {
      BitmapPhysIdInjective(c, i, j);
      assert ReadPhysicalPage(c, e.file, BitmapPhysId(c, j)) == ReadPhysicalPage(c, d.file, BitmapPhysId(c, j));
    }
  }

  /** AllocatePage keeps the meta page's own promises. */
  lemma AllocateKeepsMetaValid(c: Config, d: Disk, i: nat)
    requires ValidConfig(c) && MetaValid(c, d.meta)
    requires d.meta.numAllocated < c.maxValidPageId
    requires i == FirstNonFull(d.meta.extentUsed, BitmapSize(c), 0) < c.maxExtents
    requires d.meta.numExtents <= i ==> i == d.meta.numExtents
    requires d.meta.extentUsed[i] < BitmapSize(c)
    ensures AllocatePage(c, d).Success?
    ensures MetaValid(c, AllocatePage(c, d).value.disk.meta)
  {
    AllocatePageUnfold(c, d, i);
    var m := d.meta;
    var m' := AllocatePage(c, d).value.disk.meta;
    SumUpdate(m.extentUsed, i, m.extentUsed[i] + 1);
    assert m'.extentUsed == m.extentUsed[i := m.extentUsed[i] + 1];
  }

  /** AllocatePage keeps every bitmap page in step with the meta page. */
  lemma AllocateKeepsBitmapsAgree(c: Config, d: Disk, i: nat)
    requires ValidConfig(c) && |d.meta.extentUsed| == c.maxExtents
    requires BitmapsAgree(c, d) && GoodPick(c, d, i)
    ensures AllocatePage(c, d).Success?
    ensures BitmapsAgree(c, AllocatePage(c, d).value.disk)
  {
    AllocateFromGoodPick(c, d, i);
    AllocateKeepsOtherBitmaps(c, d, i);
    AllocatePageUnfold(c, d, i);
    var d' := AllocatePage(c, d).value.disk;
    assert d'.meta.extentUsed == d.meta.extentUsed[i := d.meta.extentUsed[i] + 1];
    forall j | 0 <= j < c.maxExtents
      ensures Bitmap.Valid(BitmapAt(c, d', j)) && BitmapAt(c, d', j).pageAllocated == d'.meta.extentUsed[j]
    {
      if j != i {
        assert BitmapAt(c, d', j) == BitmapAt(c, d, j);
      }
    }
  }

  /** AllocatePage keeps a valid disk valid. */
  lemma AllocatePreservesValid(c: Config, d: Disk)
    requires Valid(c, d)
    ensures AllocatePage(c, d).Success?
    ensures Valid(c, AllocatePage(c, d).value.disk)
  {
    if d.meta.numAllocated < c.maxValidPageId {
      PickedExtent(c, d);
      var i := FirstNonFull(d.meta.extentUsed, BitmapSize(c), 0);
      AllocateKeepsMetaValid(c, d, i);
      AllocateKeepsBitmapsAgree(c, d, i);
    }
  }

  /** AllocatePage writes only a bitmap page: every data page reads as before. */
  lemma AllocateKeepsDataPages(c: Config, d: Disk)
    requires ValidConfig(c) && |d.meta.extentUsed| == c.maxExtents
    ensures AllocatePage(c, d).Success? ==>
      forall l :: ReadPage(c, AllocatePage(c, d).value.disk, l) == ReadPage(c, d, l)
  {
    var i := FirstNonFull(d.meta.extentUsed, BitmapSize(c), 0);
    if d.meta.numAllocated < c.maxValidPageId && i < c.maxExtents {
      AllocatePageUnfold(c, d, i);
      var d' := AllocatePage(c, d).value.disk;
      forall l: nat
        ensures ReadPage(c, d', l) == ReadPage(c, d, l)
      {
        MapPageIdAvoidsMetadata(c, l, i);
      }
    }
  }

  // ---------------------------------------------------------------------------
  // DeAllocatePage

  /** DeAllocatePage as written: the bitmap's verdict is ignored, both counters
      are decremented (as uint32_t) whatever it said, and `num_extents_` drops
      whenever the extent's count reaches zero. */
  function DeAllocatePageAsWritten(c: Config, d: Disk, l: nat): (d': Disk)
    requires ValidConfig(c) && |d.meta.extentUsed| == c.maxExtents
    requires ExtentOf(c, l) < c.maxExtents
    ensures var i := ExtentOf(c, l);
      && d'.meta.numAllocated == Dec32(d.meta.numAllocated)
      && d'.meta.extentUsed == d.meta.extentUsed[i := Dec32(d.meta.extentUsed[i])]
      && d'.meta.numExtents == (if d'.meta.extentUsed[i] == 0 then Dec32(d.meta.numExtents) else d.meta.numExtents)
  {
    var i := ExtentOf(c, l);
    var phys := BitmapPhysId(c, i);
    var page := ReadPhysicalPage(c, d.file, phys);
    var freed := Bitmap.DeAllocatePage(Bitmap.Decode(page), OffsetOf(c, l));
    var written := if freed.Some? then Bitmap.Encode(freed.value) else page;
    var used := d.meta.extentUsed[i := Dec32(d.meta.extentUsed[i])];
    var m' := Meta(Dec32(d.meta.numAllocated),
                   if used[i] == 0 then Dec32(d.meta.numExtents) else d.meta.numExtents,
                   used);
    Disk(m', WritePhysicalPage(d.file, phys, written))
  }

  /** DeAllocatePage with its two defects repaired: a page that is not allocated
      leaves everything unchanged, and `num_extents_` is never lowered, so an
      extent that still holds pages is never taken for a new one. */
  function DeAllocatePage(c: Config, d: Disk, l: nat): (r: Option<Disk>)
    requires ValidConfig(c) && |d.meta.extentUsed| == c.maxExtents
    requires ExtentOf(c, l) < c.maxExtents
    ensures r.None? <==> IsPageFree(c, d, l)
    ensures r.Some? ==> var i := ExtentOf(c, l);
      && r.value.meta.numAllocated == Dec32(d.meta.numAllocated)
      && r.value.meta.extentUsed == d.meta.extentUsed[i := Dec32(d.meta.extentUsed[i])]
      && r.value.meta.numExtents == d.meta.numExtents
  {
    var i := ExtentOf(c, l);
    var phys := BitmapPhysId(c, i);
    match Bitmap.DeAllocatePage(BitmapAt(c, d, i), OffsetOf(c, l))
    case None => None
    case Some(p) =>
      var m := d.meta;
      Some(Disk(Meta(Dec32(m.numAllocated), m.numExtents, m.extentUsed[i := Dec32(m.extentUsed[i])]),
                WritePhysicalPage(d.file, phys, Bitmap.Encode(p))))
  }

  /** DeAllocatePage rewrites only the bitmap of the page's extent. */
  lemma DeAllocateKeepsOtherPages(c: Config, d: Disk, l: nat)
    requires ValidConfig(c) && |d.meta.extentUsed| == c.maxExtents
    requires ExtentOf(c, l) < c.maxExtents
    ensures DeAllocatePage(c, d, l).Some? ==> var d' := DeAllocatePage(c, d, l).value;
      && (forall j :: j != ExtentOf(c, l) ==> BitmapAt(c, d', j) == BitmapAt(c, d, j))
      && (forall l' :: ReadPage(c, d', l') == ReadPage(c, d, l'))
  {
    var i := ExtentOf(c, l);
    var phys := BitmapPhysId(c, i);
    if DeAllocatePage(c, d, l).Some? {
      var p := Bitmap.DeAllocatePage(BitmapAt(c, d, i), OffsetOf(c, l)).value;
      var d' := DeAllocatePage(c, d, l).value;
      assert d'.file == WritePhysicalPage(d.file, phys, Bitmap.Encode(p));
      forall j | j != i
        ensures BitmapAt(c, d', j) == BitmapAt(c, d, j)
      {
        BitmapPhysIdInjective(c, i, j);
        ReadAfterWrite(c, d.file, phys, BitmapPhysId(c, j), Bitmap.Encode(p));
      }
      forall l': nat
        ensures ReadPage(c, d', l') == ReadPage(c, d, l')
      {
        MapPageIdAvoidsMetadata(c, l', i);
        ReadAfterWrite(c, d.file, phys, MapPageId(c, l'), Bitmap.Encode(p));
      }
    }
  }

  /** Freeing an allocated page whose extent bitmap is valid clears its bit and
      leaves a valid bitmap counting one page fewer. */
  lemma DeAllocateClearsBit(c: Config, d: Disk, l: nat)
    requires ValidConfig(c) && |d.meta.extentUsed| == c.maxExtents
    requires ExtentOf(c, l) < c.maxExtents
    requires Bitmap.Valid(BitmapAt(c, d, ExtentOf(c, l)))
    requires !IsPageFree(c, d, l)
    ensures DeAllocatePage(c, d, l).Some?
    ensures var d', i := DeAllocatePage(c, d, l).value, ExtentOf(c, l);
      && BitmapAt(c, d', i) == Bitmap.DeAllocatePage(BitmapAt(c, d, i), OffsetOf(c, l)).value
      && IsPageFree(c, d', l)
      && Bitmap.Valid(BitmapAt(c, d', i))
      && 1 <= BitmapAt(c, d, i).pageAllocated
      && BitmapAt(c, d', i).pageAllocated == BitmapAt(c, d, i).pageAllocated - 1
  {
    var i := ExtentOf(c, l);
    var bm := BitmapAt(c, d, i);
    var d' := DeAllocatePage(c, d, l).value;
    Bitmap.DeAllocatePreservesValid(bm, OffsetOf(c, l));
    var p := Bitmap.DeAllocatePage(bm, OffsetOf(c, l)).value;
    var phys := BitmapPhysId(c, i);
    assert d'.file == WritePhysicalPage(d.file, phys, Bitmap.Encode(p));
    ReadAfterWrite(c, d.file, phys, phys, Bitmap.Encode(p));
    Bitmap.DecodeEncode(p);
    assert BitmapAt(c, d', i) == p;
    SetBitCounts(bm, OffsetOf(c, l), BitmapSize(c));
  }

  /** Freeing an allocated page of a valid disk makes it free, lowers the page
      count by one, keeps the disk valid and leaves every data page as it was. */
  lemma DeAllocateOnValidDisk(c: Config, d: Disk, l: nat)
    requires Valid(c, d) && ExtentOf(c, l) < c.maxExtents
    requires !IsPageFree(c, d, l)
    ensures DeAllocatePage(c, d, l).Some?
    ensures var d' := DeAllocatePage(c, d, l).value;
      && IsPageFree(c, d', l)
      && d'.meta.numAllocated == d.meta.numAllocated - 1
      && Valid(c, d')
      && (forall l' :: ReadPage(c, d', l') == ReadPage(c, d, l'))
  {
    var i := ExtentOf(c, l);
    DeAllocateClearsBit(c, d, l);
    DeAllocateKeepsOtherPages(c, d, l);
    assert BitmapAt(c, d, i).pageAllocated == d.meta.extentUsed[i];
    SumUpdate(d.meta.extentUsed, i, 0);
    DeAllocateKeepsMetaValid(c, d, l);
    DeAllocateKeepsBitmapsAgree(c, d, l);
  }

  lemma DeAllocateKeepsMetaValid(c: Config, d: Disk, l: nat)
    requires ValidConfig(c) && MetaValid(c, d.meta) && ExtentOf(c, l) < c.maxExtents
    requires 1 <= d.meta.extentUsed[ExtentOf(c, l)]
    requires DeAllocatePage(c, d, l).Some?
    ensures MetaValid(c, DeAllocatePage(c, d, l).value.meta)
  {
    var i := ExtentOf(c, l);
    var m, m' := d.meta, DeAllocatePage(c, d, l).value.meta;
    assert m'.extentUsed == m.extentUsed[i := m.extentUsed[i] - 1];
    SumUpdate(m.extentUsed, i, m.extentUsed[i] - 1);
  }

  lemma DeAllocateKeepsBitmapsAgree(c: Config, d: Disk, l: nat)
    requires ValidConfig(c) && |d.meta.extentUsed| == c.maxExtents && ExtentOf(c, l) < c.maxExtents
    requires BitmapsAgree(c, d) && !IsPageFree(c, d, l)
    ensures DeAllocatePage(c, d, l).Some?
    ensures BitmapsAgree(c, DeAllocatePage(c, d, l).value)
  {
    var i := ExtentOf(c, l);
    DeAllocateClearsBit(c, d, l);
    DeAllocateKeepsOtherPages(c, d, l);
    var d' := DeAllocatePage(c, d, l).value;
    assert d'.meta.extentUsed == d.meta.extentUsed[i := d.meta.extentUsed[i] - 1];
    forall j | 0 <= j < c.maxExtents
      ensures Bitmap.Valid(BitmapAt(c, d', j)) && BitmapAt(c, d', j).pageAllocated == d'.meta.extentUsed[j]
    {
      if j != i {
        assert BitmapAt(c, d', j) == BitmapAt(c, d, j);
      }
    }
  }

  /** A freed page is the next one handed out when every earlier extent is full. */
  /** When extent `i` is the first one not full and already open, AllocatePage
      hands out the page its bitmap would pick. */
  lemma AllocateTakesBitmapChoice(c: Config, d: Disk, i: nat)
    requires ValidConfig(c) && |d.meta.extentUsed| == c.maxExtents
    requires d.meta.numAllocated < c.maxValidPageId
    requires i < c.maxExtents && i < d.meta.numExtents
    requires forall j :: 0 <= j < i ==> d.meta.extentUsed[j] == BitmapSize(c)
    requires d.meta.extentUsed[i] != BitmapSize(c)
    requires Bitmap.AllocatePage(BitmapAt(c, d, i)).Some?
    ensures AllocatePage(c, d).Success?
    ensures AllocatePage(c, d).value.pageId
         == Times(i, BitmapSize(c)) + Bitmap.AllocatePage(BitmapAt(c, d, i)).value.offset
  {
    FirstNonFullIs(d.meta.extentUsed, BitmapSize(c), 0, i);
    AllocatePageUnfold(c, d, i);
  }

  lemma AllocateAfterDeAllocate(c: Config, d: Disk, l: nat)
    requires Valid(c, d) && ExtentOf(c, l) < c.maxExtents
    requires !IsPageFree(c, d, l)
    requires forall j :: 0 <= j < ExtentOf(c, l) ==> d.meta.extentUsed[j] == BitmapSize(c)
    ensures var d' := DeAllocatePage(c, d, l).value;
      d'.meta.numAllocated < c.maxValidPageId ==>
      AllocatePage(c, d').Success? && AllocatePage(c, d').value.pageId == l
  {
    var i := ExtentOf(c, l);
    assert Bitmap.Valid(BitmapAt(c, d, i)) && BitmapAt(c, d, i).pageAllocated == d.meta.extentUsed[i];
    DeAllocateClearsBit(c, d, l);
    // the extent holds a page, so it lies below `num_extents_`
    assert i < d.meta.numExtents;
    ReallocateFreedPage(c, d, l);
  }

  /** The part of AllocateAfterDeAllocate that needs only the freed page's extent. */
  lemma ReallocateFreedPage(c: Config, d: Disk, l: nat)
    requires ValidConfig(c) && |d.meta.extentUsed| == c.maxExtents
    requires ExtentOf(c, l) < d.meta.numExtents && ExtentOf(c, l) < c.maxExtents
    requires forall j :: 0 <= j < ExtentOf(c, l) ==> d.meta.extentUsed[j] == BitmapSize(c)
    requires Bitmap.Valid(BitmapAt(c, d, ExtentOf(c, l)))
    requires BitmapAt(c, d, ExtentOf(c, l)).pageAllocated == d.meta.extentUsed[ExtentOf(c, l)]
    requires !IsPageFree(c, d, l)
    ensures var d' := DeAllocatePage(c, d, l).value;
      d'.meta.numAllocated < c.maxValidPageId ==>
      AllocatePage(c, d').Success? && AllocatePage(c, d').value.pageId == l
  {
    var i := ExtentOf(c, l);
    var off := OffsetOf(c, l);
    DeAllocateClearsBit(c, d, l);
    FreedExtentNotFull(c, d, l);
    var d' := DeAllocatePage(c, d, l).value;
    if d'.meta.numAllocated < c.maxValidPageId {
      Bitmap.DeAllocateThenAllocate(BitmapAt(c, d, i), off);
      AllocateTakesBitmapChoice(c, d', i);
      ExtentOffsetSplit(c, l);
    }
  }

  /** After a page is freed its extent is not full. */
  lemma FreedExtentNotFull(c: Config, d: Disk, l: nat)
    requires ValidConfig(c) && |d.meta.extentUsed| == c.maxExtents && ExtentOf(c, l) < c.maxExtents
    requires Bitmap.Valid(BitmapAt(c, d, ExtentOf(c, l)))
    requires BitmapAt(c, d, ExtentOf(c, l)).pageAllocated == d.meta.extentUsed[ExtentOf(c, l)]
    requires !IsPageFree(c, d, l)
    ensures DeAllocatePage(c, d, l).Some?
    ensures DeAllocatePage(c, d, l).value.meta.extentUsed[ExtentOf(c, l)] != BitmapSize(c)
  {
    var i := ExtentOf(c, l);
    DeAllocateClearsBit(c, d, l);
    var p := BitmapAt(c, DeAllocatePage(c, d, l).value, i);
    // the freed page's bit is clear, so the bitmap does not count every page
    assert !Bitmap.GetBit(p, OffsetOf(c, l));
    Bitmap.CountAllSet(p, BitmapSize(c));
  }

  // ---------------------------------------------------------------------------
  // Defects of the as-written DeAllocatePage

  /** Freeing a never-allocated page of a new disk wraps both uint32 counters to
      2^32 - 1, after which AllocatePage reports the disk full. */
  lemma DoubleFreeReportsFull(c: Config)
    requires ValidConfig(c) && c.maxExtents > 0
    ensures var d := DeAllocatePageAsWritten(c, Empty(c), 0);
      && d.meta.numAllocated == U32_LIMIT - 1
      && AllocatePage(c, d) == Success(Allocated(d, INVALID_PAGE_ID))
  {
  }

  /** The repaired DeAllocatePage refuses the same call and changes nothing. */
  lemma FreeOfFreePageIsRefused(c: Config)
    requires ValidConfig(c) && c.maxExtents > 0
    ensures DeAllocatePage(c, Empty(c), 0).None?
  {
    EmptyValid(c);
    EmptyBitmapAllClear(BitmapAt(c, Empty(c), 0));
  }

  /** Freeing the last page of an extent below the last open one lowers
      `num_extents_` as written, although the last open extent still holds
      pages: the meta page no longer keeps its own promises. */
  lemma AsWrittenShrinksLiveExtents(c: Config, d: Disk, l: nat)
    requires ValidConfig(c) && MetaValid(c, d.meta)
    requires ExtentOf(c, l) + 1 < d.meta.numExtents
    requires d.meta.extentUsed[ExtentOf(c, l)] == 1
    requires d.meta.extentUsed[d.meta.numExtents - 1] >= 1
    ensures var d' := DeAllocatePageAsWritten(c, d, l);
      && d'.meta.numExtents == d.meta.numExtents - 1
      && d'.meta.extentUsed[d'.meta.numExtents] == d.meta.extentUsed[d.meta.numExtents - 1]
      && !MetaValid(c, d'.meta)
  {
    var d' := DeAllocatePageAsWritten(c, d, l);
    assert d'.meta.extentUsed[d'.meta.numExtents] >= 1;
  }

  /** Once `num_extents_` has dropped below an extent that still holds pages and
      the extents before it have filled up again, AllocatePage re-zeroes that
      extent's bitmap and hands out its first page although it is in use. */
  lemma AllocateReissuesLivePage(c: Config, d: Disk, i: nat)
    requires ValidConfig(c) && |d.meta.extentUsed| == c.maxExtents
    requires d.meta.numAllocated < c.maxValidPageId
    requires i < c.maxExtents && d.meta.numExtents <= i
    requires forall j :: 0 <= j < i ==> d.meta.extentUsed[j] == BitmapSize(c)
    requires d.meta.extentUsed[i] != BitmapSize(c)
    requires !IsPageFree(c, d, Times(i, BitmapSize(c)))
    ensures AllocatePage(c, d).Success?
    ensures AllocatePage(c, d).value.pageId == Times(i, BitmapSize(c))
  {
    var b := BitmapSize(c);
    FirstNonFullIs(d.meta.extentUsed, b, 0, i);
    var phys := BitmapPhysId(c, i);
    var file := WritePhysicalPage(d.file, phys, Zeros(PageSize(c)));
    assert ReadPhysicalPage(c, file, phys) == Zeros(PageSize(c));
    Bitmap.DecodeZeros(PageSize(c));
  }
}
