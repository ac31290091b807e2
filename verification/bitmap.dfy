/** One extent's allocation bitmap (BitmapPage<PageSize>): a count of allocated
    pages, a next-free hint and MAX_CHARS bytes whose bits mark allocated pages.
    Bit `o` lives in byte `o / 8` at position `o % 8` (least significant first). */
module Bitmap {
  import opened Wrappers
  import opened Bytes

  datatype BitmapPage = BitmapPage(pageAllocated: u32, nextFreePage: u32, bytes: seq<byte>)

  /** GetMaxSupportedSize: one page per bit. */
  function MaxSupportedSize(bm: BitmapPage): nat {
    8 * |bm.bytes|
  }

  // ---------------------------------------------------------------------------
  // Bits of one byte

  /** `(b >> r) & 0x01`: bit `r` of `b`, least significant first. */
  predicate BitOf(b: nat, r: nat) {
    if r == 0 then b % 2 == 1 else BitOf(b / 2, r - 1)
  }

  function Pow2(n: nat): (p: nat)
    ensures p >= 1
  {
    if n == 0 then 1 else 2 * Pow2(n - 1)
  }

  /** One byte after EditBit: `b | true_mask[r]` when `v`, `b & false_mask[r]`
      otherwise, where the masks hold the single bit `1 << r` and its complement.
      Written bit by bit: keep the low bit and recurse into the rest. */
  function WithBit(b: nat, r: nat, v: bool): nat {
    if r == 0 then 2 * (b / 2) + (if v then 1 else 0)
    else 2 * WithBit(b / 2, r - 1, v) + b % 2
  }

  /** Writing bit `r` sets that bit to `v` and keeps every other bit. */
  lemma {:induction false} WithBitSpec(b: nat, r: nat, v: bool, r': nat)
    ensures BitOf(WithBit(b, r, v), r') == if r' == r then v else BitOf(b, r')
  {
    var w := WithBit(b, r, v);
    if r == 0 {
      if r' > 0 {
        assert w / 2 == b / 2;
      }
    } else {
      assert w / 2 == WithBit(b / 2, r - 1, v) && w % 2 == b % 2;
      if r' > 0 {
        WithBitSpec(b / 2, r - 1, v, r' - 1);
      }
    }
  }

  /** Writing a bit below `n` keeps a value of `n` bits within `n` bits. */
  lemma {:induction false} WithBitBound(b: nat, r: nat, v: bool, n: nat)
    requires b < Pow2(n) && r < n
    ensures WithBit(b, r, v) < Pow2(n)
  {
    var p := Pow2(n - 1);
    assert Pow2(n) == 2 * p;
    assert b / 2 < p;
    if r > 0 {
      WithBitBound(b / 2, r - 1, v, n - 1);
    }
  }

  /** `b` is `2^n - 1` exactly when its low `n` bits are all set. */
  lemma {:induction false} AllOnes(b: nat, n: nat)
    requires b < Pow2(n)
    ensures b == Pow2(n) - 1 ==> forall k :: 0 <= k < n ==> BitOf(b, k)
    ensures b != Pow2(n) - 1 ==> exists k :: 0 <= k < n && !BitOf(b, k)
  {
    if n > 0 {
      var q, r, p := b / 2, b % 2, Pow2(n - 1);
      AllOnes(q, n - 1);
      assert b == 2 * q + r && 0 <= r < 2;
      assert Pow2(n) == 2 * p;
      if b == 2 * p - 1 {
        assert r == 1 && q == p - 1;
        forall k | 0 <= k < n
          ensures BitOf(b, k)
        {
          if k > 0 {
            assert BitOf(q, k - 1);
          }
        }
      } else if r == 0 {
        assert !BitOf(b, 0);
      } else {
        var k :| 0 <= k < n - 1 && !BitOf(q, k);
        assert !BitOf(b, k + 1);
      }
    }
  }

  /** A byte is 0xFF exactly when all eight of its bits are set. */
  lemma FullByte(b: byte)
    ensures b == 0xFF ==> forall k :: 0 <= k < 8 ==> BitOf(b, k)
    ensures b != 0xFF ==> exists k :: 0 <= k < 8 && !BitOf(b, k)
  {
    assert Pow2(8) == 256;
    AllOnes(b, 8);
  }

  /** No bit of zero is set. */
  lemma {:induction false} ZeroBits(r: nat)
    ensures !BitOf(0, r)
  {
    if r > 0 {
      ZeroBits(r - 1);
    }
  }

  // ---------------------------------------------------------------------------
  // Bits of the page

  /** GetBit: true for an allocated page. */
  predicate GetBit(bm: BitmapPage, offset: nat)
    requires offset < MaxSupportedSize(bm)
  {
    BitOf(bm.bytes[offset / 8], offset % 8)
  }

  /** EditBit: bit `offset` becomes `value`, every other bit and both counters stay. */
  function EditBit(bm: BitmapPage, offset: nat, value: bool): (r: BitmapPage)
    requires offset < MaxSupportedSize(bm)
    ensures r.pageAllocated == bm.pageAllocated && r.nextFreePage == bm.nextFreePage
    ensures MaxSupportedSize(r) == MaxSupportedSize(bm)
    ensures GetBit(r, offset) == value
    ensures forall o :: 0 <= o < MaxSupportedSize(bm) && o != offset ==> GetBit(r, o) == GetBit(bm, o)
  {
    var i := offset / 8;
    assert Pow2(8) == 256;
    WithBitBound(bm.bytes[i], offset % 8, value, 8);
    var r := bm.(bytes := bm.bytes[i := WithBit(bm.bytes[i], offset % 8, value)]);
    EditBitFrame(bm, offset, value, r);
    r
  }

  lemma EditBitFrame(bm: BitmapPage, offset: nat, value: bool, r: BitmapPage)
    requires offset < MaxSupportedSize(bm)
    requires WithBit(bm.bytes[offset / 8], offset % 8, value) < 256
    requires r == bm.(bytes := bm.bytes[offset / 8 := WithBit(bm.bytes[offset / 8], offset % 8, value)])
    ensures GetBit(r, offset) == value
    ensures forall o :: 0 <= o < MaxSupportedSize(bm) && o != offset ==> GetBit(r, o) == GetBit(bm, o)
  {
    WithBitSpec(bm.bytes[offset / 8], offset % 8, value, offset % 8);
    forall o | 0 <= o < MaxSupportedSize(bm) && o != offset
      ensures GetBit(r, o) == GetBit(bm, o)
    {
      if o / 8 == offset / 8 {
        WithBitSpec(bm.bytes[offset / 8], offset % 8, value, o % 8);
      }
    }
  }

  /** IsPageFree: the page's bit is clear. */
  predicate IsPageFree(bm: BitmapPage, offset: nat)
    requires offset < MaxSupportedSize(bm)
  {
    !GetBit(bm, offset)
  }

  // ---------------------------------------------------------------------------
  // GetNextFreePage

  /** The inner `while (1)` of GetNextFreePage: the first offset from `offset` on
      whose bit is clear, testing `(b & mask) == 0` with `mask == 1 << offset`.
      Once the uint8_t mask has shifted out (offset 8) the test succeeds. */
  function ClearBitFrom(b: byte, offset: nat): (r: nat)
    requires offset <= 8
    ensures offset <= r <= 8
    ensures forall k :: offset <= k < r ==> BitOf(b, k)
    ensures r < 8 ==> !BitOf(b, r)
    decreases 8 - offset
  {
    if offset == 8 then 8
    else if !BitOf(b, offset) then offset
    else ClearBitFrom(b, offset + 1)
  }

  /** The outer loop of GetNextFreePage from byte `i` on: skip full bytes, then
      take the first clear bit of the first byte that is not full. */
  function NextFreeFrom(bm: BitmapPage, i: nat): (r: nat)
    requires i <= |bm.bytes|
    ensures 8 * i <= r <= MaxSupportedSize(bm)
    ensures forall o :: 8 * i <= o < r ==> GetBit(bm, o)
    ensures r < MaxSupportedSize(bm) ==> !GetBit(bm, r)
    decreases |bm.bytes| - i
  {
    if i == |bm.bytes| then MaxSupportedSize(bm)
    else if bm.bytes[i] == 0xFF then
      FullByte(bm.bytes[i]);
      NextFreeFrom(bm, i + 1)
    else
      FullByte(bm.bytes[i]);
      var k := ClearBitFrom(bm.bytes[i], 0);
      assert forall o :: 8 * i <= o < 8 * i + k ==> o / 8 == i && o % 8 < k;
      assert (8 * i + k) / 8 == i && (8 * i + k) % 8 == k;
      8 * i + k
  }

  /** `h` is the lowest clear bit, or MaxSupportedSize when every bit is set. */
  ghost predicate IsLowestFree(bm: BitmapPage, h: int) {
    && 0 <= h <= MaxSupportedSize(bm)
    && (forall o :: 0 <= o < h ==> GetBit(bm, o))
    && (h < MaxSupportedSize(bm) ==> !GetBit(bm, h))
  }

  /** GetNextFreePage. */
  function GetNextFreePage(bm: BitmapPage): (r: nat)
    ensures IsLowestFree(bm, r)
  {
    NextFreeFrom(bm, 0)
  }

  // ---------------------------------------------------------------------------
  // Counting set bits

  /** Number of set bits among offsets [0, n). */
  function CountSetBelow(bm: BitmapPage, n: nat): (c: nat)
    requires n <= MaxSupportedSize(bm)
    ensures c <= n
  {
    if n == 0 then 0 else CountSetBelow(bm, n - 1) + (if GetBit(bm, n - 1) then 1 else 0)
  }

  function PopCount(bm: BitmapPage): nat {
    CountSetBelow(bm, MaxSupportedSize(bm))
  }

  /** Flipping one bit moves the count below `n` by exactly one when the bit is below `n`. */
  lemma {:induction false} CountAfterEdit(bm: BitmapPage, offset: nat, value: bool, n: nat)
    requires offset < MaxSupportedSize(bm) && n <= MaxSupportedSize(bm)
    requires GetBit(bm, offset) != value
    ensures CountSetBelow(EditBit(bm, offset, value), n)
         == CountSetBelow(bm, n) + (if offset < n then (if value then 1 else -1) else 0)
  {
    if n > 0 {
      CountAfterEdit(bm, offset, value, n - 1);
    }
  }

  /** When every bit below `n` is set the count is `n`, and conversely. */
  lemma {:induction false} CountAllSet(bm: BitmapPage, n: nat)
    requires n <= MaxSupportedSize(bm)
    ensures (CountSetBelow(bm, n) == n) == (forall o :: 0 <= o < n ==> GetBit(bm, o))
  {
    if n > 0 {
      CountAllSet(bm, n - 1);
    }
  }

  // ---------------------------------------------------------------------------
  // Allocation

  /** The state invariant of a bitmap page: the counter equals the number of set
      bits, and the hint is a clear bit, or MaxSupportedSize when the page is full. */
  ghost predicate Valid(bm: BitmapPage) {
    && bm.pageAllocated == PopCount(bm)
    && bm.nextFreePage <= MaxSupportedSize(bm)
    && (bm.nextFreePage < MaxSupportedSize(bm) ==> !GetBit(bm, bm.nextFreePage))
    && (bm.nextFreePage == MaxSupportedSize(bm) ==> PopCount(bm) == MaxSupportedSize(bm))
  }

  datatype Allocation = Allocation(offset: nat, page: BitmapPage)

  /** AllocatePage: hand out the hinted page when it is in range and clear. */
  function AllocatePage(bm: BitmapPage): (r: Option<Allocation>)
    requires MaxSupportedSize(bm) < U32_LIMIT
    ensures r.None? <==> bm.nextFreePage >= MaxSupportedSize(bm) || GetBit(bm, bm.nextFreePage)
    ensures r.Some? ==> var p := r.value.page;
      && r.value.offset == bm.nextFreePage
      && MaxSupportedSize(p) == MaxSupportedSize(bm)
      && GetBit(p, r.value.offset)
      && (forall o :: 0 <= o < MaxSupportedSize(bm) && o != r.value.offset ==> GetBit(p, o) == GetBit(bm, o))
      && p.pageAllocated == Inc32(bm.pageAllocated)
      && IsLowestFree(p, p.nextFreePage)
  {
    if bm.nextFreePage >= MaxSupportedSize(bm) then None
    else if GetBit(bm, bm.nextFreePage) then None
    else
      var offset := bm.nextFreePage;
      var edited := EditBit(bm, offset, true);
      var counted := edited.(pageAllocated := Inc32(edited.pageAllocated));
      assert forall o :: 0 <= o < MaxSupportedSize(bm) ==> GetBit(counted, o) == GetBit(edited, o);
      var next := GetNextFreePage(counted);
      Some(Allocation(offset, counted.(nextFreePage := next)))
  }

  /** DeAllocatePage: clear an allocated bit and point the hint at it. */
  function DeAllocatePage(bm: BitmapPage, offset: nat): (r: Option<BitmapPage>)
    requires MaxSupportedSize(bm) < U32_LIMIT
    ensures r.None? <==> offset >= MaxSupportedSize(bm) || !GetBit(bm, offset)
    ensures r.Some? ==> var p := r.value;
      && MaxSupportedSize(p) == MaxSupportedSize(bm)
      && !GetBit(p, offset)
      && (forall o :: 0 <= o < MaxSupportedSize(bm) && o != offset ==> GetBit(p, o) == GetBit(bm, o))
      && p.pageAllocated == Dec32(bm.pageAllocated)
      && p.nextFreePage == offset
  {
    if offset >= MaxSupportedSize(bm) then None
    else if !GetBit(bm, offset) then None
    else
      var edited := EditBit(bm, offset, false);
      Some(edited.(pageAllocated := Dec32(edited.pageAllocated), nextFreePage := offset))
  }

  lemma AllocatePreservesValid(bm: BitmapPage)
    requires MaxSupportedSize(bm) < U32_LIMIT
    requires Valid(bm)
    ensures AllocatePage(bm).Some? ==> Valid(AllocatePage(bm).value.page)
  {
    var r := AllocatePage(bm);
    if r.Some? {
      var p := r.value.page;
      var edited := EditBit(bm, bm.nextFreePage, true);
      CountAfterEdit(bm, bm.nextFreePage, true, MaxSupportedSize(bm));
      SameBitsSameCount(edited, p, MaxSupportedSize(bm));
      CountAllSet(p, MaxSupportedSize(p));
    }
  }

  lemma {:induction false} SameBitsSameCount(a: BitmapPage, b: BitmapPage, n: nat)
    requires n <= MaxSupportedSize(a) && MaxSupportedSize(a) == MaxSupportedSize(b)
    requires forall o :: 0 <= o < n ==> GetBit(a, o) == GetBit(b, o)
    ensures CountSetBelow(a, n) == CountSetBelow(b, n)
  {
    if n > 0 {
      SameBitsSameCount(a, b, n - 1);
    }
  }

  lemma DeAllocatePreservesValid(bm: BitmapPage, offset: nat)
    requires MaxSupportedSize(bm) < U32_LIMIT
    requires Valid(bm)
    ensures DeAllocatePage(bm, offset).Some? ==> Valid(DeAllocatePage(bm, offset).value)
  {
    var r := DeAllocatePage(bm, offset);
    if r.Some? {
      var p := r.value;
      var edited := EditBit(bm, offset, false);
      CountAfterEdit(bm, offset, false, MaxSupportedSize(bm));
      SameBitsSameCount(edited, p, MaxSupportedSize(bm));
    }
  }

  /** A valid bitmap that is not full always honours AllocatePage. */
  lemma AllocateSucceedsWhenNotFull(bm: BitmapPage)
    requires MaxSupportedSize(bm) < U32_LIMIT
    requires Valid(bm) && bm.pageAllocated < MaxSupportedSize(bm)
    ensures AllocatePage(bm).Some?
  {
  }

  /** Freeing a page makes it the very next page AllocatePage hands out. */
  lemma DeAllocateThenAllocate(bm: BitmapPage, offset: nat)
    requires MaxSupportedSize(bm) < U32_LIMIT
    requires DeAllocatePage(bm, offset).Some?
    ensures var p := DeAllocatePage(bm, offset).value;
      AllocatePage(p).Some? && AllocatePage(p).value.offset == offset
  {
  }

  /** IsPageFree flips to false on allocation and back to true on deallocation. */
  lemma AllocateThenNotFree(bm: BitmapPage)
    requires MaxSupportedSize(bm) < U32_LIMIT
    requires AllocatePage(bm).Some?
    ensures var a := AllocatePage(bm).value;
      a.offset < MaxSupportedSize(a.page) && !IsPageFree(a.page, a.offset) && IsPageFree(bm, a.offset)
  {
  }

  lemma DeAllocateThenFree(bm: BitmapPage, offset: nat)
    requires MaxSupportedSize(bm) < U32_LIMIT
    requires DeAllocatePage(bm, offset).Some?
    ensures offset < MaxSupportedSize(bm) && IsPageFree(DeAllocatePage(bm, offset).value, offset)
    ensures !IsPageFree(bm, offset)
  {
  }

  // ---------------------------------------------------------------------------
  // On-disk image: uint32 page_allocated_, uint32 next_free_page_, bytes

  function Encode(bm: BitmapPage): (page: seq<byte>)
    ensures |page| == 8 + |bm.bytes|
  {
    EncodeU32(bm.pageAllocated) + EncodeU32(bm.nextFreePage) + bm.bytes
  }

  function Decode(page: seq<byte>): (bm: BitmapPage)
    requires |page| >= 8
    ensures |bm.bytes| == |page| - 8
  {
    BitmapPage(ReadU32(page, 0), ReadU32(page, 4), page[8..])
  }

  lemma DecodeEncode(bm: BitmapPage)
    ensures Decode(Encode(bm)) == bm
  {
    var page := Encode(bm);
    assert page[0..4] == EncodeU32(bm.pageAllocated);
    assert page[4..8] == EncodeU32(bm.nextFreePage);
    assert page[8..] == bm.bytes;
    DecodeEncodeU32(bm.pageAllocated);
    DecodeEncodeU32(bm.nextFreePage);
  }

  /** A zero-filled page reads as an empty bitmap: no page allocated, hint 0. */
  lemma DecodeZeros(n: nat)
    requires n >= 8 && 8 * (n - 8) < U32_LIMIT
    ensures var bm := Decode(Zeros(n));
      && bm.pageAllocated == 0 && bm.nextFreePage == 0
      && MaxSupportedSize(bm) == 8 * (n - 8)
      && (forall o :: 0 <= o < MaxSupportedSize(bm) ==> !GetBit(bm, o))
      && Valid(bm)
  {
    var bm := Decode(Zeros(n));
    assert Zeros(n)[0..4] == [0, 0, 0, 0];
    assert Zeros(n)[4..8] == [0, 0, 0, 0];
    forall o | 0 <= o < MaxSupportedSize(bm)
      ensures !GetBit(bm, o)
    {
      assert bm.bytes[o / 8] == 0;
      ZeroBits(o % 8);
    }
    NoneSetCount(bm, MaxSupportedSize(bm));
  }

  lemma {:induction false} NoneSetCount(bm: BitmapPage, n: nat)
    requires n <= MaxSupportedSize(bm)
    requires forall o :: 0 <= o < n ==> !GetBit(bm, o)
    ensures CountSetBelow(bm, n) == 0
  {
    if n > 0 {
      NoneSetCount(bm, n - 1);
    }
  }
}
