/** PageArrays: the leaf and internal pages in their in-memory form, a slot
    array with room for more slots than are live. Only the first `size` slots
    are live; the slots above hold whatever was last written there. This form
    shows the reads of the slot one past the live ones: leaf Lookup and
    KeyIndex, and internal my_lower_bound and Remove. LeafPage and
    InternalPage model the live slots alone, which is the behaviour the rest
    of the model uses. */
module PageArrays {
  import opened Wrappers
  import L = LeafPage
  import I = InternalPage

  type Key = int

  /** A slot array: `mem` is every slot the page has room for. */
  datatype Slots<T> = Slots(mem: seq<T>, size: int)

  /** The slot one past the live ones lies inside the page. */
  predicate Fits<T>(a: Slots<T>) {
    0 <= a.size < |a.mem|
  }

  function Live<T>(a: Slots<T>): (live: seq<T>)
    requires 0 <= a.size <= |a.mem|
    ensures |live| == a.size
  {
    a.mem[..a.size]
  }

  /** The copy loop `for i in [start, end]: array_[i] = array_[i + 1]`. */
  function ShiftDown<T>(mem: seq<T>, start: int, end: int): (r: seq<T>)
    requires 0 <= start && end + 1 < |mem|
    ensures |r| == |mem|
    ensures forall j :: 0 <= j < |mem| && (j < start || j > end) ==> r[j] == mem[j]
    ensures forall j :: start <= j <= end ==> r[j] == mem[j + 1]
  {
    if start > end then mem else mem[..start] + mem[start + 1..end + 2] + mem[end + 1..]
  }

  // ---------------------------------------------------------------------------
  // Leaf

  /** Lookup as written: the slot at the lower bound is read even when the
      lower bound is `size`, so a stale slot can answer. */
  function LeafLookupAsWritten(a: Slots<L.Entry>, key: Key): (r: Option<int>)
    requires Fits(a)
    ensures r.Some? ==> exists i :: 0 <= i <= a.size && a.mem[i] == L.Entry(key, r.value)
    ensures L.LowerBound(Live(a), key) < a.size || a.mem[a.size].key != key ==> r == L.Lookup(Live(a), key)
  {
    var i := L.LowerBound(Live(a), key);
    if a.mem[i].key == key then Some(a.mem[i].value) else None
  }

  /** Lookup with the read kept below `size`: exactly the live-slot Lookup. */
  function LeafLookup(a: Slots<L.Entry>, key: Key): (r: Option<int>)
    requires 0 <= a.size <= |a.mem|
    ensures r == L.Lookup(Live(a), key)
    ensures L.SortedKeys(Live(a)) ==> (r.Some? <==> L.HasKey(Live(a), key))
  {
    var i := L.LowerBound(Live(a), key);
    if i < a.size && a.mem[i].key == key then Some(a.mem[i].value) else None
  }

  /** The binary search of KeyIndex, one loop round per call; it runs over
      slots 0 to `size` inclusive. The result is the final (start, end, mid). */
  function KeySearch(mem: seq<L.Entry>, key: Key, start: int, end: int, mid: int): (r: (int, int, int))
    requires 0 <= start && end < |mem|
    requires start <= end ==> start <= mid <= end
    ensures r.0 <= r.1 ==> start <= r.2 <= end && mem[r.2].key == key
    decreases end - start
  {
    if start > end then (start, end, mid)
    else if key < mem[mid].key then KeySearch(mem, key, start, mid - 1, (start + mid - 1) / 2)
    else if key == mem[mid].key then (start, end, mid)
    else KeySearch(mem, key, mid + 1, end, (mid + 1 + end) / 2)
  }

  /** KeyIndex as written: None when its ASSERT(start <= end) fails. */
  function KeyIndexAsWritten(a: Slots<L.Entry>, key: Key): (r: Option<nat>)
    requires Fits(a)
    ensures r.Some? ==> r.value <= a.size && a.mem[r.value].key == key
  {
    var (start, end, mid) := KeySearch(a.mem, key, 0, a.size, a.size / 2);
    if start <= end then Some(mid) else None
  }

  /** RemoveAndDeleteRecord as written: Lookup, then KeyIndex, then the copy
      loop over [index, size - 2] and size - 1. None when KeyIndex's ASSERT
      fails. */
  function LeafRemoveAsWritten(a: Slots<L.Entry>, key: Key): (r: Option<Slots<L.Entry>>)
    requires Fits(a)
    ensures r.Some? ==> |r.value.mem| == |a.mem|
    ensures LeafLookupAsWritten(a, key).None? ==> r == Some(a)
  {
    if LeafLookupAsWritten(a, key).None? then Some(a)
    else
      var i :- KeyIndexAsWritten(a, key);
      Some(Slots(ShiftDown(a.mem, i, a.size - 2), a.size - 1))
  }

  /** On a sorted live part, the search finds a live key: every slot it
      compares lies below `size`. */
  lemma {:induction false} KeySearchFindsLiveKey(mem: seq<L.Entry>, size: int, key: Key, start: int, end: int, mid: int, k: int)
    requires 0 <= size < |mem| && 0 <= k < size && mem[k].key == key
    requires forall i :: 0 <= i < size ==> (i < k ==> mem[i].key < key) && (k < i ==> key < mem[i].key)
    requires 0 <= start <= k <= end <= size
    requires start <= mid <= end && mid < size
    ensures var r := KeySearch(mem, key, start, end, mid);
      r.0 <= r.1 && r.2 == k
    decreases end - start
  {
    if key < mem[mid].key {
      KeySearchFindsLiveKey(mem, size, key, start, mid - 1, (start + mid - 1) / 2, k);
    } else if key == mem[mid].key {
    } else {
      KeySearchFindsLiveKey(mem, size, key, mid + 1, end, (mid + 1 + end) / 2, k);
    }
  }

  /** In a strictly sorted live part, key order is slot order. */
  lemma KeyOrderIsSlotOrder(mem: seq<L.Entry>, size: int, i: int, j: int)
    requires 0 <= size < |mem| && forall i, j :: 0 <= i < j < size ==> mem[i].key < mem[j].key
    requires 0 <= i < size && 0 <= j < size
    ensures mem[i].key < mem[j].key ==> i < j
    ensures mem[i].key <= mem[j].key ==> i <= j
  {
  }

  /** KeyIndex finds a key of a sorted live part at its live position. */
  lemma KeyIndexFindsLiveKey(a: Slots<L.Entry>, key: Key)
    requires Fits(a) && L.SortedKeys(Live(a)) && L.HasKey(Live(a), key)
    ensures KeyIndexAsWritten(a, key) == Some(L.IndexOfKey(Live(a), key))
  {
    var k := L.IndexOfKey(Live(a), key);
    assert Live(a)[k] == a.mem[k];
    assert forall i, j :: 0 <= i < j < a.size ==> a.mem[i].key < a.mem[j].key by {
      forall i, j | 0 <= i < j < a.size
        ensures a.mem[i].key < a.mem[j].key
      {
        assert Live(a)[i] == a.mem[i] && Live(a)[j] == a.mem[j];
      }
    }
    forall i | 0 <= i < a.size
      ensures (i < k ==> a.mem[i].key < key) && (k < i ==> key < a.mem[i].key)
    {
      KeyOrderIsSlotOrder(a.mem, a.size, i, k);
      KeyOrderIsSlotOrder(a.mem, a.size, k, i);
    }
    KeySearchFindsLiveKey(a.mem, a.size, key, 0, a.size, a.size / 2, k);
  }

  /** On a sorted leaf whose stale slot does not hold `key`, the as-written
      removal agrees with the live-slot RemoveAndDeleteRecord. */
  lemma LeafRemoveAgreesWhenSlotIsClean(a: Slots<L.Entry>, l: L.Leaf, key: Key)
    requires Fits(a) && l.entries == Live(a) && L.SortedKeys(l.entries) && a.mem[a.size].key != key
    ensures LeafRemoveAsWritten(a, key).Some?
    ensures var r := LeafRemoveAsWritten(a, key).value;
      0 <= r.size <= |r.mem| && Live(r) == L.RemoveAndDeleteRecord(l, key).0.entries
  {
    var live := Live(a);
    if L.HasKey(live, key) {
      KeyIndexFindsLiveKey(a, key);
      var i := L.IndexOfKey(live, key);
      var r := LeafRemoveAsWritten(a, key).value;
      assert r.mem == ShiftDown(a.mem, i, a.size - 2);
      assert Live(r) == live[..i] + live[i + 1..];
    } else {
      assert L.Lookup(live, key).None?;
    }
  }

  /** A leaf holding 1 and 2, two slots live out of three. */
  function TwoKeyLeaf(): (a: Slots<L.Entry>)
    ensures Fits(a) && Live(a) == [L.Entry(1, 10), L.Entry(2, 20)]
  {
    Slots([L.Entry(1, 10), L.Entry(2, 20), L.Entry(0, 0)], 2)
  }

  /** Removing the largest key leaves it in the stale slot: Lookup still finds
      it, and removing it again drops the live entry for key 1. The live-slot
      model finds nothing and changes nothing. */
  lemma StaleSlotAnswersAfterRemove()
    ensures var once := LeafRemoveAsWritten(TwoKeyLeaf(), 2);
      && once == Some(Slots(TwoKeyLeaf().mem, 1))
      && Live(once.value) == [L.Entry(1, 10)]
      && LeafLookupAsWritten(once.value, 2) == Some(20)
      && LeafRemoveAsWritten(once.value, 2) == Some(Slots(TwoKeyLeaf().mem, 0))
      && L.Lookup(Live(once.value), 2) == None
      && var l := L.Leaf(0, 0, 0, 3, Live(once.value));
      L.RemoveAndDeleteRecord(l, 2).0 == l
  {
    var a := TwoKeyLeaf();
    assert L.LowerBound(Live(a), 2) == 1;
    assert KeySearch(a.mem, 2, 0, 2, 1) == (0, 2, 1);
    var once := Slots(a.mem, 1);
    assert Live(once) == [L.Entry(1, 10)];
    assert L.LowerBound(Live(once), 2) == 1;
    assert KeySearch(a.mem, 2, 0, 1, 0) == KeySearch(a.mem, 2, 1, 1, 1);
    assert !L.HasKey(Live(once), 2);
  }

  // ---------------------------------------------------------------------------
  // Internal

  /** The scan loop of my_lower_bound: slot i + 1 is compared while
      i <= size - 2. */
  function ScanLive(mem: seq<I.Slot>, size: int, key: Key, i: nat): (r: nat)
    requires 1 <= i && size <= |mem|
    ensures i <= r
    ensures i <= size - 1 ==> r <= size - 1
    decreases size - i
  {
    if i <= size - 2 && key >= mem[i + 1].key then ScanLive(mem, size, key, i + 1) else i
  }

  /** my_lower_bound as written. Slot 1 is compared whenever the page is not
      empty; on a page of one slot it is stale. */
  function InternalLowerBoundAsWritten(a: Slots<I.Slot>, key: Key): (r: nat)
    requires Fits(a) && 2 <= |a.mem|
    ensures a.size == 1 ==> r == (if key < a.mem[1].key then 0 else 1)
  {
    if a.size == 0 then 0
    else if key < a.mem[1].key then 0
    else ScanLive(a.mem, a.size, key, 1)
  }

  lemma {:induction false} ScanLiveIsScanFrom(mem: seq<I.Slot>, size: int, key: Key, i: nat)
    requires 1 <= i < size <= |mem|
    requires forall j :: 1 <= j <= i ==> mem[j].key <= key
    ensures ScanLive(mem, size, key, i) == I.ScanFrom(mem[..size], key, i)
    decreases size - i
  {
    if i <= size - 2 && key >= mem[i + 1].key {
      ScanLiveIsScanFrom(mem, size, key, i + 1);
    }
  }

  /** On a page of any size but one, the as-written scan is the route of the
      live slots. */
  lemma InternalLowerBoundIsRoute(a: Slots<I.Slot>, key: Key)
    requires Fits(a) && 2 <= |a.mem| && a.size != 1
    ensures InternalLowerBoundAsWritten(a, key) == I.Route(Live(a), key)
  {
    if a.size >= 2 && key >= a.mem[1].key {
      ScanLiveIsScanFrom(a.mem, a.size, key, 1);
    }
  }

  /** Lookup as written: the child of the slot my_lower_bound picks. */
  function InternalLookupAsWritten(a: Slots<I.Slot>, key: Key): (child: int)
    requires Fits(a) && 2 <= |a.mem|
    ensures a.size >= 2 ==> child == I.Lookup(I.Internal(0, 0, |a.mem|, Live(a)), key)
  {
    var place := InternalLowerBoundAsWritten(a, key);
    assert a.size >= 2 ==> place == I.Route(Live(a), key) by {
      if a.size >= 2 {
        InternalLowerBoundIsRoute(a, key);
      }
    }
    a.mem[place].child
  }

  /** A one-slot page whose stale slot 1 holds key 5: a key of 6 is routed to
      the stale child 9, while the page's only child is 7. */
  lemma OneSlotPageRoutesToStaleChild()
    ensures var a := Slots([I.Slot(0, 7), I.Slot(5, 9)], 1);
      && InternalLookupAsWritten(a, 6) == 9
      && I.Lookup(I.Internal(0, 0, 2, Live(a)), 6) == 7
  {
    var a := Slots([I.Slot(0, 7), I.Slot(5, 9)], 1);
    assert Live(a) == [I.Slot(0, 7)];
  }

  /** Remove as written: the copy loop runs to i = size - 1 and so reads the
      slot at `size`; that value lands above the new size, so the live slots
      are those of the live-slot Remove. */
  function InternalRemove(a: Slots<I.Slot>, index: nat): (r: Slots<I.Slot>)
    requires Fits(a) && index < a.size
    ensures 0 <= r.size <= |r.mem| && r.size == a.size - 1
    ensures Live(r) == Live(a)[..index] + Live(a)[index + 1..]
  {
    var r := Slots(ShiftDown(a.mem, index, a.size - 1), a.size - 1);
    assert Live(r) == Live(a)[..index] + Live(a)[index + 1..];
    r
  }
}
