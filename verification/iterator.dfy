/** IndexIterator: a position in the leaf chain of a B+ tree, and the tree's
    Begin and End. The leaf page pointer of the source becomes the leaf's
    page id, with INVALID_PAGE_ID for the null pointer; fetching a page the
    store does not hold is an error, as in BPlusTree. */
module IndexIterator {
  import opened Common
  import opened Wrappers
  import L = LeafPage
  import T = BPlusTree

  type Entry = L.Entry

  datatype Iter = Iter(valid: bool, pageId: PageId, index: int)

  /** The constructor: a valid iterator at slot `index` of the leaf
      `firstPageId`, which must be in the store. */
  function Make(t: T.Tree, firstPageId: PageId, index: int): (r: Result<Iter, T.TreeError>)
    ensures r.Success? <==> firstPageId in t.store
    ensures r.Success? ==> r.value == Iter(true, firstPageId, index)
  {
    if firstPageId !in t.store then Failure(T.MissingPage(firstPageId))
    else Success(Iter(true, firstPageId, index))
  }

  /** End: the iterator past the last entry. The one-argument constructor is
      not part of this model; it is taken to leave no page and slot 0, as
      operator++ does when it runs off the chain. */
  function End(): (it: Iter)
    ensures !it.valid && it.pageId == INVALID_PAGE_ID
  {
    Iter(false, INVALID_PAGE_ID, 0)
  }

  /** operator*: the entry under the iterator, or a default pair for an
      invalid one. */
  function Deref(t: T.Tree, it: Iter): (r: Result<Entry, T.TreeError>)
    ensures !it.valid ==> r == Success(L.Entry(0, 0))
    ensures it.valid && r.Success? ==> r.value in T.LeafView(t.store, it.pageId)
    ensures (it.valid && it.pageId in t.store && t.store[it.pageId].LeafNode?
             && 0 <= it.index < |t.store[it.pageId].leaf.entries|) ==> r.Success?
  {
    if !it.valid then Success(L.Entry(0, 0))
    else
      var leaf :- T.GetLeaf(t, it.pageId);
      if 0 <= it.index < |leaf.entries| then Success(leaf.entries[it.index])
      else Failure(T.StaleRead)
  }

  /** operator++: the next slot of the leaf, slot 0 of the next leaf, or End
      after the last leaf. */
  function Next(t: T.Tree, it: Iter): (r: Result<Iter, T.TreeError>)
    ensures !it.valid ==> r.Failure?
    ensures r.Success? ==>
      && it.pageId in t.store && t.store[it.pageId].LeafNode?
      && var leaf := t.store[it.pageId].leaf;
      && (it.index + 1 < |leaf.entries| ==> r.value == Iter(true, it.pageId, it.index + 1))
      && (it.index + 1 >= |leaf.entries| && leaf.nextPageId == INVALID_PAGE_ID ==> r.value == End())
      && (it.index + 1 >= |leaf.entries| && leaf.nextPageId != INVALID_PAGE_ID ==>
            r.value == Iter(true, leaf.nextPageId, 0) && leaf.nextPageId in t.store)
  {
    if !it.valid then Failure(T.MissingPage(INVALID_PAGE_ID))
    else
      var leaf :- T.GetLeaf(t, it.pageId);
      if it.index + 1 <= |leaf.entries| - 1 then Success(Iter(true, it.pageId, it.index + 1))
      else if leaf.nextPageId == INVALID_PAGE_ID then Success(End())
      else Make(t, leaf.nextPageId, 0)
  }

  /** operator==: validity, leaf and slot all agree. */
  predicate Equal(a: Iter, b: Iter) {
    a.valid == b.valid && a.pageId == b.pageId && a.index == b.index
  }

  /** operator!=. */
  predicate NotEqual(a: Iter, b: Iter) {
    !Equal(a, b)
  }

  /** Two iterators compare equal exactly when they are the same position,
      and unequal exactly when they are not. */
  lemma EqualIsSamePosition(a: Iter, b: Iter)
    ensures Equal(a, b) <==> a == b
    ensures NotEqual(a, b) <==> a != b
  {
  }

  // ---------------------------------------------------------------------------
  // Begin

  /** The descent of Begin: slot 0 of every internal page down to a leaf. */
  function LeftmostFrom(t: T.Tree, id: PageId, fuel: nat): (r: Result<PageId, T.TreeError>)
    ensures r.Success? ==> r.value in t.store && t.store[r.value].LeafNode?
    decreases fuel
  {
    if id !in t.store then Failure(T.MissingPage(id))
    else match t.store[id]
      case LeafNode(_) => Success(id)
      case InternalNode(p) =>
        if |p.slots| == 0 then Failure(T.StaleRead)
        else if fuel == 0 then Failure(T.Corrupt)
        else LeftmostFrom(t, p.slots[0].child, fuel - 1)
  }

  /** Begin: slot 0 of the leftmost leaf. An empty tree has no root page to
      fetch. */
  function Begin(t: T.Tree): (r: Result<Iter, T.TreeError>)
    ensures T.IsEmpty(t) && INVALID_PAGE_ID !in t.store ==> r == Failure(T.MissingPage(INVALID_PAGE_ID))
    ensures r.Success? ==>
      r.value.valid && r.value.index == 0 && r.value.pageId in t.store && t.store[r.value.pageId].LeafNode?
  {
    var leafId :- LeftmostFrom(t, t.rootPageId, |t.store|);
    Make(t, leafId, 0)
  }

  /** Begin(key): the slot of `key` in the leaf the descent reaches; a key
      that leaf does not hold fails KeyIndex's ASSERT. */
  function BeginAt(t: T.Tree, key: T.Key): (r: Result<Iter, T.TreeError>)
    ensures r.Success? ==> r.value.valid && r.value.pageId in t.store
    ensures r.Success? ==> Deref(t, r.value).Success? && Deref(t, r.value).value.key == key
    ensures r.Success? && !T.IsEmpty(t) ==> T.GetValue(t, key) == Success(Some(Deref(t, r.value).value.value))
  {
    var leafId :- T.FindLeaf(t, key);
    var leaf := t.store[leafId].leaf;
    if !L.SortedKeys(leaf.entries) then Failure(T.Corrupt)
    else if !L.HasKey(leaf.entries, key) then Failure(T.AssertionFailed)
    else
      var i := L.IndexOfKey(leaf.entries, key);
      assert L.Lookup(leaf.entries, key) == Some(leaf.entries[i].value);
      Make(t, leafId, i)
  }

  // ---------------------------------------------------------------------------
  // Walking the chain

  /** The entries of the leaf chain from `id` to the end, following at most
      `hops` links; None when the chain leaves the store, meets an empty or
      internal page, or is longer. */
  function ChainFrom(t: T.Tree, id: PageId, hops: nat): (r: Option<seq<Entry>>)
    ensures r.Some? && id != INVALID_PAGE_ID ==> id in t.store && t.store[id].LeafNode? && |r.value| > 0
    decreases hops
  {
    if id == INVALID_PAGE_ID then Some([])
    else if hops == 0 || id !in t.store || t.store[id].InternalNode? || |t.store[id].leaf.entries| == 0 then None
    else
      var rest :- ChainFrom(t, t.store[id].leaf.nextPageId, hops - 1);
      Some(t.store[id].leaf.entries + rest)
  }

  /** `n` rounds of operator* then operator++: the entries seen and the
      final iterator. */
  function Walk(t: T.Tree, it: Iter, n: nat): (r: Result<(seq<Entry>, Iter), T.TreeError>)
    ensures r.Success? ==> |r.value.0| == n
    decreases n
  {
    if n == 0 then Success(([], it))
    else
      var e :- Deref(t, it);
      var it' :- Next(t, it);
      var tail :- Walk(t, it', n - 1);
      Success(([e] + tail.0, tail.1))
  }

  /** From slot `i` of a leaf, the iterator sees the rest of that leaf and
      then every later leaf of the chain, in order, and ends equal to End. */
  lemma {:induction false} WalkSeesChain(t: T.Tree, id: PageId, i: nat, hops: nat)
    requires id in t.store && t.store[id].LeafNode?
    requires i < |t.store[id].leaf.entries|
    requires ChainFrom(t, t.store[id].leaf.nextPageId, hops).Some?
    ensures var es := t.store[id].leaf.entries;
      var rest := ChainFrom(t, t.store[id].leaf.nextPageId, hops).value;
      Walk(t, Iter(true, id, i), |es| - i + |rest|) == Success((es[i..] + rest, End()))
    decreases hops, |t.store[id].leaf.entries| - i
  {
    var leaf := t.store[id].leaf;
    var es := leaf.entries;
    var rest := ChainFrom(t, leaf.nextPageId, hops).value;
    var n := |es| - i + |rest|;
    assert Deref(t, Iter(true, id, i)) == Success(es[i]);
    if i + 1 < |es| {
      WalkSeesChain(t, id, i + 1, hops);
      assert Next(t, Iter(true, id, i)) == Success(Iter(true, id, i + 1));
      assert [es[i]] + (es[i + 1..] + rest) == es[i..] + rest;
    } else if leaf.nextPageId == INVALID_PAGE_ID {
      assert rest == [];
      assert Next(t, Iter(true, id, i)) == Success(End());
      assert es[i..] == [es[i]];
    } else {
      var next := leaf.nextPageId;
      var nextLeaf := t.store[next].leaf;
      var rest2 := ChainFrom(t, nextLeaf.nextPageId, hops - 1).value;
      assert rest == nextLeaf.entries + rest2;
      WalkSeesChain(t, next, 0, hops - 1);
      assert Next(t, Iter(true, id, i)) == Success(Iter(true, next, 0));
      assert es[i..] == [es[i]];
      assert nextLeaf.entries[0..] == nextLeaf.entries;
    }
  }

  /** Starting from Begin, repeated operator++ visits every entry of the leaf
      chain in chain order and ends equal to End. */
  lemma BeginWalksChain(t: T.Tree, hops: nat)
    requires T.Fresh(t) && Begin(t).Success?
    requires ChainFrom(t, Begin(t).value.pageId, hops + 1).Some?
    ensures var es := ChainFrom(t, Begin(t).value.pageId, hops + 1).value;
      Walk(t, Begin(t).value, |es|) == Success((es, End()))
  {
    var id := Begin(t).value.pageId;
    var leaf := t.store[id].leaf;
    assert id != INVALID_PAGE_ID;
    var rest := ChainFrom(t, leaf.nextPageId, hops);
    assert rest.Some? && ChainFrom(t, id, hops + 1).value == leaf.entries + rest.value;
    WalkSeesChain(t, id, 0, hops);
    assert leaf.entries[0..] == leaf.entries;
  }
}
