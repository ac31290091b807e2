/** BPlusTree: the tree algorithms over a page store, a map from page id to
    leaf or internal page. The buffer pool's pin and unpin calls become
    nothing; fetching a page that is not in the store is an error, as is a
    page of the wrong kind. Walks up and down parent and child links carry a
    fuel bound (the store's size) so that a corrupted store ends in an error
    rather than a loop. Page allocation is a counter bounded by a page limit. */
module BPlusTree {
  import opened Common
  import opened Wrappers
  import L = LeafPage
  import I = InternalPage

  type Key = int
  type Entry = L.Entry

  datatype Node = LeafNode(leaf: L.Leaf) | InternalNode(inner: I.Internal)

  /** leaf_max_size_ and internal_max_size_ from the constructor, the two pages'
      GetMinSize (not part of this model, so given here) and the number of
      page ids the buffer pool can hand out. */
  datatype Config = Config(leafMaxSize: int, internalMaxSize: int, leafMinSize: nat, internalMinSize: nat, pageLimit: nat)

  datatype Tree = Tree(cfg: Config, rootPageId: PageId, store: map<PageId, Node>, nextPageId: nat)

  /** Why an operation stops: no page left ("out of memory"), a page the store
      does not hold, a page of the other kind, a failed ASSERT, a read of a
      slot beyond the page's size, or a store whose links go round. */
  datatype TreeError = OutOfMemory | MissingPage(id: PageId) | WrongKind(id: PageId) | AssertionFailed | StaleRead | Corrupt

  type Store = map<PageId, Node>

  // ---------------------------------------------------------------------------
  // Pages in the store

  function ParentOf(n: Node): PageId {
    match n
    case LeafNode(l) => l.parentId
    case InternalNode(p) => p.parentId
  }

  function WithParent(n: Node, parentId: PageId): (n': Node)
    ensures ParentOf(n') == parentId && n'.LeafNode? == n.LeafNode?
    ensures n.LeafNode? ==> n'.leaf.entries == n.leaf.entries
  {
    match n
    case LeafNode(l) => LeafNode(l.(parentId := parentId))
    case InternalNode(p) => InternalNode(p.(parentId := parentId))
  }

  function Size(n: Node): nat {
    match n
    case LeafNode(l) => |l.entries|
    case InternalNode(p) => |p.slots|
  }

  function MinSize(cfg: Config, n: Node): nat {
    if n.LeafNode? then cfg.leafMinSize else cfg.internalMinSize
  }

  /** The entries a page holds: its entries if it is a leaf, none otherwise. */
  function LeafView(s: Store, id: PageId): seq<Entry> {
    if id in s && s[id].LeafNode? then s[id].leaf.entries else []
  }

  /** Some leaf of the store holds `e`. */
  ghost predicate Holds(s: Store, e: Entry) {
    exists id :: e in LeafView(s, id)
  }

  /** Every leaf keeps its entries. */
  ghost predicate SameLeaves(s: Store, s': Store) {
    forall id :: LeafView(s', id) == LeafView(s, id)
  }

  ghost predicate HoldsSame(s: Store, s': Store) {
    forall e :: Holds(s, e) <==> Holds(s', e)
  }

  /** Every page id in use is below the allocation counter: the disk
      manager's bitmap never hands out a page that is still allocated. */
  predicate Fresh(t: Tree) {
    forall id :: id in t.store ==> 0 <= id < t.nextPageId
  }

  /** `b` is `a` with at most its parent link changed. */
  predicate Reparented(a: Node, b: Node) {
    || (a.LeafNode? && b.LeafNode? && b.leaf == a.leaf.(parentId := b.leaf.parentId))
    || (a.InternalNode? && b.InternalNode? && b.inner == a.inner.(parentId := b.inner.parentId))
  }

  /** The same pages, with at most their parent links changed. */
  predicate OnlyParentsChange(s: Store, s': Store) {
    s'.Keys == s.Keys && forall id :: id in s ==> Reparented(s[id], s'[id])
  }

  lemma OnlyParentsChangeKeepsLeaves(s: Store, s': Store)
    requires OnlyParentsChange(s, s')
    ensures SameLeaves(s, s')
  {
    forall id ensures LeafView(s', id) == LeafView(s, id) {
      if id in s {
        assert Reparented(s[id], s'[id]);
      }
    }
  }

  function GetNode(t: Tree, id: PageId): (r: Result<Node, TreeError>)
    ensures r.Success? <==> id in t.store
    ensures r.Success? ==> r.value == t.store[id]
  {
    if id in t.store then Success(t.store[id]) else Failure(MissingPage(id))
  }

  function GetLeaf(t: Tree, id: PageId): (r: Result<L.Leaf, TreeError>)
    ensures r.Success? <==> id in t.store && t.store[id].LeafNode?
    ensures r.Success? ==> t.store[id] == LeafNode(r.value)
  {
    if id !in t.store then Failure(MissingPage(id))
    else if t.store[id].InternalNode? then Failure(WrongKind(id))
    else Success(t.store[id].leaf)
  }

  function GetInternal(t: Tree, id: PageId): (r: Result<I.Internal, TreeError>)
    ensures r.Success? <==> id in t.store && t.store[id].InternalNode?
    ensures r.Success? ==> t.store[id] == InternalNode(r.value)
  {
    if id !in t.store then Failure(MissingPage(id))
    else if t.store[id].LeafNode? then Failure(WrongKind(id))
    else Success(t.store[id].inner)
  }

  /** NewPage: the next page id, or OutOfMemory once the limit is reached. */
  function Allocate(t: Tree): (r: Result<(Tree, PageId), TreeError>)
    ensures r.Failure? <==> t.nextPageId >= t.cfg.pageLimit
    ensures r.Success? ==>
      && r.value.1 == t.nextPageId != INVALID_PAGE_ID
      && r.value.0 == t.(nextPageId := t.nextPageId + 1)
      && (Fresh(t) ==> r.value.1 !in t.store)
  {
    if t.nextPageId >= t.cfg.pageLimit then Failure(OutOfMemory)
    else Success((t.(nextPageId := t.nextPageId + 1), t.nextPageId))
  }

  /** SetParentPageId on a page fetched from the store. */
  function SetParent(t: Tree, id: PageId, parentId: PageId): (r: Result<Tree, TreeError>)
    ensures r.Success? <==> id in t.store
    ensures r.Success? ==>
      && r.value == t.(store := r.value.store)
      && OnlyParentsChange(t.store, r.value.store)
      && SameLeaves(t.store, r.value.store)
      && ParentOf(r.value.store[id]) == parentId
      && (forall other :: other in t.store && other != id ==> r.value.store[other] == t.store[other])
  {
    if id !in t.store then Failure(MissingPage(id))
    else Success(t.(store := t.store[id := WithParent(t.store[id], parentId)]))
  }

  /** The re-parenting loop of MoveHalfTo and the other moves of internal
      slots: each child in turn becomes a child of `parentId`. */
  function Adopt(t: Tree, children: seq<PageId>, parentId: PageId): (r: Result<Tree, TreeError>)
    ensures r.Success? <==> forall c :: c in children ==> c in t.store
    ensures r.Success? ==>
      && r.value == t.(store := r.value.store)
      && OnlyParentsChange(t.store, r.value.store)
      && SameLeaves(t.store, r.value.store)
      && (forall c :: c in children ==> ParentOf(r.value.store[c]) == parentId)
      && (forall id :: id in t.store && id !in children ==> r.value.store[id] == t.store[id])
    decreases |children|
  {
    if children == [] then Success(t)
    else
      var t1 :- SetParent(t, children[0], parentId);
      assert forall c :: c in children[1..] ==> c in children;
      Adopt(t1, children[1..], parentId)
  }

  // ---------------------------------------------------------------------------
  // Search

  /** IsEmpty. */
  predicate IsEmpty(t: Tree) {
    t.rootPageId == INVALID_PAGE_ID
  }

  /** The constructor: no root page. */
  function NewTree(cfg: Config, firstPageId: nat): (t: Tree)
    ensures IsEmpty(t) && t.store == map[] && Fresh(t)
  {
    Tree(cfg, INVALID_PAGE_ID, map[], firstPageId)
  }

  /** The descent of FindLeafPage: internal pages route by `Lookup` until a
      leaf is reached. */
  function FindLeafFrom(t: Tree, id: PageId, key: Key, fuel: nat): (r: Result<PageId, TreeError>)
    ensures r.Success? ==> r.value in t.store && t.store[r.value].LeafNode?
    decreases fuel
  {
    if id !in t.store then Failure(MissingPage(id))
    else match t.store[id]
      case LeafNode(_) => Success(id)
      case InternalNode(p) =>
        if |p.slots| == 0 then Failure(StaleRead)
        else if fuel == 0 then Failure(Corrupt)
        else FindLeafFrom(t, I.Lookup(p, key), key, fuel - 1)
  }

  /** FindLeafPage, from the root. */
  function FindLeaf(t: Tree, key: Key): (r: Result<PageId, TreeError>)
    ensures r.Success? ==> r.value in t.store && t.store[r.value].LeafNode?
  {
    FindLeafFrom(t, t.rootPageId, key, |t.store|)
  }

  /** GetValue: the value stored under `key`, found in the leaf the descent
      reaches; an empty tree holds nothing. */
  function GetValue(t: Tree, key: Key): (r: Result<Option<int>, TreeError>)
    ensures IsEmpty(t) ==> r == Success(None)
    ensures r.Success? && r.value.Some? ==> Holds(t.store, L.Entry(key, r.value.value))
  {
    if IsEmpty(t) then Success(None)
    else
      var id :- FindLeaf(t, key);
      var r := L.Lookup(t.store[id].leaf.entries, key);
      assert r.Some? ==> L.Entry(key, r.value) in LeafView(t.store, id);
      Success(r)
  }

  // ---------------------------------------------------------------------------
  // Insertion

  /** Insert: start a new tree when empty, otherwise insert into the leaf;
      the flag is false for a key already present. */
  function Insert(t: Tree, key: Key, value: int): (r: Result<(Tree, bool), TreeError>)
    requires Fresh(t)
    ensures r.Success? ==> Fresh(r.value.0) && r.value.0.cfg == t.cfg
  {
    if IsEmpty(t) then
      var t' :- StartNewTree(t, key, value);
      Success((t', true))
    else InsertIntoLeaf(t, key, value)
  }

  /** StartNewTree: a new root leaf holding only the entry. */
  function StartNewTree(t: Tree, key: Key, value: int): (r: Result<Tree, TreeError>)
    requires Fresh(t)
    ensures r.Success? ==>
      var id := t.nextPageId;
      && r.value.rootPageId == id
      && r.value.store == t.store[id := LeafNode(L.Leaf(id, INVALID_PAGE_ID, INVALID_PAGE_ID, t.cfg.leafMaxSize, [L.Entry(key, value)]))]
      && r.value.nextPageId == t.nextPageId + 1
      && r.value.cfg == t.cfg
      && Fresh(r.value)
  {
    var grant :- Allocate(t);
    var (t1, id) := grant;
    if t.cfg.leafMaxSize <= 0 then Failure(AssertionFailed)
    else
      var leaf := L.Insert(L.Init(id, INVALID_PAGE_ID, t.cfg.leafMaxSize), key, value).0;
      assert leaf.entries == [L.Entry(key, value)];
      Success(t1.(rootPageId := id, store := t1.store[id := LeafNode(leaf)]))
  }

  /** InsertIntoLeaf: descend, refuse a present key, insert, rewrite the
      separators above when the entry landed in slot 0, then split an
      overfull leaf. */
  function InsertIntoLeaf(t: Tree, key: Key, value: int): (r: Result<(Tree, bool), TreeError>)
    requires Fresh(t)
    ensures r.Success? ==> Fresh(r.value.0) && r.value.0.cfg == t.cfg
    ensures r.Success? && !r.value.1 ==> r.value.0 == t
  {
    var leafId :- FindLeaf(t, key);
    var leaf := t.store[leafId].leaf;
    if L.Lookup(leaf.entries, key).Some? then Success((t, false))
    else if !L.SortedKeys(leaf.entries) then Failure(Corrupt)
    else
      var t' :- AddToLeaf(t, leafId, key, value);
      Success((t', true))
  }

  /** Lines 190-232: the entry goes into the leaf, the separators above are
      rewritten when it landed in slot 0, and an overfull leaf is split. */
  function AddToLeaf(t: Tree, leafId: PageId, key: Key, value: int): (r: Result<Tree, TreeError>)
    requires Fresh(t) && leafId in t.store && t.store[leafId].LeafNode?
    requires L.SortedKeys(t.store[leafId].leaf.entries) && !L.HasKey(t.store[leafId].leaf.entries, key)
    ensures r.Success? ==> Fresh(r.value) && r.value.cfg == t.cfg
  {
    var t' :- PutInLeaf(t, leafId, key, value);
    SplitIfOverfull(t', leafId)
  }

  /** Lines 190-213: the leaf takes the entry; when it landed in slot 0 the
      separators above are rewritten. */
  function PutInLeaf(t: Tree, leafId: PageId, key: Key, value: int): (r: Result<Tree, TreeError>)
    requires Fresh(t) && leafId in t.store && t.store[leafId].LeafNode?
    requires L.SortedKeys(t.store[leafId].leaf.entries) && !L.HasKey(t.store[leafId].leaf.entries, key)
    ensures r.Success? ==> Fresh(r.value) && r.value == t.(store := r.value.store)
  {
    var leaf1 := L.Insert(t.store[leafId].leaf, key, value).0;
    assert leaf1.entries[L.LowerBound(t.store[leafId].leaf.entries, key)] == L.Entry(key, value);
    var t1 := t.(store := t.store[leafId := LeafNode(leaf1)]);
    if L.IndexOfKey(leaf1.entries, key) == 0
    then Propagate(t1, leaf1.parentId, leafId, leaf1.entries[0].key, |t1.store|)
    else Success(t1)
  }

  /** The separator rewrite (lines 200-213 and 369-379): the parent's slot for
      `childId` takes `newKey`; while that slot is slot 0 the parent's own
      slot in its parent is rewritten too. */
  function Propagate(t: Tree, parentId: PageId, childId: PageId, newKey: Key, fuel: nat): (r: Result<Tree, TreeError>)
    ensures r.Success? ==>
      && r.value.store.Keys == t.store.Keys
      && r.value == t.(store := r.value.store)
      && (forall id :: id in t.store && t.store[id].LeafNode? ==> r.value.store[id] == t.store[id])
      && (forall id :: id in t.store && t.store[id].InternalNode? ==> r.value.store[id].InternalNode?)
    decreases fuel
  {
    if parentId == INVALID_PAGE_ID then Success(t)
    else if fuel == 0 then Failure(Corrupt)
    else
      var p :- GetInternal(t, parentId);
      var i := I.ValueIndex(p.slots, childId);
      if i >= |p.slots| then Failure(StaleRead)
      else
        var p1 := I.SetKeyAt(p, i, newKey);
        var t1 := t.(store := t.store[parentId := InternalNode(p1)]);
        if i == 0 then Propagate(t1, p1.parentId, parentId, p1.slots[0].key, fuel - 1)
        else Success(t1)
  }

  /** Split for a leaf: a new leaf after `leafId` in the chain takes every
      entry past the minimum size. */
  function SplitLeaf(t: Tree, leafId: PageId): (r: Result<(Tree, PageId), TreeError>)
    requires Fresh(t)
    ensures r.Success? ==>
      var (t', newId) := r.value;
      && leafId in t.store && t.store[leafId].LeafNode?
      && newId == t.nextPageId
      && t' == t.(nextPageId := t.nextPageId + 1, store := t'.store)
      && leafId in t'.store && newId in t'.store
      && t'.store == t.store[leafId := t'.store[leafId]][newId := t'.store[newId]]
      && t'.store[leafId].LeafNode? && t'.store[newId].LeafNode?
      && Fresh(t')
      && var orig := t.store[leafId].leaf;
      && var left := t'.store[leafId].leaf;
      && var right := t'.store[newId].leaf;
      && left.entries + right.entries == orig.entries
      && |left.entries| == t.cfg.leafMinSize
      && left.nextPageId == newId && right.nextPageId == orig.nextPageId
      && right.parentId == orig.parentId && left.parentId == orig.parentId
  {
    var leaf :- GetLeaf(t, leafId);
    var grant :- Allocate(t);
    var (t1, newId) := grant;
    if t.cfg.leafMaxSize <= 0 then Failure(AssertionFailed)
    else if t.cfg.leafMinSize > |leaf.entries| then Failure(StaleRead)
    else if |leaf.entries| - t.cfg.leafMinSize >= t.cfg.leafMaxSize then Failure(AssertionFailed)
    else
      var sibling := L.Init(newId, leaf.parentId, t.cfg.leafMaxSize).(nextPageId := leaf.nextPageId);
      var (left, right) := L.MoveHalfTo(leaf.(nextPageId := newId), sibling, t.cfg.leafMinSize);
      Success((t1.(store := t1.store[leafId := LeafNode(left)][newId := LeafNode(right)]), newId))
  }

  /** A new root over two pages, which become its children. */
  function NewRoot(t: Tree, leftId: PageId, leftKey: Key, rightId: PageId, rightKey: Key): (r: Result<Tree, TreeError>)
    requires Fresh(t)
    ensures r.Success? ==>
      var rootId := t.nextPageId;
      && r.value.rootPageId == rootId
      && r.value.nextPageId == t.nextPageId + 1 && r.value.cfg == t.cfg
      && leftId in t.store && rightId in t.store
      && r.value.store.Keys == t.store.Keys + {rootId}
      && r.value.store[rootId] == InternalNode(I.Internal(rootId, INVALID_PAGE_ID, t.cfg.internalMaxSize, [I.Slot(leftKey, leftId), I.Slot(rightKey, rightId)]))
      && OnlyParentsChange(t.store, r.value.store - {rootId})
      && ParentOf(r.value.store[leftId]) == rootId && ParentOf(r.value.store[rightId]) == rootId
      && Fresh(r.value)
      && SameLeaves(t.store, r.value.store)
  {
    var _ :- GetNode(t, leftId);
    var _ :- GetNode(t, rightId);
    var grant :- Allocate(t);
    var (t1, rootId) := grant;
    if t.cfg.internalMaxSize <= 0 then Failure(AssertionFailed)
    else
      var root := I.PopulateNewRoot(I.Init(rootId, INVALID_PAGE_ID, t.cfg.internalMaxSize), leftKey, leftId, rightKey, rightId);
      var t2 := t1.(rootPageId := rootId, store := t1.store[rootId := InternalNode(root)]);
      var t3 :- SetParent(t2, leftId, rootId);
      var t4 :- SetParent(t3, rightId, rootId);
      Success(t4)
  }

  /** Lines 216-248: a leaf holding more than its maximum is split; the new
      leaf's first key goes into the parent, or into a new root when the leaf
      was the root. */
  function SplitIfOverfull(t: Tree, leafId: PageId): (r: Result<Tree, TreeError>)
    requires Fresh(t)
    ensures r.Success? ==> Fresh(r.value) && r.value.cfg == t.cfg
    ensures r.Success? ==> leafId in t.store && t.store[leafId].LeafNode?
    ensures r.Success? && |t.store[leafId].leaf.entries| <= t.store[leafId].leaf.maxSize ==> r.value == t
    ensures r.Success? && |t.store[leafId].leaf.entries| > t.store[leafId].leaf.maxSize ==>
      var orig := t.store[leafId].leaf.entries;
      var min := t.cfg.leafMinSize;
      && r.value.nextPageId > t.nextPageId
      && min < |orig| && |orig| - min < t.cfg.leafMaxSize
      && LeafView(r.value.store, leafId) == orig[..min]
      && LeafView(r.value.store, t.nextPageId) == orig[min..]
      && (t.store[leafId].leaf.parentId == INVALID_PAGE_ID ==>
            && r.value.rootPageId == t.nextPageId + 1
            && r.value.rootPageId in r.value.store
            && r.value.store[r.value.rootPageId].InternalNode?
            && r.value.store[r.value.rootPageId].inner.slots
               == [I.Slot(orig[0].key, leafId), I.Slot(orig[min].key, t.nextPageId)])
  {
    var leaf :- GetLeaf(t, leafId);
    if |leaf.entries| <= leaf.maxSize then Success(t)
    else
      var halves :- SplitLeaf(t, leafId);
      var (t1, newId) := halves;
      var left := t1.store[leafId].leaf;
      var right := t1.store[newId].leaf;
      if |left.entries| == 0 || |right.entries| == 0 then Failure(StaleRead)
      else if left.parentId == INVALID_PAGE_ID then NewRoot(t1, leafId, left.entries[0].key, newId, right.entries[0].key)
      else InsertIntoParent(t1, leafId, right.entries[0].key, newId, |t1.store|)
  }

  /** The two pages of an internal split, before the moved children are
      re-parented. */
  function SplitInternalPages(t: Tree, id: PageId): (r: Result<(Tree, PageId), TreeError>)
    requires Fresh(t)
    ensures r.Success? ==>
      var (t', newId) := r.value;
      && id in t.store && t.store[id].InternalNode?
      && newId == t.nextPageId
      && t' == t.(nextPageId := t.nextPageId + 1, store := t'.store)
      && id in t'.store && newId in t'.store
      && t'.store == t.store[id := t'.store[id]][newId := t'.store[newId]]
      && t'.store[id].InternalNode? && t'.store[newId].InternalNode?
      && t.cfg.internalMinSize <= |t.store[id].inner.slots|
      && t'.store[newId].inner.slots == t.store[id].inner.slots[t.cfg.internalMinSize..]
      && t'.store[id].inner.slots == t.store[id].inner.slots[..t.cfg.internalMinSize]
      && Fresh(t')
  {
    var node :- GetInternal(t, id);
    var grant :- Allocate(t);
    var (t1, newId) := grant;
    if t.cfg.internalMaxSize <= 0 then Failure(AssertionFailed)
    else if t.cfg.internalMinSize > |node.slots| then Failure(StaleRead)
    else if |node.slots| - t.cfg.internalMinSize >= t.cfg.internalMaxSize then Failure(AssertionFailed)
    else
      var (left, right) := I.MoveHalfTo(node, I.Init(newId, node.parentId, t.cfg.internalMaxSize), t.cfg.internalMinSize);
      Success((t1.(store := t1.store[id := InternalNode(left)][newId := InternalNode(right)]), newId))
  }

  /** Split for an internal page: a new page takes every slot past the minimum
      size and adopts their children. */
  function SplitInternal(t: Tree, id: PageId): (r: Result<(Tree, PageId), TreeError>)
    requires Fresh(t)
    ensures r.Success? ==>
      && id in t.store && t.store[id].InternalNode?
      && r.value.0.nextPageId == t.nextPageId + 1 && r.value.0.cfg == t.cfg
      && r.value.0.store.Keys == t.store.Keys + {r.value.1}
      && id in r.value.0.store && r.value.0.store[id].InternalNode?
      && r.value.1 in r.value.0.store && r.value.0.store[r.value.1].InternalNode?
      && r.value.0.rootPageId == t.rootPageId
      && Fresh(r.value.0)
      && SameLeaves(t.store, r.value.0.store)
      && var orig := t.store[id].inner.slots;
      && t.cfg.internalMinSize <= |orig|
      && r.value.0.store[id].inner.slots == orig[..t.cfg.internalMinSize]
      && r.value.0.store[r.value.1].inner.slots == orig[t.cfg.internalMinSize..]
      && forall c :: c in I.Children(orig[t.cfg.internalMinSize..]) ==>
           c in r.value.0.store && ParentOf(r.value.0.store[c]) == r.value.1
  {
    var halves :- SplitInternalPages(t, id);
    var (t1, newId) := halves;
    var t2 :- Adopt(t1, I.Children(t1.store[newId].inner.slots), newId);
    assert Reparented(t1.store[id], t2.store[id]) && Reparented(t1.store[newId], t2.store[newId]);
    assert SameLeaves(t.store, t1.store) by {
      forall pid ensures LeafView(t1.store, pid) == LeafView(t.store, pid) {
        assert pid == newId ==> pid !in t.store;
      }
    }
    Success((t2, newId))
  }

  /** InsertIntoParent: the new page goes right after the old one in their
      parent; a parent left with size + 1 > max_size is split in turn, and a
      split root gets a new root. */
  function InsertIntoParent(t: Tree, oldId: PageId, key: Key, newId: PageId, fuel: nat): (r: Result<Tree, TreeError>)
    requires Fresh(t)
    ensures r.Success? ==> Fresh(r.value) && r.value.cfg == t.cfg
    ensures r.Success? ==> SameLeaves(t.store, r.value.store)
    ensures r.Success? ==> r.value.nextPageId >= t.nextPageId
    ensures r.Success? && r.value.rootPageId != t.rootPageId ==>
      && t.nextPageId <= r.value.rootPageId < r.value.nextPageId
      && r.value.rootPageId in r.value.store && r.value.store[r.value.rootPageId].InternalNode?
      && |r.value.store[r.value.rootPageId].inner.slots| == 2
      && r.value.store[r.value.rootPageId].inner.parentId == INVALID_PAGE_ID
    ensures r.Success? ==>
      && oldId in t.store && ParentOf(t.store[oldId]) in t.store
      && t.store[ParentOf(t.store[oldId])].InternalNode?
      && var parentId := ParentOf(t.store[oldId]);
      && var parent := t.store[parentId].inner;
      && |parent.slots| > 0
      && (|parent.slots| + 2 <= parent.maxSize <==> r.value.nextPageId == t.nextPageId)
      && (|parent.slots| + 2 <= parent.maxSize ==>
            r.value == t.(store := t.store[parentId := InternalNode(I.InsertNodeAfter(parent, oldId, key, newId).0)]))
    decreases fuel, 1
  {
    if fuel == 0 then Failure(Corrupt)
    else
      var child :- GetNode(t, oldId);
      var parentId := ParentOf(child);
      var parent :- GetInternal(t, parentId);
      if |parent.slots| == 0 then Failure(StaleRead)
      else
        var (p1, size) := I.InsertNodeAfter(parent, oldId, key, newId);
        var t1 := t.(store := t.store[parentId := InternalNode(p1)]);
        assert SameLeaves(t.store, t1.store);
        if size + 1 <= p1.maxSize then Success(t1)
        else SplitParent(t1, parentId, fuel)
  }

  /** The overflow branch of InsertIntoParent (lines 313-334): the parent is
      split, and the split is pushed up into a new root or the grandparent. */
  function SplitParent(t: Tree, parentId: PageId, fuel: nat): (r: Result<Tree, TreeError>)
    requires Fresh(t) && fuel > 0
    ensures r.Success? ==> Fresh(r.value) && r.value.cfg == t.cfg
    ensures r.Success? ==> SameLeaves(t.store, r.value.store)
    ensures r.Success? ==> r.value.nextPageId > t.nextPageId
    ensures r.Success? && r.value.rootPageId != t.rootPageId ==>
      && t.nextPageId <= r.value.rootPageId < r.value.nextPageId
      && r.value.rootPageId in r.value.store && r.value.store[r.value.rootPageId].InternalNode?
      && |r.value.store[r.value.rootPageId].inner.slots| == 2
      && r.value.store[r.value.rootPageId].inner.parentId == INVALID_PAGE_ID
    decreases fuel, 0
  {
    var halves :- SplitInternal(t, parentId);
    var (t2, sibId) := halves;
    var left := t2.store[parentId].inner;
    var right := t2.store[sibId].inner;
    if |left.slots| == 0 || |right.slots| == 0 then Failure(StaleRead)
    else if left.parentId == INVALID_PAGE_ID then NewRoot(t2, parentId, left.slots[0].key, sibId, right.slots[0].key)
    else InsertIntoParent(t2, parentId, right.slots[0].key, sibId, fuel - 1)
  }

  // ---------------------------------------------------------------------------
  // Removal

  /** KeyAt(0) of a page whose entries are `es`: the first key, or, for an
      emptied page, the key its slot 0 still holds. */
  function FirstKeyOr(es: seq<Entry>, stale: Key): (k: Key)
    ensures |es| > 0 ==> k == es[0].key
    ensures |es| == 0 ==> k == stale
  {
    if |es| > 0 then es[0].key else stale
  }

  /** Remove as written: the descent starts at the root even in an empty tree,
      and a key the leaf does not hold fails KeyIndex's ASSERT. */
  function Remove(t: Tree, key: Key): (r: Result<Tree, TreeError>)
    ensures r.Success? ==> r.value.cfg == t.cfg && r.value.nextPageId == t.nextPageId
    ensures r.Success? ==> r.value.store.Keys <= t.store.Keys
  {
    var leafId :- FindLeaf(t, key);
    var leaf := t.store[leafId].leaf;
    if !L.SortedKeys(leaf.entries) then Failure(Corrupt)
    else if !L.HasKey(leaf.entries, key) then Failure(AssertionFailed)
    else
      var t' :- TakeFromLeaf(t, leafId, key);
      RebalanceLeaf(t', leafId)
  }

  /** Lines 361-382: the leaf drops the key's entry; when that was slot 0 the
      separators above are rewritten with the key now in slot 0. */
  function TakeFromLeaf(t: Tree, leafId: PageId, key: Key): (r: Result<Tree, TreeError>)
    requires leafId in t.store && t.store[leafId].LeafNode?
    requires L.SortedKeys(t.store[leafId].leaf.entries) && L.HasKey(t.store[leafId].leaf.entries, key)
    ensures r.Success? ==> r.value == t.(store := r.value.store) && r.value.store.Keys == t.store.Keys
    ensures r.Success? ==> leafId in r.value.store && r.value.store[leafId].LeafNode?
  {
    var leaf := t.store[leafId].leaf;
    var leaf1 := L.RemoveAndDeleteRecord(leaf, key).0;
    var t1 := t.(store := t.store[leafId := LeafNode(leaf1)]);
    if L.IndexOfKey(leaf.entries, key) == 0
    then Propagate(t1, leaf1.parentId, leafId, FirstKeyOr(leaf1.entries, key), |t1.store|)
    else Success(t1)
  }

  /** Remove with the early returns its documentation promises: removing from
      an empty tree, or removing a key the tree does not hold, does nothing. */
  function RemoveChecked(t: Tree, key: Key): (r: Result<Tree, TreeError>)
    ensures r.Success? ==> r.value.cfg == t.cfg && r.value.nextPageId == t.nextPageId
    ensures GetValue(t, key) == Success(None) ==> r == Success(t)
  {
    if IsEmpty(t) then Success(t)
    else if GetValue(t, key) == Success(None) then Success(t)
    else Remove(t, key)
  }

  /** Lines 385-401: an emptied root leaf is deleted and the tree becomes
      empty; a non-root leaf under its minimum size is repaired. */
  function RebalanceLeaf(t: Tree, leafId: PageId): (r: Result<Tree, TreeError>)
    ensures r.Success? ==> r.value.cfg == t.cfg && r.value.nextPageId == t.nextPageId
    ensures r.Success? ==> r.value.store.Keys <= t.store.Keys
  {
    var leaf :- GetLeaf(t, leafId);
    if leaf.parentId == INVALID_PAGE_ID then
      if |leaf.entries| > 0 then Success(t)
      else if t.rootPageId != leafId then Failure(Corrupt)
      else Success(t.(store := t.store - {leafId}, rootPageId := INVALID_PAGE_ID))
    else if |leaf.entries| < t.cfg.leafMinSize then CoalesceOrRedistribute(t, leafId, |t.store|)
    else Success(t)
  }

  /** The page, its parent and the sibling a repair works on, as
      CoalesceOrRedistribute picks them. */
  predicate Trio(t: Tree, neiId: PageId, nodeId: PageId, parentId: PageId, maxIndex: int, index: int) {
    && neiId in t.store && nodeId in t.store && parentId in t.store
    && neiId != nodeId && neiId != parentId && nodeId != parentId
    && t.store[neiId].LeafNode? == t.store[nodeId].LeafNode?
    && t.store[parentId].InternalNode?
    && 0 <= index <= maxIndex == |t.store[parentId].inner.slots| - 1
  }

  /** The sibling a repair works with: the next child, or the previous one
      for the last child. */
  function SiblingOf(parent: I.Internal, nodeId: PageId): PageId
    requires |parent.slots| >= 2
  {
    var index := I.ValueIndex(parent.slots, nodeId);
    if index == |parent.slots| - 1 then parent.slots[index - 1].child else parent.slots[index + 1].child
  }

  /** The right-hand page of a page and its sibling: the one a merge deletes. */
  function RightOfPair(parent: I.Internal, nodeId: PageId): PageId
    requires |parent.slots| >= 2
  {
    if I.ValueIndex(parent.slots, nodeId) == |parent.slots| - 1 then nodeId else SiblingOf(parent, nodeId)
  }

  /** CoalesceOrRedistribute: the sibling is the next child, or the previous
      one for the last child; it lends one entry when it can spare one, and
      otherwise the two pages merge. */
  function CoalesceOrRedistribute(t: Tree, nodeId: PageId, fuel: nat): (r: Result<Tree, TreeError>)
    ensures r.Success? ==> r.value.cfg == t.cfg && r.value.nextPageId == t.nextPageId
    ensures r.Success? ==> r.value.store.Keys <= t.store.Keys
    ensures r.Success? ==>
      && nodeId in t.store && ParentOf(t.store[nodeId]) in t.store
      && t.store[ParentOf(t.store[nodeId])].InternalNode?
      && var parent := t.store[ParentOf(t.store[nodeId])].inner;
      && |parent.slots| >= 2 && SiblingOf(parent, nodeId) in t.store
      && var nei := t.store[SiblingOf(parent, nodeId)];
      && var lends := Size(nei) - 1 >= MinSize(t.cfg, nei);
      && (lends <==> r.value.store.Keys == t.store.Keys)
      && (lends && t.store[nodeId].LeafNode? ==>
            |LeafView(r.value.store, nodeId)| == |LeafView(t.store, nodeId)| + 1)
      && (!lends ==> RightOfPair(parent, nodeId) in t.store && RightOfPair(parent, nodeId) !in r.value.store)
    decreases fuel, 1
  {
    var node :- GetNode(t, nodeId);
    var parentId := ParentOf(node);
    var parent :- GetInternal(t, parentId);
    if |parent.slots| < 2 then Failure(StaleRead)
    else
      var maxIndex := |parent.slots| - 1;
      var index := I.ValueIndex(parent.slots, nodeId);
      var neiId := SiblingOf(parent, nodeId);
      var nei :- GetNode(t, neiId);
      if neiId == nodeId || neiId == parentId || nodeId == parentId then Failure(Corrupt)
      else if nei.LeafNode? != node.LeafNode? then Failure(WrongKind(neiId))
      else if Size(nei) - 1 >= MinSize(t.cfg, nei) then Redistribute(t, neiId, nodeId, parentId, maxIndex, index)
      else Coalesce(t, neiId, nodeId, parentId, maxIndex, index, fuel)
  }

  /** Redistribute: one entry crosses from the sibling and the parent's
      separator for the right-hand page of the two is rewritten. */
  function Redistribute(t: Tree, neiId: PageId, nodeId: PageId, parentId: PageId, maxIndex: int, index: int): (r: Result<Tree, TreeError>)
    requires Trio(t, neiId, nodeId, parentId, maxIndex, index)
    requires Size(t.store[neiId]) > 0
    ensures r.Success? ==> r.value == t.(store := r.value.store) && r.value.store.Keys == t.store.Keys
    ensures r.Success? && t.store[nodeId].LeafNode? ==>
      |LeafView(r.value.store, nodeId)| == |LeafView(t.store, nodeId)| + 1
  {
    if t.store[nodeId].LeafNode? then Success(RedistributeLeaves(t, neiId, nodeId, parentId, maxIndex, index))
    else RedistributeInternals(t, neiId, nodeId, parentId, maxIndex, index)
  }

  function RedistributeLeaves(t: Tree, neiId: PageId, nodeId: PageId, parentId: PageId, maxIndex: int, index: int): (t': Tree)
    requires Trio(t, neiId, nodeId, parentId, maxIndex, index) && t.store[nodeId].LeafNode?
    requires Size(t.store[neiId]) > 0
    ensures t' == t.(store := t'.store) && t'.store.Keys == t.store.Keys
    ensures forall id :: id != neiId && id != nodeId ==> LeafView(t'.store, id) == LeafView(t.store, id)
    ensures |LeafView(t'.store, nodeId)| == |LeafView(t.store, nodeId)| + 1
    ensures index != maxIndex ==>
      LeafView(t'.store, nodeId) + LeafView(t'.store, neiId) == LeafView(t.store, nodeId) + LeafView(t.store, neiId)
    ensures index == maxIndex ==>
      LeafView(t'.store, neiId) + LeafView(t'.store, nodeId) == LeafView(t.store, neiId) + LeafView(t.store, nodeId)
  {
    var nei := t.store[neiId].leaf;
    var node := t.store[nodeId].leaf;
    var parent := t.store[parentId].inner;
    if index != maxIndex then
      var (nei1, node1) := L.MoveFirstToEndOf(nei, node);
      var p1 := I.SetKeyAt(parent, index + 1, FirstKeyOr(nei1.entries, nei.entries[0].key));
      t.(store := t.store[neiId := LeafNode(nei1)][nodeId := LeafNode(node1)][parentId := InternalNode(p1)])
    else
      var (nei1, node1) := L.MoveLastToFrontOf(nei, node);
      var p1 := I.SetKeyAt(parent, index, node1.entries[0].key);
      t.(store := t.store[neiId := LeafNode(nei1)][nodeId := LeafNode(node1)][parentId := InternalNode(p1)])
  }

  function RedistributeInternals(t: Tree, neiId: PageId, nodeId: PageId, parentId: PageId, maxIndex: int, index: int): (r: Result<Tree, TreeError>)
    requires Trio(t, neiId, nodeId, parentId, maxIndex, index) && t.store[nodeId].InternalNode?
    requires Size(t.store[neiId]) > 0
    ensures r.Success? ==> r.value == t.(store := r.value.store) && r.value.store.Keys == t.store.Keys
    ensures r.Success? ==> SameLeaves(t.store, r.value.store)
  {
    var nei := t.store[neiId].inner;
    var node := t.store[nodeId].inner;
    var parent := t.store[parentId].inner;
    if index != maxIndex then
      var (nei1, node1) := I.MoveFirstToEndOf(nei, node);
      var t1 := t.(store := t.store[neiId := InternalNode(nei1)][nodeId := InternalNode(node1)]);
      var t2 :- SetParent(t1, nei.slots[0].child, nodeId);
      // KeyAt(0) of the lending page: its new first key, or the stale one when it emptied
      var p1 := I.SetKeyAt(parent, index + 1, if |nei1.slots| > 0 then nei1.slots[0].key else nei.slots[0].key);
      Success(t2.(store := t2.store[parentId := InternalNode(p1)]))
    else
      var (nei1, node1) := I.MoveLastToFrontOf(nei, node);
      var t1 := t.(store := t.store[neiId := InternalNode(nei1)][nodeId := InternalNode(node1)]);
      var t2 :- SetParent(t1, nei.slots[|nei.slots| - 1].child, nodeId);
      var p1 := I.SetKeyAt(parent, index, node1.slots[0].key);
      Success(t2.(store := t2.store[parentId := InternalNode(p1)]))
  }

  /** Coalesce: the right-hand page of the two empties into the left-hand
      one, which takes over its chain link; the parent drops the right-hand
      page's slot; a parent left under its minimum is repaired in turn, or,
      as the root, adjusted. */
  function Coalesce(t: Tree, neiId: PageId, nodeId: PageId, parentId: PageId, maxIndex: int, index: int, fuel: nat): (r: Result<Tree, TreeError>)
    requires Trio(t, neiId, nodeId, parentId, maxIndex, index)
    ensures r.Success? ==> r.value.cfg == t.cfg && r.value.nextPageId == t.nextPageId
    ensures r.Success? ==> r.value.store.Keys <= t.store.Keys - {Survivor(neiId, nodeId, maxIndex, index).1}
    decreases fuel, 0
  {
    var t1 :- Merge(t, neiId, nodeId, parentId, maxIndex, index);
    var p :- GetInternal(t1, parentId);
    if |p.slots| >= t.cfg.internalMinSize then Success(t1)
    else if p.parentId == INVALID_PAGE_ID then AdjustRoot(t1, parentId)
    else if fuel == 0 then Failure(Corrupt)
    else CoalesceOrRedistribute(t1, parentId, fuel - 1)
  }

  /** The page that survives a merge and the one that is deleted. */
  function Survivor(neiId: PageId, nodeId: PageId, maxIndex: int, index: int): (ids: (PageId, PageId))
    ensures {ids.0, ids.1} == {neiId, nodeId}
  {
    if index != maxIndex then (nodeId, neiId) else (neiId, nodeId)
  }

  /** Of a page and the sibling CoalesceOrRedistribute picks, the left-hand
      one in the parent survives a merge and the right-hand one goes. */
  lemma SurvivorIsLeftOfPair(parent: I.Internal, nodeId: PageId)
    requires |parent.slots| >= 2 && nodeId in I.Children(parent.slots)
    ensures var maxIndex := |parent.slots| - 1;
      var index := I.ValueIndex(parent.slots, nodeId);
      var j := if index == maxIndex then index - 1 else index;
      && 0 <= j && j + 1 < |parent.slots|
      && Survivor(SiblingOf(parent, nodeId), nodeId, maxIndex, index)
         == (parent.slots[j].child, parent.slots[j + 1].child)
      && RightOfPair(parent, nodeId) == parent.slots[j + 1].child
  {
    var cs := I.Children(parent.slots);
    var k :| 0 <= k < |cs| && cs[k] == nodeId;
    assert parent.slots[k].child == nodeId;
  }

  /** The transfer half of Coalesce, for leaves or internal pages. */
  function Merge(t: Tree, neiId: PageId, nodeId: PageId, parentId: PageId, maxIndex: int, index: int): (r: Result<Tree, TreeError>)
    requires Trio(t, neiId, nodeId, parentId, maxIndex, index)
    ensures r.Success? ==>
      && r.value == t.(store := r.value.store)
      && r.value.store.Keys == t.store.Keys - {Survivor(neiId, nodeId, maxIndex, index).1}
      && r.value.store[parentId].InternalNode?
  {
    if t.store[nodeId].LeafNode? then MergeLeaves(t, neiId, nodeId, parentId, maxIndex, index)
    else MergeInternals(t, neiId, nodeId, parentId, maxIndex, index)
  }

  function MergeLeaves(t: Tree, neiId: PageId, nodeId: PageId, parentId: PageId, maxIndex: int, index: int): (r: Result<Tree, TreeError>)
    requires Trio(t, neiId, nodeId, parentId, maxIndex, index) && t.store[nodeId].LeafNode?
    ensures r.Success? ==>
      var (keep, gone) := Survivor(neiId, nodeId, maxIndex, index);
      && r.value == t.(store := r.value.store)
      && r.value.store.Keys == t.store.Keys - {gone}
      && r.value.store[parentId].InternalNode?
      && (forall id :: id != keep && id != gone ==> LeafView(r.value.store, id) == LeafView(t.store, id))
      && LeafView(r.value.store, keep) == LeafView(t.store, keep) + LeafView(t.store, gone)
  {
    var nei := t.store[neiId].leaf;
    var node := t.store[nodeId].leaf;
    var parent := t.store[parentId].inner;
    if index != maxIndex then
      if |node.entries| + |nei.entries| >= node.maxSize then Failure(AssertionFailed)
      else
        var (nei1, node1) := L.MoveAllTo(nei, node);
        var p1 := I.Remove(parent, index + 1);
        Success(t.(store := t.store[nodeId := LeafNode(node1)][parentId := InternalNode(p1)] - {neiId}))
    else
      if |nei.entries| + |node.entries| >= nei.maxSize then Failure(AssertionFailed)
      else
        var (node1, nei1) := L.MoveAllTo(node, nei);
        var p1 := I.Remove(parent, index);
        Success(t.(store := t.store[neiId := LeafNode(nei1)][parentId := InternalNode(p1)] - {nodeId}))
  }

  function MergeInternals(t: Tree, neiId: PageId, nodeId: PageId, parentId: PageId, maxIndex: int, index: int): (r: Result<Tree, TreeError>)
    requires Trio(t, neiId, nodeId, parentId, maxIndex, index) && t.store[nodeId].InternalNode?
    ensures r.Success? ==>
      var (keep, gone) := Survivor(neiId, nodeId, maxIndex, index);
      && r.value == t.(store := r.value.store)
      && r.value.store.Keys == t.store.Keys - {gone}
      && r.value.store[parentId].InternalNode?
      && SameLeaves(t.store, r.value.store)
  {
    var (keep, gone) := Survivor(neiId, nodeId, maxIndex, index);
    var left := t.store[keep].inner;
    var right := t.store[gone].inner;
    var parent := t.store[parentId].inner;
    if |left.slots| + |right.slots| >= left.maxSize then Failure(AssertionFailed)
    else
      var (right1, left1) := I.MoveAllTo(right, left);
      var t1 := t.(store := t.store[keep := InternalNode(left1)]);
      var t2 :- Adopt(t1, I.Children(right.slots), keep);
      var p1 := I.Remove(parent, if index != maxIndex then index + 1 else index);
      Success(t2.(store := t2.store[parentId := InternalNode(p1)] - {gone}))
  }

  /** AdjustRoot: a root left with one child is deleted and that child
      becomes the root. */
  function AdjustRoot(t: Tree, rootId: PageId): (r: Result<Tree, TreeError>)
    ensures r.Success? ==> r.value.cfg == t.cfg && r.value.nextPageId == t.nextPageId
    ensures r.Success? ==> r.value.store.Keys <= t.store.Keys
  {
    var root :- GetInternal(t, rootId);
    if |root.slots| >= 2 then Success(t)
    else if |root.slots| == 0 then Failure(StaleRead)
    else
      var child := root.slots[0].child;
      var _ :- GetNode(t, child);
      if t.rootPageId != rootId || child == rootId then Failure(Corrupt)
      else SetParent(t.(store := t.store - {rootId}, rootPageId := child), child, INVALID_PAGE_ID)
  }

  // ---------------------------------------------------------------------------
  // What the tree holds

  lemma SameLeavesHoldSame(s: Store, s': Store)
    requires SameLeaves(s, s')
    ensures HoldsSame(s, s')
  {
    forall e ensures Holds(s, e) <==> Holds(s', e) {
      if Holds(s, e) {
        var id :| e in LeafView(s, id);
        assert e in LeafView(s', id);
      }
      if Holds(s', e) {
        var id :| e in LeafView(s', id);
        assert e in LeafView(s, id);
      }
    }
  }

  /** Entries moved between two pages, and nowhere else, stay in the tree. */
  lemma MovedBetweenTwo(s: Store, s': Store, a: PageId, b: PageId)
    requires forall id :: id != a && id != b ==> LeafView(s', id) == LeafView(s, id)
    requires forall e :: e in LeafView(s', a) + LeafView(s', b) <==> e in LeafView(s, a) + LeafView(s, b)
    ensures HoldsSame(s, s')
  {
    forall e ensures Holds(s, e) <==> Holds(s', e) {
      if Holds(s, e) {
        var id :| e in LeafView(s, id);
        if id == a || id == b {
          assert e in LeafView(s, a) + LeafView(s, b);
          assert e in LeafView(s', a) || e in LeafView(s', b);
        } else {
          assert e in LeafView(s', id);
        }
      }
      if Holds(s', e) {
        var id :| e in LeafView(s', id);
        if id == a || id == b {
          assert e in LeafView(s', a) + LeafView(s', b);
          assert e in LeafView(s, a) || e in LeafView(s, b);
        } else {
          assert e in LeafView(s, id);
        }
      }
    }
  }

  /** A leaf split keeps every entry of the tree. */
  lemma SplitLeafKeepsEntries(t: Tree, leafId: PageId)
    requires Fresh(t) && SplitLeaf(t, leafId).Success?
    ensures HoldsSame(t.store, SplitLeaf(t, leafId).value.0.store)
  {
    var (t', newId) := SplitLeaf(t, leafId).value;
    assert LeafView(t.store, newId) == [];
    assert LeafView(t'.store, leafId) + LeafView(t'.store, newId) == LeafView(t.store, leafId) + LeafView(t.store, newId);
    MovedBetweenTwo(t.store, t'.store, leafId, newId);
  }

  /** Splitting an overfull leaf, and whatever that does above it, keeps
      every entry of the tree. */
  lemma SplitIfOverfullKeepsEntries(t: Tree, leafId: PageId)
    requires Fresh(t) && SplitIfOverfull(t, leafId).Success?
    ensures HoldsSame(t.store, SplitIfOverfull(t, leafId).value.store)
  {
    var leaf := GetLeaf(t, leafId).value;
    if |leaf.entries| > leaf.maxSize {
      SplitLeafKeepsEntries(t, leafId);
      var t1 := SplitLeaf(t, leafId).value.0;
      SameLeavesHoldSame(t1.store, SplitIfOverfull(t, leafId).value.store);
    }
  }

  /** The first entry of an empty tree is all it holds. */
  lemma StartNewTreeAddsEntry(t: Tree, key: Key, value: int)
    requires Fresh(t) && StartNewTree(t, key, value).Success?
    ensures forall e :: Holds(StartNewTree(t, key, value).value.store, e) <==> Holds(t.store, e) || e == L.Entry(key, value)
  {
    var t' := StartNewTree(t, key, value).value;
    var id := t.nextPageId;
    forall e ensures Holds(t'.store, e) <==> Holds(t.store, e) || e == L.Entry(key, value) {
      if Holds(t'.store, e) {
        var pid :| e in LeafView(t'.store, pid);
        if pid != id { assert e in LeafView(t.store, pid); }
      }
      if Holds(t.store, e) {
        var pid :| e in LeafView(t.store, pid);
        assert pid != id;
        assert e in LeafView(t'.store, pid);
      }
      if e == L.Entry(key, value) {
        assert e in LeafView(t'.store, id);
      }
    }
  }

  /** Writing a leaf that gained one entry adds that entry to the tree. */
  lemma LeafWriteAddsEntry(s: Store, leafId: PageId, leaf1: L.Leaf, e0: Entry)
    requires leafId in s && s[leafId].LeafNode?
    requires forall e :: e in leaf1.entries <==> e in s[leafId].leaf.entries || e == e0
    ensures forall e :: Holds(s[leafId := LeafNode(leaf1)], e) <==> Holds(s, e) || e == e0
  {
    var s1 := s[leafId := LeafNode(leaf1)];
    forall e ensures Holds(s1, e) <==> Holds(s, e) || e == e0 {
      if Holds(s1, e) {
        var pid :| e in LeafView(s1, pid);
        if pid != leafId { assert e in LeafView(s, pid); }
        else if e != e0 { assert e in LeafView(s, leafId); }
      }
      if Holds(s, e) {
        var pid :| e in LeafView(s, pid);
        assert e in LeafView(s1, pid);
      }
      if e == e0 {
        assert e in LeafView(s1, leafId);
      }
    }
  }

  /** PutInLeaf adds exactly the new entry. */
  lemma PutInLeafAddsEntry(t: Tree, leafId: PageId, key: Key, value: int)
    requires Fresh(t) && leafId in t.store && t.store[leafId].LeafNode?
    requires L.SortedKeys(t.store[leafId].leaf.entries) && !L.HasKey(t.store[leafId].leaf.entries, key)
    requires PutInLeaf(t, leafId, key, value).Success?
    ensures forall e :: Holds(PutInLeaf(t, leafId, key, value).value.store, e) <==> Holds(t.store, e) || e == L.Entry(key, value)
  {
    var leaf := t.store[leafId].leaf;
    var leaf1 := L.Insert(leaf, key, value).0;
    var t1 := t.(store := t.store[leafId := LeafNode(leaf1)]);
    L.InsertAddsEntry(leaf, key, value);
    LeafWriteAddsEntry(t.store, leafId, leaf1, L.Entry(key, value));
    SameLeavesHoldSame(t1.store, PutInLeaf(t, leafId, key, value).value.store);
  }

  /** AddToLeaf adds exactly the new entry. */
  lemma AddToLeafAddsEntry(t: Tree, leafId: PageId, key: Key, value: int)
    requires Fresh(t) && leafId in t.store && t.store[leafId].LeafNode?
    requires L.SortedKeys(t.store[leafId].leaf.entries) && !L.HasKey(t.store[leafId].leaf.entries, key)
    requires AddToLeaf(t, leafId, key, value).Success?
    ensures forall e :: Holds(AddToLeaf(t, leafId, key, value).value.store, e) <==> Holds(t.store, e) || e == L.Entry(key, value)
  {
    PutInLeafAddsEntry(t, leafId, key, value);
    SplitIfOverfullKeepsEntries(PutInLeaf(t, leafId, key, value).value, leafId);
  }

  /** InsertIntoLeaf adds exactly the new entry, or, for a present key,
      changes nothing. */
  lemma InsertIntoLeafAddsEntry(t: Tree, key: Key, value: int)
    requires Fresh(t) && InsertIntoLeaf(t, key, value).Success?
    ensures var (t', added) := InsertIntoLeaf(t, key, value).value;
      && (!added ==> t' == t)
      && (added ==> forall e :: Holds(t'.store, e) <==> Holds(t.store, e) || e == L.Entry(key, value))
  {
    if InsertIntoLeaf(t, key, value).value.1 {
      var leafId := FindLeaf(t, key).value;
      AddToLeafAddsEntry(t, leafId, key, value);
    }
  }

  /** Insert adds exactly the new entry, or, for a present key, changes
      nothing. */
  lemma InsertAddsEntry(t: Tree, key: Key, value: int)
    requires Fresh(t) && Insert(t, key, value).Success?
    ensures var (t', added) := Insert(t, key, value).value;
      && (!added ==> t' == t)
      && (added ==> forall e :: Holds(t'.store, e) <==> Holds(t.store, e) || e == L.Entry(key, value))
  {
    if IsEmpty(t) {
      StartNewTreeAddsEntry(t, key, value);
    } else {
      InsertIntoLeafAddsEntry(t, key, value);
    }
  }

  /** Insert reports a present key exactly when GetValue finds the key. */
  lemma InsertRefusesPresentKey(t: Tree, key: Key, value: int)
    requires Fresh(t)
    ensures (Insert(t, key, value).Success? && !Insert(t, key, value).value.1) <==> (GetValue(t, key).Success? && GetValue(t, key).value.Some?)
  {
  }

  /** A key inserted into an empty tree is found again. */
  lemma StartNewTreeThenGetValue(t: Tree, key: Key, value: int)
    requires Fresh(t) && IsEmpty(t) && Insert(t, key, value).Success?
    ensures Insert(t, key, value).value.1
    ensures GetValue(Insert(t, key, value).value.0, key) == Success(Some(value))
  {
    var t' := Insert(t, key, value).value.0;
    assert t'.store[t'.rootPageId].leaf.entries == [L.Entry(key, value)];
    assert FindLeaf(t', key) == Success(t'.rootPageId);
  }

  /** Redistribution moves one entry between two leaves and keeps every
      entry of the tree. */
  lemma RedistributeKeepsEntries(t: Tree, neiId: PageId, nodeId: PageId, parentId: PageId, maxIndex: int, index: int)
    requires Trio(t, neiId, nodeId, parentId, maxIndex, index)
    requires Size(t.store[neiId]) > 0
    requires Redistribute(t, neiId, nodeId, parentId, maxIndex, index).Success?
    ensures HoldsSame(t.store, Redistribute(t, neiId, nodeId, parentId, maxIndex, index).value.store)
  {
    var t' := Redistribute(t, neiId, nodeId, parentId, maxIndex, index).value;
    if t.store[nodeId].LeafNode? {
      var s := t.store;
      var s' := t'.store;
      forall e ensures e in LeafView(s', nodeId) + LeafView(s', neiId) <==> e in LeafView(s, nodeId) + LeafView(s, neiId) {
        if index != maxIndex {
          assert LeafView(s', nodeId) + LeafView(s', neiId) == LeafView(s, nodeId) + LeafView(s, neiId);
        } else {
          assert LeafView(s', neiId) + LeafView(s', nodeId) == LeafView(s, neiId) + LeafView(s, nodeId);
          assert e in LeafView(s', neiId) + LeafView(s', nodeId) <==> e in LeafView(s, neiId) + LeafView(s, nodeId);
        }
      }
      MovedBetweenTwo(s, s', nodeId, neiId);
    } else {
      SameLeavesHoldSame(t.store, t'.store);
    }
  }

  /** A merge moves every entry of the deleted page into the surviving one
      and keeps every entry of the tree. */
  lemma MergeKeepsEntries(t: Tree, neiId: PageId, nodeId: PageId, parentId: PageId, maxIndex: int, index: int)
    requires Trio(t, neiId, nodeId, parentId, maxIndex, index)
    requires Merge(t, neiId, nodeId, parentId, maxIndex, index).Success?
    ensures HoldsSame(t.store, Merge(t, neiId, nodeId, parentId, maxIndex, index).value.store)
  {
    if t.store[nodeId].LeafNode? {
      var s' := MergeLeaves(t, neiId, nodeId, parentId, maxIndex, index).value.store;
      var (keep, gone) := Survivor(neiId, nodeId, maxIndex, index);
      assert LeafView(s', gone) == [];
      assert LeafView(s', keep) + LeafView(s', gone) == LeafView(t.store, keep) + LeafView(t.store, gone);
      MovedBetweenTwo(t.store, s', keep, gone);
    } else {
      SameLeavesHoldSame(t.store, MergeInternals(t, neiId, nodeId, parentId, maxIndex, index).value.store);
    }
  }

  /** Collapsing the root keeps every entry of the tree. */
  lemma AdjustRootKeepsEntries(t: Tree, rootId: PageId)
    requires AdjustRoot(t, rootId).Success?
    ensures HoldsSame(t.store, AdjustRoot(t, rootId).value.store)
  {
    var root := t.store[rootId].inner;
    if |root.slots| < 2 {
      var t1 := t.(store := t.store - {rootId}, rootPageId := root.slots[0].child);
      assert SameLeaves(t.store, t1.store);
    }
    SameLeavesHoldSame(t.store, AdjustRoot(t, rootId).value.store);
  }

  /** Repairing an underfull page keeps every entry of the tree. */
  lemma {:induction false} CoalesceOrRedistributeKeepsEntries(t: Tree, nodeId: PageId, fuel: nat)
    requires CoalesceOrRedistribute(t, nodeId, fuel).Success?
    ensures HoldsSame(t.store, CoalesceOrRedistribute(t, nodeId, fuel).value.store)
    decreases fuel, 1
  {
    var node := t.store[nodeId];
    var parentId := ParentOf(node);
    var parent := t.store[parentId].inner;
    var maxIndex := |parent.slots| - 1;
    var index := I.ValueIndex(parent.slots, nodeId);
    var neiId := SiblingOf(parent, nodeId);
    var nei := t.store[neiId];
    assert Trio(t, neiId, nodeId, parentId, maxIndex, index);
    if Size(nei) - 1 >= MinSize(t.cfg, nei) {
      assert CoalesceOrRedistribute(t, nodeId, fuel) == Redistribute(t, neiId, nodeId, parentId, maxIndex, index);
      RedistributeKeepsEntries(t, neiId, nodeId, parentId, maxIndex, index);
    } else {
      assert CoalesceOrRedistribute(t, nodeId, fuel) == Coalesce(t, neiId, nodeId, parentId, maxIndex, index, fuel);
      CoalesceKeepsEntries(t, neiId, nodeId, parentId, maxIndex, index, fuel);
    }
  }

  lemma {:induction false} CoalesceKeepsEntries(t: Tree, neiId: PageId, nodeId: PageId, parentId: PageId, maxIndex: int, index: int, fuel: nat)
    requires Trio(t, neiId, nodeId, parentId, maxIndex, index)
    requires Coalesce(t, neiId, nodeId, parentId, maxIndex, index, fuel).Success?
    ensures HoldsSame(t.store, Coalesce(t, neiId, nodeId, parentId, maxIndex, index, fuel).value.store)
    decreases fuel, 0
  {
    MergeKeepsEntries(t, neiId, nodeId, parentId, maxIndex, index);
    var t1 := Merge(t, neiId, nodeId, parentId, maxIndex, index).value;
    var p := t1.store[parentId].inner;
    if |p.slots| >= t.cfg.internalMinSize {
    } else if p.parentId == INVALID_PAGE_ID {
      AdjustRootKeepsEntries(t1, parentId);
    } else {
      CoalesceOrRedistributeKeepsEntries(t1, parentId, fuel - 1);
    }
  }

  /** The leaf-level step of Remove keeps every entry of the tree. */
  lemma RebalanceLeafKeepsEntries(t: Tree, leafId: PageId)
    requires RebalanceLeaf(t, leafId).Success?
    ensures HoldsSame(t.store, RebalanceLeaf(t, leafId).value.store)
  {
    var leaf := t.store[leafId].leaf;
    if leaf.parentId == INVALID_PAGE_ID {
      if |leaf.entries| == 0 {
        assert SameLeaves(t.store, RebalanceLeaf(t, leafId).value.store);
        SameLeavesHoldSame(t.store, RebalanceLeaf(t, leafId).value.store);
      }
    } else if |leaf.entries| < t.cfg.leafMinSize {
      CoalesceOrRedistributeKeepsEntries(t, leafId, |t.store|);
    }
  }

  /** Writing a leaf that lost the entries with one key takes exactly those
      entries from the tree, when no other leaf holds that key. */
  lemma LeafWriteTakesKey(s: Store, leafId: PageId, leaf1: L.Leaf, key: Key)
    requires leafId in s && s[leafId].LeafNode?
    requires forall e :: e in leaf1.entries <==> e in s[leafId].leaf.entries && e.key != key
    ensures var s1 := s[leafId := LeafNode(leaf1)];
      && (forall e :: Holds(s1, e) ==> Holds(s, e))
      && (forall e :: Holds(s, e) && e.key != key ==> Holds(s1, e))
      && (KeyInOneLeaf(s, key, leafId) ==> forall e :: Holds(s1, e) ==> e.key != key)
  {
    var s1 := s[leafId := LeafNode(leaf1)];
    forall e | Holds(s1, e) ensures Holds(s, e) && (KeyInOneLeaf(s, key, leafId) ==> e.key != key) {
      var pid :| e in LeafView(s1, pid);
      assert e in LeafView(s, pid);
    }
    forall e | Holds(s, e) && e.key != key ensures Holds(s1, e) {
      var pid :| e in LeafView(s, pid);
      assert e in LeafView(s1, pid);
    }
  }

  /** No leaf other than `leafId` holds an entry with `key`. */
  ghost predicate KeyInOneLeaf(s: Store, key: Key, leafId: PageId) {
    forall id, e :: e in LeafView(s, id) && e.key == key ==> id == leafId
  }

  /** A key lives in at most one leaf. */
  ghost predicate UniqueKeys(s: Store) {
    forall id, e :: e in LeafView(s, id) ==> KeyInOneLeaf(s, e.key, id)
  }

  /** The leaf's part of Remove takes exactly the key's entries. */
  lemma TakeFromLeafTakesKey(t: Tree, leafId: PageId, key: Key)
    requires leafId in t.store && t.store[leafId].LeafNode?
    requires L.SortedKeys(t.store[leafId].leaf.entries) && L.HasKey(t.store[leafId].leaf.entries, key)
    requires TakeFromLeaf(t, leafId, key).Success?
    ensures var s' := TakeFromLeaf(t, leafId, key).value.store;
      && (forall e :: Holds(s', e) ==> Holds(t.store, e))
      && (forall e :: Holds(t.store, e) && e.key != key ==> Holds(s', e))
      && (KeyInOneLeaf(t.store, key, leafId) ==> forall e :: Holds(s', e) ==> e.key != key)
  {
    var leaf := t.store[leafId].leaf;
    var leaf1 := L.RemoveAndDeleteRecord(leaf, key).0;
    L.RemoveTakesKey(leaf, key);
    LeafWriteTakesKey(t.store, leafId, leaf1, key);
    SameLeavesHoldSame(t.store[leafId := LeafNode(leaf1)], TakeFromLeaf(t, leafId, key).value.store);
  }

  /** Remove takes the key's entry and keeps every other entry; in a tree
      where a key lives in one leaf, no entry with the key is left. */
  lemma RemoveTakesKey(t: Tree, key: Key)
    requires Remove(t, key).Success?
    ensures var s' := Remove(t, key).value.store;
      && (forall e :: Holds(s', e) ==> Holds(t.store, e))
      && (forall e :: Holds(t.store, e) && e.key != key ==> Holds(s', e))
      && (UniqueKeys(t.store) ==> forall e :: Holds(s', e) ==> e.key != key)
  {
    var leafId := FindLeaf(t, key).value;
    var leaf := t.store[leafId].leaf;
    TakeFromLeafTakesKey(t, leafId, key);
    var t' := TakeFromLeaf(t, leafId, key).value;
    RebalanceLeafKeepsEntries(t', leafId);
    if UniqueKeys(t.store) {
      var i := L.IndexOfKey(leaf.entries, key);
      assert leaf.entries[i] in LeafView(t.store, leafId);
    }
  }

  // ---------------------------------------------------------------------------
  // Separators

  /** `n` is the internal page `p` with some slot keys replaced by `k`. */
  predicate SlotKeysOnlyBecome(p: I.Internal, n: Node, k: Key) {
    && n.InternalNode? && n.inner == p.(slots := n.inner.slots)
    && |n.inner.slots| == |p.slots|
    && forall j :: 0 <= j < |p.slots| ==> n.inner.slots[j] == p.slots[j] || n.inner.slots[j] == I.Slot(k, p.slots[j].child)
  }

  /** The only change from `s` to `s'` is separator keys becoming `k`. */
  ghost predicate SeparatorsOnlyBecome(s: Store, s': Store, k: Key) {
    && s'.Keys == s.Keys
    && (forall id :: id in s && s[id].LeafNode? ==> s'[id] == s[id])
    && (forall id :: id in s && s[id].InternalNode? ==> SlotKeysOnlyBecome(s[id].inner, s'[id], k))
  }

  lemma SeparatorsCompose(s0: Store, s1: Store, s2: Store, k: Key)
    requires SeparatorsOnlyBecome(s0, s1, k) && SeparatorsOnlyBecome(s1, s2, k)
    ensures SeparatorsOnlyBecome(s0, s2, k)
  {
    forall id | id in s0 && s0[id].InternalNode? ensures SlotKeysOnlyBecome(s0[id].inner, s2[id], k) {
      assert SlotKeysOnlyBecome(s0[id].inner, s1[id], k);
      assert SlotKeysOnlyBecome(s1[id].inner, s2[id], k);
    }
  }

  lemma ValueIndexByChildren(a: seq<I.Slot>, b: seq<I.Slot>, child: PageId)
    requires |a| == |b| && forall j :: 0 <= j < |a| ==> a[j].child == b[j].child
    ensures I.ValueIndex(a, child) == I.ValueIndex(b, child)
  {
    var i := I.ValueIndex(a, child);
    var i' := I.ValueIndex(b, child);
    if exists j :: 0 <= j < |a| && a[j].child == child {
      var j :| 0 <= j < |a| && a[j].child == child;
      assert b[j].child == child;
    } else {
      assert forall j :: 0 <= j < |b| ==> b[j].child != child;
    }
  }

  lemma SeparatorStaysWritten(p: I.Internal, n: Node, childId: PageId, k: Key)
    requires SlotKeysOnlyBecome(p, n, k)
    requires I.ValueIndex(p.slots, childId) < |p.slots| && p.slots[I.ValueIndex(p.slots, childId)].key == k
    ensures I.ValueIndex(n.inner.slots, childId) < |n.inner.slots|
    ensures n.inner.slots[I.ValueIndex(n.inner.slots, childId)].key == k
  {
    ValueIndexByChildren(p.slots, n.inner.slots, childId);
  }

  lemma SetKeyRewritesOneSeparator(s: Store, id: PageId, i: nat, k: Key)
    requires id in s && s[id].InternalNode? && i < |s[id].inner.slots|
    ensures SeparatorsOnlyBecome(s, s[id := InternalNode(I.SetKeyAt(s[id].inner, i, k))], k)
  {
  }

  /** The separator rewrite writes no key but `newKey`, and the parent's slot
      for `childId` ends up holding `newKey`. */
  lemma {:induction false} PropagateRewritesSeparator(t: Tree, parentId: PageId, childId: PageId, newKey: Key, fuel: nat)
    requires Propagate(t, parentId, childId, newKey, fuel).Success?
    ensures var s' := Propagate(t, parentId, childId, newKey, fuel).value.store;
      && SeparatorsOnlyBecome(t.store, s', newKey)
      && (parentId != INVALID_PAGE_ID ==>
            && parentId in s' && s'[parentId].InternalNode?
            && var slots := s'[parentId].inner.slots;
            && I.ValueIndex(slots, childId) < |slots|
            && slots[I.ValueIndex(slots, childId)].key == newKey)
    decreases fuel
  {
    var s' := Propagate(t, parentId, childId, newKey, fuel).value.store;
    if parentId == INVALID_PAGE_ID {
      assert s' == t.store;
    } else {
      var p := t.store[parentId].inner;
      var i := I.ValueIndex(p.slots, childId);
      var p1 := I.SetKeyAt(p, i, newKey);
      var t1 := t.(store := t.store[parentId := InternalNode(p1)]);
      SetKeyRewritesOneSeparator(t.store, parentId, i, newKey);
      if i == 0 {
        PropagateRewritesSeparator(t1, p1.parentId, parentId, p1.slots[0].key, fuel - 1);
        SeparatorsCompose(t.store, t1.store, s', newKey);
        assert SlotKeysOnlyBecome(p1, s'[parentId], newKey);
        SeparatorStaysWritten(p1, s'[parentId], childId, newKey);
      }
    }
  }

  // ---------------------------------------------------------------------------
  // Remove: edge cases

  /** As written, Remove on an empty tree descends from INVALID_PAGE_ID and
      fails where its documentation promises an immediate return. */
  lemma RemoveOnEmptyTreeFails(t: Tree, key: Key)
    requires IsEmpty(t) && Fresh(t)
    ensures Remove(t, key) == Failure(MissingPage(INVALID_PAGE_ID))
  {
    assert INVALID_PAGE_ID !in t.store;
  }

  /** RemoveChecked on an empty tree changes nothing, and on any other tree
      is Remove for every key GetValue finds. */
  lemma RemoveCheckedOnEmptyTreeIsNoOp(t: Tree, key: Key)
    ensures IsEmpty(t) ==> RemoveChecked(t, key) == Success(t)
    ensures !IsEmpty(t) && GetValue(t, key) != Success(None) ==> RemoveChecked(t, key) == Remove(t, key)
  {
  }

  /** Removing a key the tree does not hold leaves the tree unchanged, where
      Remove as written fails KeyIndex's ASSERT. */
  lemma RemoveCheckedAbsentKeyIsNoOp(t: Tree, key: Key)
    requires !IsEmpty(t) && GetValue(t, key) == Success(None)
    requires L.SortedKeys(t.store[FindLeaf(t, key).value].leaf.entries)
    ensures RemoveChecked(t, key) == Success(t)
    ensures Remove(t, key) == Failure(AssertionFailed)
  {
    RemoveNeedsPresentKey(t, key);
  }

  /** Removing the only key of a root leaf deletes the leaf and empties the
      tree. */
  lemma RemoveLastKeyEmptiesTree(t: Tree, e: Entry)
    requires t.rootPageId in t.store && t.store[t.rootPageId].LeafNode?
    requires t.store[t.rootPageId].leaf.entries == [e]
    requires t.store[t.rootPageId].leaf.parentId == INVALID_PAGE_ID
    ensures Remove(t, e.key) == Success(t.(store := t.store - {t.rootPageId}, rootPageId := INVALID_PAGE_ID))
    ensures IsEmpty(Remove(t, e.key).value)
  {
    var root := t.rootPageId;
    var leaf := t.store[root].leaf;
    assert FindLeaf(t, e.key) == Success(root);
    assert L.SortedKeys(leaf.entries);
    assert leaf.entries[0].key == e.key;
    assert L.IndexOfKey(leaf.entries, e.key) == 0;
    assert L.HasKey(leaf.entries, e.key);
    var leaf1 := L.RemoveAndDeleteRecord(leaf, e.key).0;
    assert leaf1.entries == [];
    var t1 := t.(store := t.store[root := LeafNode(leaf1)]);
    assert TakeFromLeaf(t, root, e.key) == Success(t1);
    assert t1.store - {root} == t.store - {root};
  }

  /** Remove succeeds only for a key GetValue finds, and fails KeyIndex's
      ASSERT for a key missing from a sorted leaf. */
  lemma RemoveNeedsPresentKey(t: Tree, key: Key)
    requires !IsEmpty(t)
    ensures Remove(t, key).Success? ==> GetValue(t, key).Success? && GetValue(t, key).value.Some?
    ensures GetValue(t, key) == Success(None) && L.SortedKeys(t.store[FindLeaf(t, key).value].leaf.entries) ==>
      Remove(t, key) == Failure(AssertionFailed)
  {
  }
}
