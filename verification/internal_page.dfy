/** BPlusTreeInternalPage: a run of (key, child page id) slots. In this tree
    every slot's key, slot 0 included, is kept equal to the smallest key below
    that child, but routing never compares against slot 0. The page is
    modelled by its live slots; re-parenting the children that move between
    pages is done by the tree, which owns the other pages. */
module InternalPage {
  import opened Common

  type Key = int

  datatype Slot = Slot(key: Key, child: PageId)

  datatype Internal = Internal(pageId: PageId, parentId: PageId, maxSize: int, slots: seq<Slot>)

  /** Init: an empty internal page. */
  function Init(pageId: PageId, parentId: PageId, maxSize: int): (p: Internal)
    requires maxSize > 0
    ensures p.slots == [] && p.pageId == pageId && p.parentId == parentId && p.maxSize == maxSize
  {
    Internal(pageId, parentId, maxSize, [])
  }

  /** The child ids of a run of slots, in order. */
  function Children(slots: seq<Slot>): (cs: seq<PageId>)
    ensures |cs| == |slots|
    ensures forall i :: 0 <= i < |slots| ==> cs[i] == slots[i].child
  {
    if slots == [] then [] else [slots[0].child] + Children(slots[1..])
  }

  lemma ChildrenConcat(a: seq<Slot>, b: seq<Slot>)
    ensures Children(a + b) == Children(a) + Children(b)
  {
    assert a + b == a + b;
  }

  /** Keys strictly increase from slot 1 on; slot 0 is never compared. */
  predicate Routable(slots: seq<Slot>) {
    forall i, j :: 1 <= i < j < |slots| ==> slots[i].key < slots[j].key
  }

  // ---------------------------------------------------------------------------
  // Searching

  /** ValueIndex: the first slot whose child is `value`, or 0 when no live slot
      has it. */
  function ValueIndex(slots: seq<Slot>, value: PageId): (i: nat)
    ensures i <= |slots|
    ensures (exists j :: 0 <= j < |slots| && slots[j].child == value) ==>
      i < |slots| && slots[i].child == value && forall j :: 0 <= j < i ==> slots[j].child != value
    ensures (forall j :: 0 <= j < |slots| ==> slots[j].child != value) ==> i == 0
  {
    if slots == [] then 0
    else if slots[0].child == value then 0
    else
      var r := ValueIndex(slots[1..], value);
      if r < |slots| - 1 && slots[1..][r].child == value then r + 1 else 0
  }

  /** The slot whose child covers `key`: 0 when `key` is below slot 1's key,
      otherwise the last slot whose key is at most `key`, found by a scan from
      slot 1. A page of one slot routes to that slot. */
  function Route(slots: seq<Slot>, key: Key): (r: nat)
    ensures |slots| > 0 ==> r < |slots|
    ensures |slots| <= 1 ==> r == 0
    ensures forall j :: 1 <= j <= r && j < |slots| ==> slots[j].key <= key
    ensures r + 1 < |slots| ==> key < slots[r + 1].key
  {
    if |slots| <= 1 || key < slots[1].key then 0 else ScanFrom(slots, key, 1)
  }

  function ScanFrom(slots: seq<Slot>, key: Key, i: nat): (r: nat)
    requires 1 <= i < |slots| && forall j :: 1 <= j <= i ==> slots[j].key <= key
    ensures i <= r < |slots|
    ensures forall j :: 1 <= j <= r ==> slots[j].key <= key
    ensures r + 1 < |slots| ==> key < slots[r + 1].key
    decreases |slots| - i
  {
    if i + 1 < |slots| && key >= slots[i + 1].key then ScanFrom(slots, key, i + 1) else i
  }

  /** On a routable page the route is the unique slot bracketing `key`: every
      later slot's key is above it. */
  lemma RouteBrackets(slots: seq<Slot>, key: Key)
    requires Routable(slots) && |slots| >= 2
    ensures var r := Route(slots, key);
      && (r == 0 <==> key < slots[1].key)
      && forall j :: r < j < |slots| ==> key < slots[j].key
  {
  }

  /** my_lower_bound for a page of two or more slots (line 84 reads slot 1,
      which is stale on a page of one slot). */
  method MyLowerBound(slots: seq<Slot>, key: Key) returns (place: int)
    requires |slots| != 1
    ensures place == Route(slots, key)
  {
    if |slots| == 0 {
      return 0;
    }
    var i := 0;
    if key < slots[1].key {
      place := 0;
    } else {
      i := 1;
      while i <= |slots| - 2
        invariant 1 <= i <= |slots| - 1
        invariant forall j :: 1 <= j <= i ==> slots[j].key <= key
        invariant ScanFrom(slots, key, 1) == ScanFrom(slots, key, i)
        decreases |slots| - i
      {
        if key >= slots[i + 1].key {
          i := i + 1;
        } else {
          break;
        }
      }
    }
    place := i;
  }

  /** Lookup: the child that covers `key`. */
  function Lookup(p: Internal, key: Key): (child: PageId)
    requires |p.slots| > 0
    ensures child in Children(p.slots)
    ensures child == p.slots[Route(p.slots, key)].child
  {
    p.slots[Route(p.slots, key)].child
  }

  // ---------------------------------------------------------------------------
  // Insertion

  /** PopulateNewRoot: a fresh root over two children. */
  function PopulateNewRoot(p: Internal, oldKey: Key, oldValue: PageId, newKey: Key, newValue: PageId): (p': Internal)
    requires p.slots == []
    ensures p'.slots == [Slot(oldKey, oldValue), Slot(newKey, newValue)]
    ensures p' == p.(slots := p'.slots)
  {
    p.(slots := [Slot(oldKey, oldValue), Slot(newKey, newValue)])
  }

  /** InsertNodeAfter: the new slot goes right after `oldValue`'s slot (after
      slot 0 when `oldValue` is absent); the new size is returned. */
  function InsertNodeAfter(p: Internal, oldValue: PageId, newKey: Key, newValue: PageId): (res: (Internal, nat))
    requires |p.slots| > 0
    ensures var (p', size) := res;
      && size == |p'.slots| == |p.slots| + 1
      && p' == p.(slots := p'.slots)
      && var i := ValueIndex(p.slots, oldValue);
         p'.slots == p.slots[..i + 1] + [Slot(newKey, newValue)] + p.slots[i + 1..]
  {
    var i := ValueIndex(p.slots, oldValue);
    var slots := p.slots[..i + 1] + [Slot(newKey, newValue)] + p.slots[i + 1..];
    (p.(slots := slots), |slots|)
  }

  /** After InsertNodeAfter the new child sits immediately after the old
      one. */
  lemma InsertNodeAfterPlacesChild(p: Internal, oldValue: PageId, newKey: Key, newValue: PageId)
    requires |p.slots| > 0 && oldValue in Children(p.slots)
    ensures var slots' := InsertNodeAfter(p, oldValue, newKey, newValue).0.slots;
      var i := ValueIndex(p.slots, oldValue);
      slots'[i].child == oldValue && slots'[i + 1] == Slot(newKey, newValue)
  {
    var slots' := InsertNodeAfter(p, oldValue, newKey, newValue).0.slots;
    ValueIndexOfChild(p.slots, oldValue);
    PlacedAfter(p.slots, slots', ValueIndex(p.slots, oldValue), Slot(newKey, newValue));
  }

  /** Every other child is kept, in order, around the new one. */
  lemma InsertNodeAfterKeepsChildren(p: Internal, oldValue: PageId, newKey: Key, newValue: PageId)
    requires |p.slots| > 0
    ensures var slots' := InsertNodeAfter(p, oldValue, newKey, newValue).0.slots;
      var i := ValueIndex(p.slots, oldValue);
      Children(slots') == Children(p.slots[..i + 1]) + [newValue] + Children(p.slots[i + 1..])
  {
    var slots' := InsertNodeAfter(p, oldValue, newKey, newValue).0.slots;
    ValueIndexInRange(p.slots, oldValue);
    PlacedAfter(p.slots, slots', ValueIndex(p.slots, oldValue), Slot(newKey, newValue));
  }

  lemma PlacedAfter(slots: seq<Slot>, slots': seq<Slot>, i: nat, s: Slot)
    requires i < |slots| && slots' == slots[..i + 1] + [s] + slots[i + 1..]
    ensures slots'[i] == slots[i] && slots'[i + 1] == s
    ensures Children(slots') == Children(slots[..i + 1]) + [s.child] + Children(slots[i + 1..])
  {
    ChildrenAround(slots[..i + 1], s, slots[i + 1..]);
  }

  lemma ValueIndexInRange(slots: seq<Slot>, value: PageId)
    requires |slots| > 0
    ensures ValueIndex(slots, value) < |slots|
  {
    if forall j :: 0 <= j < |slots| ==> slots[j].child != value {
    }
  }

  /** A child that is present is found by ValueIndex. */
  lemma ValueIndexOfChild(slots: seq<Slot>, value: PageId)
    requires value in Children(slots)
    ensures ValueIndex(slots, value) < |slots| && slots[ValueIndex(slots, value)].child == value
  {
    var cs := Children(slots);
    var j :| 0 <= j < |cs| && cs[j] == value;
    assert slots[j].child == value;
  }

  /** The children of a slot sequence with one slot inserted. */
  lemma ChildrenAround(a: seq<Slot>, s: Slot, b: seq<Slot>)
    ensures Children(a + [s] + b) == Children(a) + [s.child] + Children(b)
  {
    ChildrenConcat(a + [s], b);
    ChildrenConcat(a, [s]);
    assert Children([s]) == [s.child];
  }

  /** SetKeyAt. */
  function SetKeyAt(p: Internal, i: nat, key: Key): (p': Internal)
    requires i < |p.slots|
    ensures |p'.slots| == |p.slots| && p'.slots[i] == Slot(key, p.slots[i].child)
    ensures forall j :: 0 <= j < |p.slots| && j != i ==> p'.slots[j] == p.slots[j]
    ensures Children(p'.slots) == Children(p.slots)
    ensures p' == p.(slots := p'.slots)
  {
    p.(slots := p.slots[i := Slot(key, p.slots[i].child)])
  }

  /** EditNode: give the slot of child `oldValue` the key `newKey`; when no
      slot holds that child, slot 0's key is the one rewritten. The size is
      returned unchanged. */
  function EditNode(p: Internal, oldValue: PageId, newKey: Key): (res: (Internal, nat))
    requires |p.slots| > 0
    ensures res.1 == |res.0.slots| == |p.slots|
    ensures Children(res.0.slots) == Children(p.slots)
    ensures oldValue in Children(p.slots) ==>
      exists i :: 0 <= i < |p.slots| && p.slots[i].child == oldValue && res.0.slots[i].key == newKey
    ensures oldValue !in Children(p.slots) ==> res.0.slots[0].key == newKey
    ensures forall j :: 0 <= j < |p.slots| && res.0.slots[j].key != p.slots[j].key ==> res.0.slots[j].key == newKey
  {
    ValueIndexInRange(p.slots, oldValue);
    var i := ValueIndex(p.slots, oldValue);
    var p' := SetKeyAt(p, i, newKey);
    assert oldValue in Children(p.slots) ==> p.slots[i].child == oldValue by {
      if oldValue in Children(p.slots) {
        ValueIndexOfChild(p.slots, oldValue);
      }
    }
    (p', |p'.slots|)
  }

  // ---------------------------------------------------------------------------
  // Removal

  /** Remove: delete slot `i`, keeping the rest in order. */
  function Remove(p: Internal, i: nat): (p': Internal)
    requires i < |p.slots|
    ensures |p'.slots| == |p.slots| - 1
    ensures p'.slots == p.slots[..i] + p.slots[i + 1..]
    ensures p' == p.(slots := p'.slots)
  {
    p.(slots := p.slots[..i] + p.slots[i + 1..])
  }

  /** Removing a slot removes exactly its child from the child list. */
  lemma RemoveDropsChild(p: Internal, i: nat)
    requires i < |p.slots|
    ensures Children(Remove(p, i).slots) == Children(p.slots[..i]) + Children(p.slots[i + 1..])
    ensures Children(p.slots) == Children(p.slots[..i]) + [p.slots[i].child] + Children(p.slots[i + 1..])
  {
    ChildrenConcat(p.slots[..i], p.slots[i + 1..]);
    assert p.slots == p.slots[..i] + [p.slots[i]] + p.slots[i + 1..];
    ChildrenConcat(p.slots[..i] + [p.slots[i]], p.slots[i + 1..]);
    ChildrenConcat(p.slots[..i], [p.slots[i]]);
  }

  /** RemoveAndReturnOnlyChild: slot 0's child is returned and the size drops
      by one. */
  function RemoveAndReturnOnlyChild(p: Internal): (res: (Internal, PageId))
    requires |p.slots| > 0
    ensures res.1 == p.slots[0].child
    ensures |res.0.slots| == |p.slots| - 1 && res.0 == p.(slots := res.0.slots)
    ensures |p.slots| == 1 ==> res.0.slots == []
  {
    (p.(slots := p.slots[..|p.slots| - 1]), p.slots[0].child)
  }

  // ---------------------------------------------------------------------------
  // Moving slots between siblings (the tree re-parents the moved children)

  /** CopyNFrom: append `items`; the ASSERT at line 182 keeps the result below
      the maximum size. */
  function CopyNFrom(p: Internal, items: seq<Slot>): Internal
    requires |p.slots| + |items| < p.maxSize
  {
    p.(slots := p.slots + items)
  }

  /** MoveHalfTo: keep the first `minSize` slots; the rest go to the recipient,
      whose parent the moved children become. */
  function MoveHalfTo(p: Internal, recipient: Internal, minSize: nat): (res: (Internal, Internal))
    requires minSize <= |p.slots|
    requires |recipient.slots| + (|p.slots| - minSize) < recipient.maxSize
    ensures res.0 == p.(slots := p.slots[..minSize])
    ensures res.1 == recipient.(slots := recipient.slots + p.slots[minSize..])
    ensures res.0.slots + p.slots[minSize..] == p.slots
  {
    (p.(slots := p.slots[..minSize]), CopyNFrom(recipient, p.slots[minSize..]))
  }

  /** MoveAllTo: every slot goes to the end of the recipient (the left sibling). */
  function MoveAllTo(p: Internal, recipient: Internal): (res: (Internal, Internal))
    requires |recipient.slots| + |p.slots| < recipient.maxSize
    ensures res.0 == p.(slots := [])
    ensures res.1 == recipient.(slots := recipient.slots + p.slots)
  {
    (p.(slots := []), CopyNFrom(recipient, p.slots))
  }

  function CopyLastFrom(p: Internal, item: Slot): Internal
  {
    p.(slots := p.slots + [item])
  }

  function CopyFirstFrom(p: Internal, item: Slot): Internal
  {
    p.(slots := [item] + p.slots)
  }

  /** MoveFirstToEndOf: this page is the right sibling; its first slot moves to
      the end of the recipient. */
  function MoveFirstToEndOf(p: Internal, recipient: Internal): (res: (Internal, Internal))
    requires |p.slots| > 0
    ensures res.1.slots + res.0.slots == recipient.slots + p.slots
    ensures res.1.slots == recipient.slots + [p.slots[0]] && res.0.slots == p.slots[1..]
    ensures res.0 == p.(slots := res.0.slots) && res.1 == recipient.(slots := res.1.slots)
  {
    (p.(slots := p.slots[1..]), CopyLastFrom(recipient, p.slots[0]))
  }

  /** MoveLastToFrontOf: this page is the left sibling; its last slot moves to
      the front of the recipient. */
  function MoveLastToFrontOf(p: Internal, recipient: Internal): (res: (Internal, Internal))
    requires |p.slots| > 0
    ensures res.0.slots + res.1.slots == p.slots + recipient.slots
    ensures res.1.slots == [p.slots[|p.slots| - 1]] + recipient.slots
    ensures res.0.slots == p.slots[..|p.slots| - 1]
    ensures res.0 == p.(slots := res.0.slots) && res.1 == recipient.(slots := res.1.slots)
  {
    (p.(slots := p.slots[..|p.slots| - 1]), CopyFirstFrom(recipient, p.slots[|p.slots| - 1]))
  }

  /** Merging a page into its left sibling hands every child over in order:
      the recipient's children are its own followed by the page's. */
  lemma MoveAllToKeepsChildren(p: Internal, recipient: Internal)
    requires |recipient.slots| + |p.slots| < recipient.maxSize
    ensures var (emptied, merged) := MoveAllTo(p, recipient);
      && Children(emptied.slots) == []
      && Children(merged.slots) == Children(recipient.slots) + Children(p.slots)
  {
    ChildrenConcat(recipient.slots, p.slots);
  }

  /** Splitting into an empty recipient loses and duplicates no child: the
      two pages' children, read left to right, are the page's children. */
  lemma MoveHalfToKeepsChildren(p: Internal, recipient: Internal, minSize: nat)
    requires minSize <= |p.slots| && recipient.slots == []
    requires |p.slots| - minSize < recipient.maxSize
    ensures var (left, right) := MoveHalfTo(p, recipient, minSize);
      Children(left.slots) + Children(right.slots) == Children(p.slots)
  {
    var (left, right) := MoveHalfTo(p, recipient, minSize);
    assert right.slots == p.slots[minSize..];
    ChildrenConcat(left.slots, right.slots);
  }
}
