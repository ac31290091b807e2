/** BPlusTreeLeafPage: a sorted run of (key, value) entries plus the id of the
    next leaf. The page is modelled by its live entries only (slots 0 .. size-1);
    what the fixed-size array holds beyond them is modelled in StaleSlots.
    Keys are ints, as in the tree tests. An ASSERT of the source becomes a
    precondition. */
module LeafPage {
  import opened Common
  import opened Wrappers

  type Key = int

  datatype Entry = Entry(key: Key, value: int)

  datatype Leaf = Leaf(pageId: PageId, parentId: PageId, nextPageId: PageId, maxSize: int, entries: seq<Entry>)

  /** The page invariant: keys strictly increase from slot 0. */
  predicate SortedKeys(es: seq<Entry>) {
    forall i, j :: 0 <= i < j < |es| ==> es[i].key < es[j].key
  }

  predicate HasKey(es: seq<Entry>, key: Key) {
    exists i :: 0 <= i < |es| && es[i].key == key
  }

  /** Init: an empty leaf with no successor. */
  function Init(pageId: PageId, parentId: PageId, maxSize: int): (l: Leaf)
    requires maxSize > 0
    ensures l.entries == [] && l.nextPageId == INVALID_PAGE_ID
    ensures l.pageId == pageId && l.parentId == parentId && l.maxSize == maxSize
  {
    Leaf(pageId, parentId, INVALID_PAGE_ID, maxSize, [])
  }

  // ---------------------------------------------------------------------------
  // Searching

  /** The first slot whose key is at least `key`, or the size when there is none. */
  function LowerBound(es: seq<Entry>, key: Key): (i: nat)
    ensures i <= |es|
    ensures forall j :: 0 <= j < i ==> es[j].key < key
    ensures i < |es| ==> es[i].key >= key
  {
    if es == [] || es[0].key >= key then 0 else 1 + LowerBound(es[1..], key)
  }

  /** The lower bound is the only slot with the two properties above. */
  lemma LowerBoundUnique(es: seq<Entry>, key: Key, i: nat)
    requires i <= |es|
    requires forall j :: 0 <= j < i ==> es[j].key < key
    requires i < |es| ==> es[i].key >= key
    ensures LowerBound(es, key) == i
  {
  }

  /** my_lower_bound: the source's binary search over the live slots. */
  method MyLowerBound(es: seq<Entry>, key: Key) returns (start: nat)
    requires SortedKeys(es)
    ensures start == LowerBound(es, key)
  {
    if |es| == 0 {
      return 0;
    }
    start := 0;
    var end := |es| - 1;
    while start < end
      invariant 0 <= start <= end < |es|
      invariant forall j :: 0 <= j < start ==> es[j].key < key
      invariant end < |es| - 1 ==> es[end].key >= key
      decreases end - start
    {
      var mid := start + (end - start) / 2;
      if es[mid].key >= key {
        end := mid;
      } else {
        start := mid + 1;
      }
    }
    if es[start].key < key {
      start := start + 1;
    }
    LowerBoundUnique(es, key, start);
  }

  /** The slot holding `key`; the key must be present. */
  function IndexOfKey(es: seq<Entry>, key: Key): (i: nat)
    requires SortedKeys(es) && HasKey(es, key)
    ensures i < |es| && es[i].key == key
    ensures forall j :: 0 <= j < |es| && j != i ==> es[j].key != key
  {
    var i := LowerBound(es, key);
    assert i < |es| && es[i].key == key by {
      var j :| 0 <= j < |es| && es[j].key == key;
    }
    i
  }

  /** KeyIndex: a binary search over slots 0 .. size (line 48 sets the upper end
      to the size itself); the key must be present (line 62). For a present key
      the search never reaches slot `size`. */
  method KeyIndex(es: seq<Entry>, key: Key) returns (mid: int)
    requires SortedKeys(es) && HasKey(es, key)
    ensures mid == IndexOfKey(es, key)
  {
    var j := IndexOfKey(es, key);
    var start := 0;
    var end := |es|;
    mid := (start + end) / 2;
    while start <= end
      invariant 0 <= start <= j <= end <= |es|
      invariant mid == (start + end) / 2
      decreases end - start
    {
      if key < es[mid].key {
        end := mid - 1;
        mid := (start + end) / 2;
      } else if key == es[mid].key {
        break;
      } else {
        start := mid + 1;
        mid := (start + end) / 2;
      }
    }
    assert start <= end;
  }

  /** Lookup: the value stored under `key`, if any. */
  function Lookup(es: seq<Entry>, key: Key): (r: Option<int>)
    ensures r.Some? ==> exists i :: 0 <= i < |es| && es[i] == Entry(key, r.value)
    ensures SortedKeys(es) ==> (r.None? <==> !HasKey(es, key))
    ensures SortedKeys(es) && r.Some? ==> es[IndexOfKey(es, key)].value == r.value
  {
    var i := LowerBound(es, key);
    if i < |es| && es[i].key == key then Some(es[i].value) else None
  }

  // ---------------------------------------------------------------------------
  // Insert and remove

  /** Insert: an absent key goes in at its lower bound (the ASSERT at line 115
      rules out a present key); the new size is returned. */
  function Insert(l: Leaf, key: Key, value: int): (res: (Leaf, nat))
    requires SortedKeys(l.entries) && !HasKey(l.entries, key)
    ensures var (l', size) := res;
      && size == |l'.entries| == |l.entries| + 1
      && SortedKeys(l'.entries)
      && l' == l.(entries := l'.entries)
      && var i := LowerBound(l.entries, key);
         l'.entries == l.entries[..i] + [Entry(key, value)] + l.entries[i..]
  {
    var i := LowerBound(l.entries, key);
    var es := l.entries[..i] + [Entry(key, value)] + l.entries[i..];
    assert SortedKeys(es) by {
      forall a, b | 0 <= a < b < |es|
        ensures es[a].key < es[b].key
      {
        if b == i {
        } else if a == i {
          assert es[b] == l.entries[b - 1];
        } else if a < i && b < i {
        } else if a > i {
          assert es[a] == l.entries[a - 1] && es[b] == l.entries[b - 1];
        } else {
          assert es[b] == l.entries[b - 1];
        }
      }
    }
    (l.(entries := es), |es|)
  }

  /** Insert adds exactly the new entry. */
  lemma InsertAddsEntry(l: Leaf, key: Key, value: int)
    requires SortedKeys(l.entries) && !HasKey(l.entries, key)
    ensures forall e :: e in Insert(l, key, value).0.entries <==> e in l.entries || e == Entry(key, value)
    ensures Lookup(Insert(l, key, value).0.entries, key) == Some(value)
  {
    var es := Insert(l, key, value).0.entries;
    var i := LowerBound(l.entries, key);
    assert es == l.entries[..i] + [Entry(key, value)] + l.entries[i..];
    assert l.entries == l.entries[..i] + l.entries[i..];
    assert HasKey(es, key) by {
      assert es[i].key == key;
    }
  }

  /** `es` without slot `i`, the rest kept in order. */
  function RemoveAt<T>(es: seq<T>, i: nat): (r: seq<T>)
    requires i < |es|
    ensures |r| == |es| - 1
    ensures forall j :: 0 <= j < i ==> r[j] == es[j]
    ensures forall j :: i <= j < |r| ==> r[j] == es[j + 1]
  {
    es[..i] + es[i + 1..]
  }

  /** RemoveAndDeleteRecord: drop the key's entry if present; the new size is
      returned either way. */
  function RemoveAndDeleteRecord(l: Leaf, key: Key): (res: (Leaf, nat))
    requires SortedKeys(l.entries)
    ensures res.1 == |res.0.entries|
    ensures res.0 == l.(entries := res.0.entries)
    ensures !HasKey(l.entries, key) ==> res.0 == l
    ensures HasKey(l.entries, key) ==>
      res.0.entries == RemoveAt(l.entries, IndexOfKey(l.entries, key))
  {
    if Lookup(l.entries, key).Some? then
      var es := RemoveAt(l.entries, IndexOfKey(l.entries, key));
      (l.(entries := es), |es|)
    else (l, |l.entries|)
  }

  lemma RemoveAtKeepsSorted(es: seq<Entry>, i: nat)
    requires SortedKeys(es) && i < |es|
    ensures SortedKeys(RemoveAt(es, i))
  {
    var r := RemoveAt(es, i);
    forall a, b | 0 <= a < b < |r|
      ensures r[a].key < r[b].key
    {
      var a' := if a < i then a else a + 1;
      var b' := if b < i then b else b + 1;
      assert r[a] == es[a'] && r[b] == es[b'];
    }
  }

  /** The entries left after removing slot `i` are exactly the others. */
  lemma RemoveAtMembers<T>(es: seq<T>, i: nat)
    requires i < |es|
    ensures forall e :: e in RemoveAt(es, i) <==> exists j :: 0 <= j < |es| && j != i && es[j] == e
  {
    var r := RemoveAt(es, i);
    forall e
      ensures e in r <==> exists j :: 0 <= j < |es| && j != i && es[j] == e
    {
      if e in r {
        var k :| 0 <= k < |r| && r[k] == e;
        var j := if k < i then k else k + 1;
        assert es[j] == e;
      }
      if exists j :: 0 <= j < |es| && j != i && es[j] == e {
        var j :| 0 <= j < |es| && j != i && es[j] == e;
        var k := if j < i then j else j - 1;
        assert r[k] == e;
      }
    }
  }

  /** Removing keeps the page sorted and takes away exactly the key's entry. */
  lemma RemoveTakesKey(l: Leaf, key: Key)
    requires SortedKeys(l.entries)
    ensures var es := RemoveAndDeleteRecord(l, key).0.entries;
      && SortedKeys(es)
      && !HasKey(es, key)
      && (forall e :: e in es <==> e in l.entries && e.key != key)
  {
    if HasKey(l.entries, key) {
      var i := IndexOfKey(l.entries, key);
      RemoveAtKeepsSorted(l.entries, i);
      RemoveAtMembers(l.entries, i);
    }
  }

  // ---------------------------------------------------------------------------
  // Moving entries between siblings

  /** CopyNFrom: append `items`; the ASSERT at line 151 keeps the result below
      the maximum size. */
  function CopyNFrom(l: Leaf, items: seq<Entry>): Leaf
    requires |l.entries| + |items| < l.maxSize
  {
    l.(entries := l.entries + items)
  }

  /** MoveHalfTo: keep the first `minSize` entries and append the rest to the
      recipient. */
  function MoveHalfTo(l: Leaf, recipient: Leaf, minSize: nat): (res: (Leaf, Leaf))
    requires minSize <= |l.entries|
    requires |recipient.entries| + (|l.entries| - minSize) < recipient.maxSize
    ensures |res.0.entries| == minSize
    ensures |res.1.entries| == |recipient.entries| + |l.entries| - minSize
    ensures res.0.entries + res.1.entries[|recipient.entries|..] == l.entries
    ensures res.1.entries[..|recipient.entries|] == recipient.entries
    ensures res.0 == l.(entries := res.0.entries) && res.1 == recipient.(entries := res.1.entries)
  {
    (l.(entries := l.entries[..minSize]), CopyNFrom(recipient, l.entries[minSize..]))
  }

  /** MoveAllTo: append every entry to the recipient (the left sibling), empty
      this page and hand over its successor link. */
  function MoveAllTo(l: Leaf, recipient: Leaf): (res: (Leaf, Leaf))
    requires |recipient.entries| + |l.entries| < recipient.maxSize
    ensures res.0 == l.(entries := [])
    ensures res.1 == recipient.(entries := recipient.entries + l.entries, nextPageId := l.nextPageId)
  {
    (l.(entries := []), CopyNFrom(recipient, l.entries).(nextPageId := l.nextPageId))
  }

  function CopyLastFrom(l: Leaf, item: Entry): Leaf
  {
    l.(entries := l.entries + [item])
  }

  function CopyFirstFrom(l: Leaf, item: Entry): Leaf
  {
    l.(entries := [item] + l.entries)
  }

  /** MoveFirstToEndOf: this page is the right sibling; its first entry moves
      to the end of the recipient. */
  function MoveFirstToEndOf(l: Leaf, recipient: Leaf): (res: (Leaf, Leaf))
    requires |l.entries| > 0
    ensures res.1.entries + res.0.entries == recipient.entries + l.entries
    ensures |res.0.entries| == |l.entries| - 1 && |res.1.entries| == |recipient.entries| + 1
    ensures res.0 == l.(entries := res.0.entries) && res.1 == recipient.(entries := res.1.entries)
  {
    (l.(entries := l.entries[1..]), CopyLastFrom(recipient, l.entries[0]))
  }

  /** MoveLastToFrontOf: this page is the left sibling; its last entry moves to
      the front of the recipient. */
  function MoveLastToFrontOf(l: Leaf, recipient: Leaf): (res: (Leaf, Leaf))
    requires |l.entries| > 0
    ensures res.0.entries + res.1.entries == l.entries + recipient.entries
    ensures |res.0.entries| == |l.entries| - 1 && |res.1.entries| == |recipient.entries| + 1
    ensures res.0 == l.(entries := res.0.entries) && res.1 == recipient.(entries := res.1.entries)
  {
    (l.(entries := l.entries[..|l.entries| - 1]), CopyFirstFrom(recipient, l.entries[|l.entries| - 1]))
  }

  /** Concatenating two sorted runs, all of the first below all of the second,
      is sorted; this is what keeps neighbouring leaves sorted when entries
      move between them. */
  lemma SortedConcat(a: seq<Entry>, b: seq<Entry>)
    requires SortedKeys(a) && SortedKeys(b)
    requires forall i, j :: 0 <= i < |a| && 0 <= j < |b| ==> a[i].key < b[j].key
    ensures SortedKeys(a + b)
  {
  }

  /** Both pieces of a sorted run are sorted. */
  lemma SortedSplit(a: seq<Entry>, b: seq<Entry>)
    requires SortedKeys(a + b)
    ensures SortedKeys(a) && SortedKeys(b)
    ensures forall i, j :: 0 <= i < |a| && 0 <= j < |b| ==> a[i].key < b[j].key
  {
    forall i, j | 0 <= i < j < |b|
      ensures b[i].key < b[j].key
    {
      assert (a + b)[|a| + i] == b[i] && (a + b)[|a| + j] == b[j];
      assert (a + b)[|a| + i].key < (a + b)[|a| + j].key;
    }
    forall i, j | 0 <= i < |a| && 0 <= j < |b|
      ensures a[i].key < b[j].key
    {
      assert (a + b)[i] == a[i] && (a + b)[|a| + j] == b[j];
      assert (a + b)[i].key < (a + b)[|a| + j].key;
    }
    forall i, j | 0 <= i < j < |a|
      ensures a[i].key < a[j].key
    {
      assert (a + b)[i] == a[i] && (a + b)[j] == a[j];
    }
  }

  /** A split of a sorted leaf into an empty recipient leaves two sorted
      leaves, every kept key below every moved one. */
  lemma MoveHalfToKeepsOrder(l: Leaf, recipient: Leaf, minSize: nat)
    requires minSize <= |l.entries| && recipient.entries == []
    requires |l.entries| - minSize < recipient.maxSize
    requires SortedKeys(l.entries)
    ensures var (left, right) := MoveHalfTo(l, recipient, minSize);
      && SortedKeys(left.entries) && SortedKeys(right.entries)
      && left.entries + right.entries == l.entries
      && forall i, j :: 0 <= i < |left.entries| && 0 <= j < |right.entries| ==> left.entries[i].key < right.entries[j].key
  {
    var (left, right) := MoveHalfTo(l, recipient, minSize);
    assert right.entries == right.entries[|recipient.entries|..];
    SortedSplit(left.entries, right.entries);
  }

  /** Merging a leaf into its left sibling, whose keys are all smaller, keeps
      the recipient sorted and holding exactly the entries of both. */
  lemma MoveAllToMerges(l: Leaf, recipient: Leaf)
    requires |recipient.entries| + |l.entries| < recipient.maxSize
    requires SortedKeys(recipient.entries) && SortedKeys(l.entries)
    requires forall i, j :: 0 <= i < |recipient.entries| && 0 <= j < |l.entries| ==> recipient.entries[i].key < l.entries[j].key
    ensures var merged := MoveAllTo(l, recipient).1.entries;
      && SortedKeys(merged)
      && forall e :: e in merged <==> e in recipient.entries || e in l.entries
  {
    SortedConcat(recipient.entries, l.entries);
  }

  /** Moving the right sibling's first entry to the left sibling keeps both
      sorted and every key of the left below every key of the right. */
  lemma MoveFirstToEndOfKeepsOrder(l: Leaf, recipient: Leaf)
    requires |l.entries| > 0
    requires SortedKeys(recipient.entries + l.entries)
    ensures var (right, left) := MoveFirstToEndOf(l, recipient);
      && SortedKeys(left.entries) && SortedKeys(right.entries)
      && forall i, j :: 0 <= i < |left.entries| && 0 <= j < |right.entries| ==> left.entries[i].key < right.entries[j].key
  {
    var (right, left) := MoveFirstToEndOf(l, recipient);
    SortedSplit(left.entries, right.entries);
  }

  /** Moving the left sibling's last entry to the right sibling keeps both
      sorted and every key of the left below every key of the right. */
  lemma MoveLastToFrontOfKeepsOrder(l: Leaf, recipient: Leaf)
    requires |l.entries| > 0
    requires SortedKeys(l.entries + recipient.entries)
    ensures var (left, right) := MoveLastToFrontOf(l, recipient);
      && SortedKeys(left.entries) && SortedKeys(right.entries)
      && forall i, j :: 0 <= i < |left.entries| && 0 <= j < |right.entries| ==> left.entries[i].key < right.entries[j].key
  {
    var (left, right) := MoveLastToFrontOf(l, recipient);
    SortedSplit(left.entries, right.entries);
  }
}
