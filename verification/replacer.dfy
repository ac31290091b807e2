/** LRUReplacer: the frames that may be evicted, most recently unpinned first.
    The source keeps a `std::list` (`m_track`) plus an index from frame id to
    list position (`m_table`); the index only makes lookups fast, so the model
    keeps the list alone. Unpin pushes to the front and Victim pops the back. */
module Replacer {
  import opened Wrappers

  /** frame_id_t. */
  type FrameId = int

  /** `m_size` is the capacity given to the constructor, `track` is `m_track`
      from front (most recent) to back (least recent). */
  datatype Replacer = Replacer(capacity: nat, track: seq<FrameId>)

  /** The process exit Unpin performs when the list is already full. */
  datatype ReplacerError = ExitOnFull

  predicate NoDuplicates(s: seq<FrameId>) {
    forall i, j :: 0 <= i < j < |s| ==> s[i] != s[j]
  }

  /** Every frame is tracked at most once and the list never exceeds the capacity. */
  predicate Valid(r: Replacer) {
    NoDuplicates(r.track) && |r.track| <= r.capacity
  }

  /** The constructor: nothing tracked. */
  function Init(numPages: nat): (r: Replacer)
    ensures Valid(r) && Size(r) == 0
  {
    Replacer(numPages, [])
  }

  /** Size: the number of evictable frames. */
  function Size(r: Replacer): nat {
    |r.track|
  }

  /** The position of `f` in `s`. */
  function IndexOf(s: seq<FrameId>, f: FrameId): (i: nat)
    requires f in s
    ensures i < |s| && s[i] == f
    ensures forall j :: 0 <= j < i ==> s[j] != f
  {
    if s[0] == f then 0 else 1 + IndexOf(s[1..], f)
  }

  /** `s` with the entry at `f`'s position erased. */
  function Erase(s: seq<FrameId>, f: FrameId): (t: seq<FrameId>)
    requires f in s
    ensures |t| == |s| - 1
    ensures forall g :: g in t ==> g in s
  {
    var i := IndexOf(s, f);
    assert s == s[..i] + [f] + s[i + 1..];
    s[..i] + s[i + 1..]
  }

  /** Erasing a frame from a list without duplicates removes exactly that frame,
      keeps the others in order and keeps the list free of duplicates. */
  lemma EraseSpec(s: seq<FrameId>, f: FrameId)
    requires f in s && NoDuplicates(s)
    ensures var t := Erase(s, f);
      && f !in t
      && (forall g :: g in t <==> g in s && g != f)
      && NoDuplicates(t)
  {
    var i := IndexOf(s, f);
    var t := Erase(s, f);
    forall k | 0 <= k < |t|
      ensures t[k] == if k < i then s[k] else s[k + 1]
    {
    }
    forall g | g in s && g != f
      ensures g in t
    {
      var k :| 0 <= k < |s| && s[k] == g;
      if k < i {
        assert t[k] == g;
      } else {
        assert t[k - 1] == g;
      }
    }
  }

  /** Victim: pop the least recently unpinned frame, or report that there is none. */
  function Victim(r: Replacer): (res: (Option<FrameId>, Replacer))
    ensures res.0.None? <==> |r.track| == 0
    ensures res.0.None? ==> res.1 == r
    ensures res.0.Some? ==>
      && res.0.value == r.track[|r.track| - 1]
      && res.1 == r.(track := r.track[..|r.track| - 1])
    ensures Valid(r) ==> Valid(res.1)
    ensures Valid(r) && res.0.Some? ==> res.0.value !in res.1.track
  {
    if |r.track| == 0 then (None, r)
    else (Some(r.track[|r.track| - 1]), r.(track := r.track[..|r.track| - 1]))
  }

  /** Pin: the frame is in use, so it is no longer evictable. */
  function Pin(r: Replacer, f: FrameId): (r': Replacer)
    ensures f !in r.track ==> r' == r
    ensures f in r.track ==> r' == r.(track := Erase(r.track, f))
    ensures forall g :: g in r'.track ==> g in r.track
  {
    if f !in r.track then r else r.(track := Erase(r.track, f))
  }

  /** Unpin: make the frame evictable as the most recent one; a frame already
      tracked keeps its place. A full list ends the process. */
  function Unpin(r: Replacer, f: FrameId): (res: Result<Replacer, ReplacerError>)
    ensures res.Failure? <==> |r.track| >= r.capacity
    ensures res.Success? && f in r.track ==> res.value == r
    ensures res.Success? && f !in r.track ==> res.value == r.(track := [f] + r.track)
    ensures res.Success? ==> f in res.value.track
    ensures Valid(r) && res.Success? ==> Valid(res.value)
  {
    if |r.track| >= r.capacity then Failure(ExitOnFull)
    else if f in r.track then Success(r)
    else Success(r.(track := [f] + r.track))
  }

  // ---------------------------------------------------------------------------
  // The invariant

  lemma PinPreservesValid(r: Replacer, f: FrameId)
    requires Valid(r)
    ensures Valid(Pin(r, f))
    ensures f !in Pin(r, f).track
    ensures forall g :: g in Pin(r, f).track <==> g in r.track && g != f
    ensures Size(Pin(r, f)) == if f in r.track then Size(r) - 1 else Size(r)
  {
    if f in r.track {
      EraseSpec(r.track, f);
    }
  }

  /** Size counts distinct frames: the tracked list holds as many frames as the
      set of frames it mentions. */
  lemma {:induction false} SizeCountsDistinctFrames(s: seq<FrameId>)
    requires NoDuplicates(s)
    ensures |set f | f in s| == |s|
  {
    if s != [] {
      var t := s[1..];
      assert NoDuplicates(t);
      SizeCountsDistinctFrames(t);
      assert s[0] !in t;
      assert (set f | f in s) == {s[0]} + (set f | f in t);
    }
  }

  // ---------------------------------------------------------------------------
  // Eviction order

  /** The frames repeated Victim calls hand out until the replacer is empty. */
  function Drain(r: Replacer): (out: seq<FrameId>)
    decreases |r.track|
  {
    match Victim(r).0
    case None => []
    case Some(f) => [f] + Drain(Victim(r).1)
  }

  function Reverse(s: seq<FrameId>): (t: seq<FrameId>)
    ensures |t| == |s|
  {
    if s == [] then [] else Reverse(s[1..]) + [s[0]]
  }

  /** Victim hands frames out least recently unpinned first: the reverse of the
      tracked list. */
  lemma {:induction false} DrainIsReverse(r: Replacer)
    ensures Drain(r) == Reverse(r.track)
    decreases |r.track|
  {
    if r.track != [] {
      var s := r.track;
      var r' := Victim(r).1;
      DrainIsReverse(r');
      ReverseSnoc(s[..|s| - 1], s[|s| - 1]);
      assert s == s[..|s| - 1] + [s[|s| - 1]];
    }
  }

  lemma {:induction false} ReverseSnoc(s: seq<FrameId>, x: FrameId)
    ensures Reverse(s + [x]) == [x] + Reverse(s)
  {
    if s != [] {
      assert (s + [x])[1..] == s[1..] + [x];
      ReverseSnoc(s[1..], x);
    }
  }

  /** A frame unpinned now is evicted after every frame already evictable. */
  lemma UnpinEvictedLast(r: Replacer, f: FrameId)
    requires Unpin(r, f).Success? && f !in r.track
    ensures Drain(Unpin(r, f).value) == Drain(r) + [f]
  {
    var r' := Unpin(r, f).value;
    DrainIsReverse(r);
    DrainIsReverse(r');
    assert r'.track == [f] + r.track;
    assert Reverse([f] + r.track) == Reverse(r.track) + [f] by {
      assert ([f] + r.track)[1..] == r.track;
    }
  }

  // ---------------------------------------------------------------------------
  // Unpin of a tracked frame on a full replacer

  /** Line 26 tests the capacity before line 28 tests membership, so unpinning
      a frame that is already tracked ends the process once every slot is taken. */
  lemma UnpinTrackedWhenFullExits()
    ensures Unpin(Replacer(1, [0]), 0) == Failure(ExitOnFull)
    ensures Valid(Replacer(1, [0]))
  {
  }

  /** Unpin with the membership test first: a tracked frame is a no-op whatever
      the occupancy, and only a new frame needs a free slot. */
  function UnpinChecked(r: Replacer, f: FrameId): (res: Result<Replacer, ReplacerError>)
    ensures res.Failure? <==> f !in r.track && |r.track| >= r.capacity
    ensures res.Success? && f in r.track ==> res.value == r
    ensures res.Success? && f !in r.track ==> res.value == r.(track := [f] + r.track)
    ensures res.Success? ==> f in res.value.track
    ensures Valid(r) && res.Success? ==> Valid(res.value)
  {
    if f in r.track then Success(r)
    else if |r.track| >= r.capacity then Failure(ExitOnFull)
    else Success(r.(track := [f] + r.track))
  }

  /** The corrected Unpin agrees with the original whenever the original does not exit. */
  lemma UnpinCheckedExtendsUnpin(r: Replacer, f: FrameId)
    ensures Unpin(r, f).Success? ==> UnpinChecked(r, f) == Unpin(r, f)
    ensures UnpinChecked(r, f).Failure? ==> Unpin(r, f).Failure?
  {
  }

  /** The frame ids 0 .. n-1. */
  function FramesBelow(n: nat): set<FrameId> {
    if n == 0 then {} else FramesBelow(n - 1) + {n - 1}
  }

  lemma {:induction false} InFramesBelow(n: nat, f: FrameId)
    ensures f in FramesBelow(n) <==> 0 <= f < n
  {
    if n > 0 {
      InFramesBelow(n - 1, f);
    }
  }

  lemma {:induction false} FramesBelowSize(n: nat)
    ensures |FramesBelow(n)| == n
  {
    if n > 0 {
      FramesBelowSize(n - 1);
      InFramesBelow(n - 1, n - 1);
    }
  }

  /** A list without duplicates drawn from a finite set is no longer than the set. */
  lemma {:induction false} DistinctWithin(s: seq<FrameId>, frames: set<FrameId>)
    requires NoDuplicates(s)
    requires forall i :: 0 <= i < |s| ==> s[i] in frames
    ensures |s| <= |frames|
  {
    if s != [] {
      assert NoDuplicates(s[1..]);
      DistinctWithin(s[1..], frames - {s[0]});
    }
  }

  /** When the tracked frames are ids below the capacity, a frame id below the
      capacity that is not tracked always finds a free slot, so the corrected
      Unpin of any frame succeeds. */
  lemma UnpinCheckedSucceeds(r: Replacer, f: FrameId)
    requires Valid(r)
    requires forall g :: g in r.track ==> 0 <= g < r.capacity
    requires 0 <= f < r.capacity
    ensures UnpinChecked(r, f).Success?
  {
    if f !in r.track {
      FramesBelowSize(r.capacity);
      InFramesBelow(r.capacity, f);
      forall i | 0 <= i < |r.track|
        ensures r.track[i] in FramesBelow(r.capacity) - {f}
      {
        assert r.track[i] in r.track;
        InFramesBelow(r.capacity, r.track[i]);
      }
      DistinctWithin(r.track, FramesBelow(r.capacity) - {f});
    }
  }
}
