/**
  The stretch views read a counter of the other side up to three times.  Between two reads the other
  side may move it on; here each read (assertions aside) sees the counter as it is then, and the
  question is when the stretch that comes out may be used.
 */
module StretchRaces {
  import opened Words
  import opened RingBuffers

  // ---- back_stretch while a consumer releases slots ----

  /** The ring once the consumer has released n more slots. */
  function Released<T>(r: Ring<T>, n: nat): Ring<T>
    requires r.Valid() && n <= r.Size()
  {
    r.CapacityBounds();
    r.AdvanceFront(n)
  }

  /** back_stretch(): j slots are released between its first two reads of front_, k between the last two. */
  function BackStretchSeen<T>(r: Ring<T>, j: nat, k: nat): Stretch
    requires r.Valid() && j + k <= r.Size()
  {
    var b := r.SlotOf(r.back);
    r.CapacityBounds();
    if r.back == WrapAdd(r.front, r.Capacity()) then Stretch(b, 0)
    else if b >= r.SlotOf(Released(r, j).front) then Stretch(b, r.Capacity() - b)
    else Stretch(b, WrapSub(r.SlotOf(Released(r, j + k).front), b))
  }

  /** A stretch is a run of free slots, the next ones to fill. */
  ghost predicate FreeRun<T>(r: Ring<T>, s: Stretch) {
    r.Valid() && SlotsIn(s) <= FreeSlots(r)
  }

  /**
    The front is behind the back in the array at the second read, passes the end of the array before
    the third, and does not catch up with the back.
   */
  predicate FrontWraps<T>(r: Ring<T>, j: nat, k: nat)
    requires r.Valid() && j + k <= r.Size()
  {
    && r.Size() < r.Capacity() && j + k < r.Size()
    && r.SlotOf(r.back) < r.SlotOf(Released(r, j).front)
    && r.Capacity() <= r.SlotOf(Released(r, j).front) + k
  }

  lemma ReleasedFront<T>(r: Ring<T>, n: nat)
    requires r.Valid() && n <= r.Size()
    ensures Released(r, n).Valid() && Released(r, n).Size() == r.Size() - n && Released(r, n).back == r.back
    ensures Released(r, n).SlotOf(Released(r, n).front) == r.SlotOf(Released(r, n).front) == r.At(n)
    ensures Released(r, n).SlotOf(r.back) == r.SlotOf(r.back) == r.At(r.Size())
  {
    r.CapacityBounds();
    SlotWraps(r, n);
    BackSlot(r);
  }

  lemma ReleasedTwice<T>(r: Ring<T>, n: nat, m: nat)
    requires r.Valid() && n + m <= r.Size()
    ensures Released(r, n).Valid() && m <= Released(r, n).Size()
    ensures Released(Released(r, n), m) == Released(r, n + m)
    ensures Released(r, n).Contents() == r.Contents()[n..] && Released(r, n + m).Contents() == r.Contents()[n + m..]
    ensures r.Contents()[..n] + r.Contents()[n..][..m] == r.Contents()[..n + m]
  {
    AdvanceFrontDrops(r, n);
    AdvanceFrontDrops(r, n + m);
    r.CapacityBounds();
    assert Released(Released(r, n), m).front == Released(r, n + m).front;
  }

  /** What is stored in free slots stays there while slots are released. */
  lemma ReleaseKeepsPending<T>(r: Ring<T>, n: nat, m: nat)
    requires r.Valid() && n <= r.Size() && r.Size() + m <= r.Capacity()
    ensures Released(r, n).Valid() && Released(r, n).Size() == r.Size() - n
    ensures Released(r, n).Pending(m) == r.Pending(m)
  {
    ReleasedFront(r, n);
    var q := Released(r, n);
    forall i: nat | i < m
      ensures q.Pending(m)[i] == r.Pending(m)[i]
    {
      assert q.At(q.Size() + i) == r.At(r.Size() + i);
    }
  }

  /** What comes out, in terms of places: the last read counts only in the last branch. */
  lemma SeenIs<T>(r: Ring<T>, j: nat, k: nat)
    requires r.Valid() && j + k <= r.Size()
    ensures var b := r.At(r.Size());
            BackStretchSeen(r, j, k) ==
            if r.Size() == r.Capacity() then Stretch(b, 0)
            else if b >= r.At(j) then Stretch(b, r.Capacity() - b)
            else Stretch(b, WrapSub(r.At(j + k), b))
    ensures FrontWraps(r, j, k) <==>
            && r.Size() < r.Capacity() && j + k < r.Size()
            && r.At(r.Size()) < r.At(j) && r.Capacity() <= r.At(j) + k
  {
    ReleasedFront(r, j);
    ReleasedFront(r, j + k);
    BackSlot(r);
  }

  /** A stretch from the back slot on is free as far as there are free slots and the array reaches. */
  lemma FreeRunExactly<T>(r: Ring<T>, s: Stretch)
    requires r.Valid() && s.start == r.At(r.Size())
    ensures FreeRun(r, s) <==> s.len <= r.FreeSize() && s.start + s.len <= r.Capacity()
  {
    var free, seen := FreeSlots(r), SlotsIn(s);
    if s.len <= r.FreeSize() && s.start + s.len <= r.Capacity() {
      assert forall i: nat | i < s.len :: seen[i] == free[i];
    } else if s.len <= r.FreeSize() {
      assert seen[r.Capacity() - s.start] != free[r.Capacity() - s.start];
    }
  }

  lemma ReleasedPlaces<T>(r: Ring<T>, n: nat)
    requires r.Valid() && n <= r.Size()
    ensures var q := Released(r, n);
            && q.Valid() && q.Capacity() == r.Capacity() && q.Size() == r.Size() - n
            && q.At(q.Size()) == r.At(r.Size()) < r.Capacity()
  {
    ReleasedFront(r, n);
    BackSlot(r);
    BackSlot(Released(r, n));
  }

  lemma BackStretchRaces<T>(r: Ring<T>, j: nat, k: nat)
    requires r.Valid() && j + k <= r.Size()
    ensures FreeRun(Released(r, j + k), BackStretchSeen(r, j, k)) <==> !FrontWraps(r, j, k)
  {
    hide BackStretchSeen, Released, FrontWraps, FreeRun, Ring.SlotOf, Ring.Capacity;
    SeenIs(r, j, k);
    ReleasedPlaces(r, j + k);
    FreeRunExactly(Released(r, j + k), BackStretchSeen(r, j, k));
  }

  /** What a caller can check beforehand: no schedule does harm unless the free slots are in one piece in mid-array. */
  lemma BackStretchSafe<T>(r: Ring<T>)
    requires r.Valid()
    ensures (forall j: nat, k: nat | j + k <= r.Size() :: FreeRun(Released(r, j + k), BackStretchSeen(r, j, k)))
            <==> !(r.Size() < r.Capacity() && 0 < r.SlotOf(r.back) < r.SlotOf(r.front))
  {
    BackSlot(r);
    if r.Size() < r.Capacity() && 0 < r.SlotOf(r.back) < r.SlotOf(r.front) {
      var k := r.Capacity() - r.SlotOf(r.front);
      SeenIs(r, 0, k);
      BackStretchRaces(r, 0, k);
      assert !FreeRun(Released(r, 0 + k), BackStretchSeen(r, 0, k));
    } else {
      forall j: nat, k: nat | j + k <= r.Size()
        ensures FreeRun(Released(r, j + k), BackStretchSeen(r, j, k))
      {
        SeenIs(r, j, k);
        BackStretchRaces(r, j, k);
      }
    }
  }

  /**
    A length too large for the array tells an underflow from everything else; no length, a full or
    just emptied buffer.
   */
  lemma SeenLength<T>(r: Ring<T>, j: nat, k: nat)
    requires r.Valid() && j + k <= r.Size()
    ensures BackStretchSeen(r, j, k).len > r.Capacity() <==> FrontWraps(r, j, k)
    ensures BackStretchSeen(r, j, k).len == 0 ==> r.Size() == r.Capacity() || 0 < j + k == r.Size()
  {
    SeenIs(r, j, k);
    r.CapacityBounds();
    hide BackStretchSeen, Released, FrontWraps, Ring.SlotOf;
  }

  /** The witness: 8 slots, 3 of them in use, and one released at the wrong moment. */
  lemma BackStretchOverruns() returns (r: Ring<int>)
    ensures r.Valid() && r.Capacity() == 8 && r.front == 7 && r.back == 10
    ensures BackStretchSeen(r, 0, 1).len > r.Capacity()
  {
    EightSlots();
    r := Ring(3, [0, 0, 0, 0, 0, 0, 0, 0], 7, 10);
  }

  /**
    back_stretch() and then back_stretch_2(), n slots having been released in between: the first count
    of the slots a writer would fill are the next free ones unless they skip some.
   */
  lemma BackPairRaces<T>(r: Ring<T>, n: nat, count: nat)
    requires r.Valid() && n <= r.Size()
    requires Released(r, n).Valid() && count <= r.BackStretch().len + Released(r, n).BackStretch2().len
    ensures (SlotsIn(r.BackStretch()) + SlotsIn(Released(r, n).BackStretch2()))[..count] <= FreeSlots(Released(r, n))
            <==> count <= r.BackStretch().len || r.SlotOf(r.front) + n <= r.Capacity()
    ensures r.Capacity() < r.SlotOf(r.front) + n ==> Released(r, n).BackStretch2().len > 0
  {
    var q := Released(r, n);
    ReleasedFront(r, n);
    BackSlot(r);
    BackSlot(q);
    var s1, s2, free := r.BackStretch(), q.BackStretch2(), FreeSlots(q);
    var seen := (SlotsIn(s1) + SlotsIn(s2))[..count];
    if count <= s1.len || r.SlotOf(r.front) + n <= r.Capacity() {
      forall i: nat | i < |seen|
        ensures i < |free| && seen[i] == free[i]
      {
      }
    } else {
      assert s2.len > 0 && seen[s1.len] == 0;
      assert s1.len < |free| ==> free[s1.len] != 0;
    }
  }

  lemma EightSlots()
    ensures Pow2(3) == 8
    ensures BitAnd(1, 7) == 1 && BitAnd(2, 7) == 2 && BitAnd(6, 7) == 6 && BitAnd(7, 7) == 7
    ensures BitAnd(8, 7) == 0 && BitAnd(9, 7) == 1 && BitAnd(10, 7) == 2
  {
    assert Pow2(1) == 2;
    MaskIsRemainder(1, 3);
    MaskIsRemainder(2, 3);
    MaskIsRemainder(6, 3);
    MaskIsRemainder(7, 3);
    MaskIsRemainder(8, 3);
    MaskIsRemainder(9, 3);
    MaskIsRemainder(10, 3);
  }

  /** The witness: free are slots 2 to 5, three more are released, and slots 6 and 7 are skipped. */
  lemma BackPairSkips() returns (r: Ring<int>)
    ensures r.Valid() && r.Capacity() == 8 && r.front == 6 && r.back == 10 && Released(r, 3).Valid()
    ensures SlotsIn(r.BackStretch()) + SlotsIn(Released(r, 3).BackStretch2()) == [2, 3, 4, 5, 0]
    ensures FreeSlots(Released(r, 3)) == [2, 3, 4, 5, 6, 7, 0]
  {
    EightSlots();
    r := Ring(3, [0, 0, 0, 0, 0, 0, 0, 0], 6, 10);
    var q := Released(r, 3);
    assert r.BackStretch() == Stretch(2, 4) && q.BackStretch2() == Stretch(0, 1);
  }

  // ---- front_stretch while a producer publishes slots ----

  function Published<T>(r: Ring<T>, n: nat): Ring<T>
    requires r.Valid() && r.Size() + n <= r.Capacity()
  {
    r.CapacityBounds();
    r.AdvanceBack(n)
  }

  /** front_stretch(): j slots are published between its first two reads of back_, k between the last two. */
  function FrontStretchSeen<T>(r: Ring<T>, j: nat, k: nat): Stretch
    requires r.Valid() && r.Size() + j + k <= r.Capacity()
  {
    var f := r.SlotOf(r.front);
    if r.back == r.front then Stretch(f, 0)
    else if r.SlotOf(Published(r, j).back) > f then Stretch(f, WrapSub(Published(r, j + k).back, r.front))
    else Stretch(f, r.Capacity() - f)
  }

  /** A stretch is a run of published slots, the next ones to read. */
  ghost predicate UsedRun<T>(r: Ring<T>, s: Stretch) {
    r.Valid() && SlotsIn(s) <= UsedSlots(r)
  }

  /** There is something to read, none of it beyond the end of the array at the second read, and some at the third. */
  predicate BackWraps<T>(r: Ring<T>, j: nat, k: nat)
    requires r.Valid() && r.Size() + j + k <= r.Capacity()
  {
    var f := r.SlotOf(r.front);
    0 < r.Size() && f + r.Size() + j < r.Capacity() < f + r.Size() + j + k
  }

  lemma PublishedBack<T>(r: Ring<T>, n: nat)
    requires r.Valid() && r.Size() + n <= r.Capacity()
    ensures Published(r, n).Valid() && Published(r, n).Size() == r.Size() + n && Published(r, n).front == r.front
    ensures r.SlotOf(Published(r, n).back) == r.At(r.Size() + n)
  {
    r.CapacityBounds();
    SlotWraps(r, r.Size() + n);
    BackIsFrontPlusSize(r);
  }

  /** A stretch from the front slot on is published as far as there are elements and the array reaches. */
  lemma UsedRunExactly<T>(r: Ring<T>, s: Stretch)
    requires r.Valid() && s.start == r.SlotOf(r.front)
    ensures UsedRun(r, s) <==> s.len <= r.Size() && s.start + s.len <= r.Capacity()
  {
    var used, seen := UsedSlots(r), SlotsIn(s);
    if s.len <= r.Size() && s.start + s.len <= r.Capacity() {
      assert forall i: nat | i < s.len :: seen[i] == used[i];
    } else if s.len <= r.Size() {
      assert seen[r.Capacity() - s.start] != used[r.Capacity() - s.start];
    }
  }

  lemma PublishedPlaces<T>(r: Ring<T>, n: nat)
    requires r.Valid() && r.Size() + n <= r.Capacity()
    ensures var q := Published(r, n);
            && q.Valid() && q.Size() == r.Size() + n && q.Capacity() == r.Capacity()
            && q.SlotOf(q.front) == r.SlotOf(r.front)
  {
    PublishedBack(r, n);
  }

  /** What comes out, in terms of places. */
  lemma FrontSeenIs<T>(r: Ring<T>, j: nat, k: nat)
    requires r.Valid() && r.Size() + j + k <= r.Capacity()
    ensures var f, n, c := r.SlotOf(r.front), r.Size(), r.Capacity();
            && f < c
            && FrontStretchSeen(r, j, k) == Stretch(f, if n == 0 then 0 else if f + n + j < c then n + j + k else c - f)
  {
    PublishedBack(r, j);
    PublishedBack(r, j + k);
    BackSlot(r);
  }

  lemma FrontStretchRaces<T>(r: Ring<T>, j: nat, k: nat)
    requires r.Valid() && r.Size() + j + k <= r.Capacity()
    ensures UsedRun(Published(r, j + k), FrontStretchSeen(r, j, k)) <==> !BackWraps(r, j, k)
  {
    hide Published, FrontStretchSeen, UsedRun, Ring.SlotOf, Ring.Capacity, Ring.Size;
    FrontSeenIs(r, j, k);
    PublishedPlaces(r, j + k);
    UsedRunExactly(Published(r, j + k), FrontStretchSeen(r, j, k));
  }

  /** What a caller can check beforehand: no schedule does harm unless the elements are in one piece in mid-array. */
  lemma FrontStretchSafe<T>(r: Ring<T>)
    requires r.Valid()
    ensures (forall j: nat, k: nat | r.Size() + j + k <= r.Capacity() ::
              UsedRun(Published(r, j + k), FrontStretchSeen(r, j, k)))
            <==> !(0 < r.SlotOf(r.front) < r.SlotOf(r.back))
  {
    BackSlot(r);
    if 0 < r.SlotOf(r.front) < r.SlotOf(r.back) {
      var k := r.Capacity() - r.Size();
      FrontStretchRaces(r, 0, k);
      assert !UsedRun(Published(r, 0 + k), FrontStretchSeen(r, 0, k));
    } else {
      forall j: nat, k: nat | r.Size() + j + k <= r.Capacity()
        ensures UsedRun(Published(r, j + k), FrontStretchSeen(r, j, k))
      {
        FrontStretchRaces(r, j, k);
      }
    }
  }

  /** The witness: 8 slots, one element in slot 6, two more published, and the stretch is slots 6, 7 and 8. */
  lemma FrontStretchOverruns() returns (r: Ring<int>)
    ensures r.Valid() && r.Capacity() == 8 && r.front == 6 && r.back == 7
    ensures FrontStretchSeen(r, 0, 2) == Stretch(6, 3)
  {
    EightSlots();
    r := Ring(3, [0, 0, 0, 0, 0, 0, 0, 0], 6, 7);
  }

  /**
    front_stretch() and then front_stretch_2(), n slots having been published in between: the first
    count of the slots a reader would read are the oldest elements unless they skip some.
   */
  lemma FrontPairRaces<T>(r: Ring<T>, n: nat, count: nat)
    requires r.Valid() && r.Size() + n <= r.Capacity()
    requires Published(r, n).Valid() && count <= r.FrontStretch().len + Published(r, n).FrontStretch2().len
    ensures var f := r.SlotOf(r.front);
            (SlotsIn(r.FrontStretch()) + SlotsIn(Published(r, n).FrontStretch2()))[..count]
              <= UsedSlots(Published(r, n))
            <==> count <= r.FrontStretch().len || !(f + r.Size() < r.Capacity() < f + r.Size() + n)
    ensures var f := r.SlotOf(r.front);
            f + r.Size() < r.Capacity() < f + r.Size() + n ==> Published(r, n).FrontStretch2().len > 0
  {
    var q, f := Published(r, n), r.SlotOf(r.front);
    PublishedBack(r, n);
    BackSlot(r);
    BackSlot(q);
    var s1, s2, used := r.FrontStretch(), q.FrontStretch2(), UsedSlots(q);
    var seen := (SlotsIn(s1) + SlotsIn(s2))[..count];
    if s1.len < count && f + r.Size() < r.Capacity() < f + r.Size() + n {
      assert s2.len > 0 && seen[s1.len] == 0;
      assert s1.len < |used| ==> used[s1.len] != 0;
    } else {
      forall i: nat | i < |seen|
        ensures i < |used| && seen[i] == used[i]
      {
      }
    }
  }

  /** The witness: in use are slots 2 to 5, four more are published, and slots 6 and 7 are skipped. */
  lemma FrontPairSkips() returns (r: Ring<int>)
    ensures r.Valid() && r.Capacity() == 8 && r.front == 2 && r.back == 6 && Published(r, 4).Valid()
    ensures SlotsIn(r.FrontStretch()) + SlotsIn(Published(r, 4).FrontStretch2()) == [2, 3, 4, 5, 0, 1]
    ensures UsedSlots(Published(r, 4)) == [2, 3, 4, 5, 6, 7, 0, 1]
  {
    EightSlots();
    r := Ring(3, [0, 0, 0, 0, 0, 0, 0, 0], 2, 6);
    var q := Published(r, 4);
    assert r.FrontStretch() == Stretch(2, 4) && q.FrontStretch2() == Stretch(0, 2);
  }
}
