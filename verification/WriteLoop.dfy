/**
  The writing side of the io_uring peer, one read of back_ at a time.  write_loop() asks for the two
  front stretches and hands them to the kernel; sent(count) later releases as many slots as the
  kernel took.  Meanwhile another thread may publish more slots, between any two of the reads.
 */
module WriteLoops {
  import opened Words
  import opened RingBuffers
  import opened StretchRaces

  /** Where write_loop() is, and what it holds: write_iov, and which read of back_ comes next. */
  datatype Writer =
    | Idle                                       // empty()
    | Started                                    // front_stretch(): back_ == front_
    | First                                      // its second read, the comparison of slots
    | Ahead                                      // its third read, the length
    | Held(s1: Stretch)                          // front_stretch_2(): back_ == front_
    | Second(s1: Stretch)                        // its second read
    | Behind(s1: Stretch)                        // its third read
    | Submitted(s1: Stretch, s2: Stretch)        // handed to the kernel
  {
    predicate HasFirst() {
      Held? || Second? || Behind? || Submitted?
    }
  }

  /** The next read of back_, with the branch it decides. */
  function ReadBack<T>(r: Ring<T>, w: Writer): Writer {
    var b, f := r.SlotOf(r.back), r.SlotOf(r.front);
    match w
    case Idle => if r.back == r.front then Idle else Started
    case Started => if r.back == r.front then Held(Stretch(f, 0)) else First
    case First => if b > f then Ahead else Held(Stretch(f, r.Capacity() - f))
    case Ahead => Held(Stretch(f, WrapSub(r.back, r.front)))
    case Held(s1) => if r.back == r.front then Submitted(s1, Stretch(b, 0)) else Second(s1)
    case Second(s1) => if b > f then Submitted(s1, Stretch(b, 0)) else Behind(s1)
    case Behind(s1) => Submitted(s1, Stretch(0, b))
    case Submitted(s1, s2) => w
  }

  /** What is known of the stretches held, whatever has been published since they were read. */
  ghost predicate Holds<T>(r: Ring<T>, w: Writer) {
    && r.Valid()
    && (w.Idle? || 0 < r.Size())
    && (w.HasFirst() ==> w.s1.start == r.SlotOf(r.front) && 0 < w.s1.len <= r.Size())
    && (w.Behind? ==> r.Capacity() <= r.SlotOf(r.front) + r.Size())
    && (w.Submitted? && w.s2.len > 0 ==>
          w.s2.start == 0 && r.Capacity() + w.s2.len <= r.SlotOf(r.front) + r.Size())
  }

  /** The first stretch runs over the end of the array. */
  predicate Overruns<T>(r: Ring<T>, s: Stretch) {
    r.Capacity() < s.start + s.len
  }

  lemma ReadKeeps<T>(r: Ring<T>, w: Writer)
    requires Holds(r, w)
    ensures Holds(r, ReadBack(r, w))
  {
    BackSlot(r);
  }

  /** Neither writing into slots nor publishing more of them takes anything from what is held. */
  lemma GrowthKeeps<T>(r: Ring<T>, q: Ring<T>, w: Writer)
    requires Holds(r, w) && q.Valid() && q.bits == r.bits && q.front == r.front && r.Size() <= q.Size()
    ensures Holds(q, w)
  {
  }

  // ---- one completed write ----

  /** The buffer when sent(count) is called, the stretches the kernel was handed, and how much it took of them. */
  datatype Transfer<T> = Transfer(ring: Ring<T>, s1: Stretch, s2: Stretch, count: nat) {

    ghost predicate Valid() {
      Holds(ring, Submitted(s1, s2)) && !Overruns(ring, s1) && count <= s1.len + s2.len
    }

    /** The slots the kernel took, in order. */
    function Slots(): (s: seq<int>)
      requires count <= s1.len + s2.len
      ensures |s| == count
    {
      (SlotsIn(s1) + SlotsIn(s2))[..count]
    }

    /** The kernel went on to the second stretch although the first did not reach the end of the array. */
    predicate Skips() {
      s1.len < count && s1.start + s1.len < ring.Capacity()
    }

    /** What went out; a slot that is handed over is published and not released till then, so it does not change. */
    ghost function Sent(): (s: seq<T>)
      requires Valid()
      ensures |s| == count
    {
      SlotsInside(this);
      seq(count, i requires 0 <= i < count => ring.slots[Slots()[i]])
    }

    /** What left the buffer. */
    ghost function Gone(): (s: seq<T>)
      requires Valid()
      ensures |s| == count
    {
      ring.Contents()[..count]
    }
  }

  /** The kernel reads inside the array, and sent(count) releases no more than there is: its assertion holds. */
  lemma SlotsInside<T>(x: Transfer<T>)
    requires x.Valid()
    ensures x.count <= x.ring.Size()
    ensures forall i: nat | i < x.count :: 0 <= x.Slots()[i] < |x.ring.slots|
  {
  }

  /** The slots the kernel took are the ones that are released, unless it skipped some. */
  lemma SentExactly<T>(x: Transfer<T>)
    requires x.Valid()
    ensures x.Slots() <= UsedSlots(x.ring) <==> !x.Skips()
    ensures !x.Skips() ==> x.Sent() == x.Gone()
  {
    SlotsInside(x);
    var used := UsedSlots(x.ring);
    if x.Skips() {
      assert x.Slots()[x.s1.len] == 0 < used[x.s1.len];
    } else {
      assert forall i: nat | i < x.count :: x.Slots()[i] == used[i];
      assert forall i: nat | i < x.count :: x.Sent()[i] == x.ring.slots[used[i]] == x.Gone()[i];
    }
  }

  // ---- all the writes of a connection ----

  ghost predicate AllValid<T>(sends: seq<Transfer<T>>) {
    forall x | x in sends :: x.Valid()
  }

  /** Everything that went out. */
  ghost function Wire<T>(sends: seq<Transfer<T>>): seq<T>
    requires AllValid(sends)
  {
    if sends == [] then [] else Wire(sends[..|sends| - 1]) + sends[|sends| - 1].Sent()
  }

  /** Everything that left the buffer. */
  ghost function Gone<T>(sends: seq<Transfer<T>>): seq<T>
    requires AllValid(sends)
  {
    if sends == [] then [] else Gone(sends[..|sends| - 1]) + sends[|sends| - 1].Gone()
  }

  /** As long as no write skips slots, what goes out is what leaves the buffer. */
  lemma {:induction false} WireIsGone<T>(sends: seq<Transfer<T>>)
    requires AllValid(sends) && forall x | x in sends :: !x.Skips()
    ensures Wire(sends) == Gone(sends)
  {
    if sends == [] {
    } else {
      var last := sends[|sends| - 1];
      assert last in sends;
      SentExactly(last);
      WireIsGone(sends[..|sends| - 1]);
    }
  }

  lemma {:induction false} GoneGrows<T>(before: seq<Transfer<T>>, after: seq<Transfer<T>>)
    requires before <= after && AllValid(after)
    ensures AllValid(before) && |Gone(before)| <= |Gone(after)|
  {
    if before == after {
    } else {
      assert forall x | x in before :: x in after;
      GoneGrows(before, after[..|after| - 1]);
    }
  }

  lemma GoneSnoc<T>(sends: seq<Transfer<T>>, x: Transfer<T>)
    requires AllValid(sends) && x.Valid()
    ensures AllValid(sends + [x])
    ensures Gone(sends + [x]) == Gone(sends) + x.Gone() && Wire(sends + [x]) == Wire(sends) + x.Sent()
  {
    assert (sends + [x])[..|sends|] == sends;
  }

  /** From was to now, n elements have left the buffer, and the record of the transfers says so. */
  ghost predicate Taken<T>(was: Ring<T>, before: seq<Transfer<T>>, now: Ring<T>, after: seq<Transfer<T>>, n: nat) {
    && was.Valid() && now.Valid() && n <= was.Size() && now == Released(was, n)
    && before <= after && AllValid(before) && AllValid(after)
    && Gone(after) == Gone(before) + was.Contents()[..n]
    && now.Contents() == was.Contents()[n..]
  }

  lemma TakenNothing<T>(r: Ring<T>, sends: seq<Transfer<T>>)
    requires r.Valid() && AllValid(sends)
    ensures Taken(r, sends, r, sends, 0)
  {
    r.CapacityBounds();
  }

  lemma TakenMore<T>(was: Ring<T>, before: seq<Transfer<T>>, n: nat, mid: Ring<T>, between: seq<Transfer<T>>, m: nat,
                     now: Ring<T>, after: seq<Transfer<T>>)
    requires Taken(was, before, mid, between, n) && Taken(mid, between, now, after, m)
    ensures n + m <= was.Size() && Taken(was, before, now, after, n + m)
  {
    ReleasedFront(was, n);
    ReleasedTwice(was, n, m);
    ConcatAssoc(Gone(before), was.Contents()[..n], was.Contents()[n..][..m]);
  }

  lemma TakenAdds<T>(was: Ring<T>, before: seq<Transfer<T>>, now: Ring<T>, after: seq<Transfer<T>>, n: nat)
    requires Taken(was, before, now, after, n)
    ensures was.Valid() && now.Valid() && n <= was.Size() && now == Released(was, n)
    ensures before <= after && AllValid(before) && AllValid(after) && |Gone(before)| <= |Gone(after)|
    ensures Gone(after) + now.Contents() == Gone(before) + was.Contents()
    ensures now.Size() == was.Size() - n
  {
    ConcatAssoc(Gone(before), was.Contents()[..n], was.Contents()[n..]);
    assert was.Contents()[..n] + was.Contents()[n..] == was.Contents();
  }

  /** The buffer was so, m elements ago, and at least so many had left it by then. */
  ghost predicate Since<T>(ring: Ring<T>, m: nat, now: Ring<T>, after: seq<Transfer<T>>, from: nat) {
    && ring.Valid() && m <= ring.Size() && now == Released(ring, m) && now.Valid()
    && AllValid(after) && from + m <= |Gone(after)|
    && ring.Contents() == Gone(after)[|Gone(after)| - m..] + now.Contents()
  }

  lemma TakenSince<T>(ring: Ring<T>, between: seq<Transfer<T>>, m: nat, now: Ring<T>, after: seq<Transfer<T>>,
                      from: nat)
    requires Taken(ring, between, now, after, m) && from <= |Gone(between)|
    ensures Since(ring, m, now, after, from)
  {
    LastParts(Gone(between), ring.Contents(), m);
  }

  lemma LastParts<T>(a: seq<T>, c: seq<T>, m: nat)
    requires m <= |c|
    ensures |a + c[..m]| == |a| + m && c == (a + c[..m])[|a|..] + c[m..]
  {
    assert (a + c[..m])[|a|..] == c[..m];
    assert c[..m] + c[m..] == c;
  }

  // ---- which schedules do harm ----

  /** front_stretch_2(): j slots are published between its first two reads of back_, k between the last two. */
  function FrontStretch2Seen<T>(r: Ring<T>, j: nat, k: nat): Stretch
    requires r.Valid() && r.Size() + j + k <= r.Capacity()
  {
    var f := r.SlotOf(r.front);
    if r.back == r.front then Stretch(r.SlotOf(r.back), 0)
    else if r.SlotOf(Published(r, j).back) > f then Stretch(r.SlotOf(Published(r, j + k).back), 0)
    else Stretch(0, r.SlotOf(Published(r, j + k).back))
  }

  /** The reads one by one are the two calls. */
  lemma ReadsAreCalls<T>(r: Ring<T>, j: nat, k: nat, s1: Stretch)
    requires r.Valid() && 0 < r.Size() && r.Size() + j + k <= r.Capacity()
    ensures var w := ReadBack(Published(r, j), ReadBack(r, Started));
            (if w.Ahead? then ReadBack(Published(r, j + k), w) else w) == Held(FrontStretchSeen(r, j, k))
    ensures var w := ReadBack(Published(r, j), ReadBack(r, Held(s1)));
            w.Behind? ==> ReadBack(Published(r, j + k), w) == Submitted(s1, FrontStretch2Seen(r, j, k))
    ensures var w := ReadBack(Published(r, j), ReadBack(r, Held(s1)));
            !w.Behind? ==> w.Submitted? && w.s2.len == FrontStretch2Seen(r, j, k).len == 0
  {
    PublishedBack(r, j);
    PublishedBack(r, j + k);
    BackSlot(r);
  }

  /** What the two calls return, in terms of places. */
  lemma SeenPlaces<T>(r: Ring<T>, j: nat, k: nat)
    requires r.Valid() && 0 < r.Size() && r.Size() + j + k <= r.Capacity()
    ensures var f, n, c := r.SlotOf(r.front), r.Size(), r.Capacity();
            && f < c
            && FrontStretchSeen(r, j, k) == Stretch(f, if f + n + j < c then n + j + k else c - f)
            && FrontStretch2Seen(r, j, k).len == (if f + n + j < c || f + n + j + k == c then 0 else f + n + j + k - c)
            && (FrontStretch2Seen(r, j, k).len > 0 ==> FrontStretch2Seen(r, j, k).start == 0)
  {
    PublishedBack(r, j);
    PublishedBack(r, j + k);
    BackSlot(r);
  }

  /** Two stretches against the contents, slot by slot. */
  lemma PairIsUsed<T>(r: Ring<T>, s1: Stretch, s2: Stretch)
    requires r.Valid() && s1.start == r.SlotOf(r.front) && s1.len <= r.Size()
    requires s2.len > 0 ==> s2.start == 0 && s1.start + r.Size() == r.Capacity() + s2.len
    ensures SlotsIn(s1) + SlotsIn(s2) <= UsedSlots(r) <==>
            s1.start + s1.len <= r.Capacity() && (s2.len == 0 || s1.start + s1.len == r.Capacity())
  {
    var seen, used := SlotsIn(s1) + SlotsIn(s2), UsedSlots(r);
    var c := r.Capacity();
    if c < s1.start + s1.len {
      assert seen[c - s1.start] == c;
    } else if s2.len > 0 && s1.start + s1.len < c {
      assert seen[s1.len] == 0 < used[s1.len];
    } else {
      assert forall i: nat | i < |seen| :: seen[i] == used[i];
    }
  }

  /**
    Both calls, slots being published between any two reads: j and k within the first call, m between
    the calls, i and h within the second.  The kernel is handed the contents in order if and only if
    the back passes the end of the array neither between the last two reads of the first call nor
    after that call and before the second read of the next, to be beyond it at the third.
   */
  lemma WriteLoopExactly<T>(r: Ring<T>, j: nat, k: nat, m: nat, i: nat, h: nat)
    requires r.Valid() && 0 < r.Size() && r.Size() + j + k + m + i + h <= r.Capacity()
    ensures var q, last := Published(r, j + k + m), Published(r, j + k + m + i + h);
            var end := r.SlotOf(r.front) + r.Size() + j + k;
            && q.Valid() && q.Size() + i + h <= q.Capacity() && last.Valid()
            && (SlotsIn(FrontStretchSeen(r, j, k)) + SlotsIn(FrontStretch2Seen(q, i, h)) <= UsedSlots(last)
                <==> !BackWraps(r, j, k) && !(end < r.Capacity() <= end + m + i && r.Capacity() < end + m + i + h))
  {
    hide Published, FrontStretchSeen, FrontStretch2Seen, Ring.SlotOf, Ring.Capacity, Ring.Size, UsedSlots, SlotsIn;
    var q, last := Published(r, j + k + m), Published(r, j + k + m + i + h);
    PublishedPlaces(r, j + k + m);
    PublishedPlaces(r, j + k + m + i + h);
    SeenPlaces(r, j, k);
    SeenPlaces(q, i, h);
    PairIsUsed(last, FrontStretchSeen(r, j, k), FrontStretch2Seen(q, i, h));
  }

  /**
    write() of the tcp socket takes a part of one front stretch.  There is no second one, and the harm
    is what an overrun leaves of the array.
   */
  lemma RawWriteExactly<T>(r: Ring<T>, j: nat, k: nat, count: nat)
    requires r.Valid() && r.Size() + j + k <= r.Capacity() && count <= FrontStretchSeen(r, j, k).len
    ensures Published(r, j + k).Valid()
    ensures SlotsIn(FrontStretchSeen(r, j, k))[..count] <= UsedSlots(Published(r, j + k))
            <==> r.SlotOf(r.front) + count <= r.Capacity()
  {
    hide Published, FrontStretchSeen, Ring.SlotOf, Ring.Capacity, Ring.Size;
    FrontSeenIs(r, j, k);
    PublishedPlaces(r, j + k);
    UsedRunExactly(Published(r, j + k), Stretch(r.SlotOf(r.front), count));
    assert SlotsIn(FrontStretchSeen(r, j, k))[..count] == SlotsIn(Stretch(r.SlotOf(r.front), count));
  }
}
