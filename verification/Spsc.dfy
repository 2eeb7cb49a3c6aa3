/**
  One producer thread and one consumer thread on a ring buffer, their steps interleaved in any way.
  The fields are plain, so each access is assumed to be sequentially consistent.
 */
module Spsc {
  import opened Words
  import opened RingBuffers

  /**
    The producer: before its test; past it, with k of its values stored; or on its way through
    push_back(), which hands out a slot that its caller has still to write when it is published.
   */
  datatype Producer<T> = Ready | Filling(ts: seq<T>, k: nat) | Claimed(t: T) | Owing(slot: nat, t: T)

  /** The consumer: before its test; past it, with some values loaded; or in the loop of pop_front(n). */
  datatype Consumer<T> = Waiting | Reading(n: nat, got: seq<T>) | Popping(left: nat) | Counted(left: nat, count: nat)

  datatype State<T> = State(
    ring: Ring<T>,
    producer: Producer<T>,
    consumer: Consumer<T>,
    pushed: seq<T>,     // every value that was published, in order; of push_back(), the value still to be written
    popped: seq<T>)     // every value taken, as it was loaded; one that pop_front(n) skips, as it was published

  datatype Step<T> =
    | TestRoom(ts: seq<T>) | StoreSlot | BumpBack     // push_back(t), or a stretch written and advance_back(n)
    | Claim(t: T) | BumpFirst | WriteLate             // push_back()
    | TestSize(n: nat) | LoadSlot | BumpFront         // front and pop_front, or a stretch read and advance_front(n)
    | StartPop(n: nat) | CountPop | BumpPop           // pop_front(n)

  /** The ring as it will be once an owed slot is written. */
  function Settled<T>(s: State<T>): (r: Ring<T>)
    requires s.ring.Valid()
    ensures r.Valid() && r == s.ring.(slots := r.slots)
  {
    if s.producer.Owing? && s.producer.slot < |s.ring.slots|
    then s.ring.(slots := s.ring.slots[s.producer.slot := s.producer.t])
    else s.ring
  }

  /** A test that fails is repeated, so it leaves the state alone; so does a step out of turn. */
  function Next<T>(s: State<T>, step: Step<T>): State<T>
    requires s.ring.Valid()
  {
    match step
    case TestRoom(ts) =>
      if s.producer.Ready? && ts != [] && s.ring.Size() + |ts| <= s.ring.Capacity()
      then s.(producer := Filling(ts, 0)) else s
    case StoreSlot =>
      if s.producer.Filling? && s.producer.k < |s.producer.ts| && s.ring.Size() + s.producer.k <= s.ring.Capacity()
      then s.(ring := StoreAt(s.ring, s.producer.k, s.producer.ts[s.producer.k]),
              producer := Filling(s.producer.ts, s.producer.k + 1))
      else s
    case BumpBack =>
      if s.producer.Filling? && s.producer.k == |s.producer.ts| <= s.ring.Capacity()
      then s.(ring := Publish(s.ring, s.producer.k), producer := Ready, pushed := s.pushed + s.producer.ts)
      else s
    case Claim(t) =>
      if s.producer.Ready? && s.ring.Size() != s.ring.Capacity() then s.(producer := Claimed(t)) else s
    case BumpFirst =>
      if s.producer.Claimed?
      then s.(ring := Publish(s.ring, 1), producer := Owing(s.ring.SlotOf(s.ring.back), s.producer.t),
              pushed := s.pushed + [s.producer.t])
      else s
    case WriteLate =>
      if s.producer.Owing? then s.(ring := Settled(s), producer := Ready) else s
    case TestSize(n) =>
      if s.consumer.Waiting? && 0 < n <= s.ring.Size() then s.(consumer := Reading(n, [])) else s
    case LoadSlot =>
      if s.consumer.Reading? && |s.consumer.got| < s.consumer.n && |s.consumer.got| <= s.ring.Size()
      then s.(consumer := Reading(s.consumer.n, s.consumer.got + [s.ring.slots[NextSlot(s)]]))
      else s
    case BumpFront =>
      if s.consumer.Reading? && |s.consumer.got| == s.consumer.n <= s.ring.Size() && s.ring.front != s.ring.back
      then s.(ring := Release(s.ring, s.consumer.n), consumer := Waiting, popped := s.popped + s.consumer.got)
      else s
    case StartPop(n) =>
      if s.consumer.Waiting? then s.(consumer := Popping(n)) else s
    case CountPop =>
      if !s.consumer.Popping? then s
      else if s.consumer.left == 0 then s.(consumer := Waiting)
      else if s.ring.front == s.ring.back then s
      else s.(consumer := Counted(s.consumer.left,
                                  if s.ring.Size() < s.consumer.left then s.ring.Size() else s.consumer.left))
    case BumpPop =>
      if s.consumer.Counted? && s.consumer.count <= s.ring.Size() && s.consumer.count <= s.consumer.left
      then s.(ring := Release(s.ring, s.consumer.count), consumer := Popping(s.consumer.left - s.consumer.count),
              popped := s.popped + Settled(s).Contents()[..s.consumer.count])
      else s
  }

  /** data[(back_ + k) & Mask] = t */
  function StoreAt<T>(r: Ring<T>, k: nat, t: T): Ring<T>
    requires r.Valid() && r.Size() + k <= r.Capacity()
  {
    BackPlace(r, k);
    r.(slots := r.slots[r.SlotOf(WrapAdd(r.back, k)) := t])
  }

  lemma BackPlace<T>(r: Ring<T>, k: nat)
    requires r.Valid() && r.Size() + k <= r.Capacity()
    ensures k < WORD && r.SlotOf(WrapAdd(r.back, k)) == r.At(r.Size() + k)
  {
    r.CapacityBounds();
    SlotWraps(r, r.Size() + k);
  }

  function Publish<T>(r: Ring<T>, n: nat): Ring<T>
    requires r.Valid() && n <= r.Capacity()
  {
    r.CapacityBounds();
    r.AdvanceBack(n)
  }

  function Release<T>(r: Ring<T>, n: nat): Ring<T>
    requires r.Valid() && n <= r.Size()
  {
    r.CapacityBounds();
    r.AdvanceFront(n)
  }

  /** The slot the consumer loads next: (front_ + so many as it has) & Mask. */
  function NextSlot<T>(s: State<T>): (slot: nat)
    requires s.ring.Valid() && s.consumer.Reading? && |s.consumer.got| <= s.ring.Size()
    ensures slot < |s.ring.slots|
  {
    SlotWraps(s.ring, |s.consumer.got|);
    s.ring.SlotOf(WrapAdd(s.ring.front, |s.consumer.got|))
  }

  /** An empty buffer, wherever its counters stand. */
  predicate Initial<T>(s: State<T>) {
    && s.ring.Valid() && s.ring.front == s.ring.back
    && s.producer == Ready && s.consumer == Waiting
    && s.pushed == [] && s.popped == []
  }

  ghost predicate ProducerInv<T>(s: State<T>)
    requires s.ring.Valid()
  {
    match s.producer
    case Ready => true
    case Filling(ts, k) =>
      k <= |ts| && s.ring.Size() + |ts| <= s.ring.Capacity() && s.ring.Pending(k) == ts[..k]
    case Claimed(_) => s.ring.Size() < s.ring.Capacity()
    case Owing(slot, _) =>
      slot < s.ring.Capacity() && (s.ring.Size() > 0 ==> slot == s.ring.At(s.ring.Size() - 1))
  }

  ghost predicate ConsumerInv<T>(s: State<T>)
    requires s.ring.Valid()
  {
    match s.consumer
    case Waiting => true
    case Reading(n, got) => |got| <= n <= s.ring.Size() && 0 < n && got == Settled(s).Contents()[..|got|]
    case Popping(_) => true
    case Counted(left, count) => 0 < count <= s.ring.Size() && count <= left
  }

  ghost predicate Inv<T>(s: State<T>) {
    && s.ring.Valid()
    && s.pushed == s.popped + Settled(s).Contents()
    && ProducerInv(s) && ConsumerInv(s)
  }

  /** The consumer is about to load a slot that is published and not yet written, and holds something else. */
  ghost predicate Stale<T>(s: State<T>)
    requires s.ring.Valid()
  {
    && s.producer.Owing? && s.producer.slot < |s.ring.slots|
    && s.consumer.Reading? && |s.consumer.got| < s.consumer.n && |s.consumer.got| <= s.ring.Size()
    && NextSlot(s) == s.producer.slot
    && s.ring.slots[s.producer.slot] != s.producer.t
  }

  // ---- the producer's steps ----

  /** More contents behind the old ones change nothing the consumer holds. */
  lemma ConsumerUndisturbed<T>(s: State<T>, t: State<T>)
    requires Inv(s) && t.ring.Valid() && t.consumer == s.consumer
    requires Settled(s).Contents() <= Settled(t).Contents()
    ensures ConsumerInv(t)
  {
  }

  lemma StoreKeepsInv<T>(s: State<T>)
    requires Inv(s)
    ensures Inv(Next(s, StoreSlot))
  {
    var t := Next(s, StoreSlot);
    if t != s {
      var k := s.producer.k;
      BackPlace(s.ring, k);
      FillOneMore(s.ring, k, s.producer.ts[k]);
      assert s.producer.ts[..k + 1] == s.producer.ts[..k] + [s.producer.ts[k]];
      ConsumerUndisturbed(s, t);
    }
  }

  lemma BumpBackKeepsInv<T>(s: State<T>)
    requires Inv(s)
    ensures Inv(Next(s, BumpBack))
  {
    var t := Next(s, BumpBack);
    if t != s {
      AdvanceBackAppends(s.ring, s.producer.k);
      assert s.producer.ts[..s.producer.k] == s.producer.ts;
      ConsumerUndisturbed(s, t);
    }
  }

  lemma BumpFirstKeepsInv<T>(s: State<T>)
    requires Inv(s)
    ensures Inv(Next(s, BumpFirst))
  {
    var t := Next(s, BumpFirst);
    if t != s {
      BackSlot(s.ring);
      PushAppends(s.ring, s.producer.t);
      assert Settled(t) == s.ring.Push(s.producer.t);
      ConsumerUndisturbed(s, t);
    }
  }

  lemma WriteLateKeepsInv<T>(s: State<T>)
    requires Inv(s)
    ensures Inv(Next(s, WriteLate))
  {
  }

  // ---- the consumer's steps ----

  /** A load keeps what is known exactly when it is not of an owed slot. */
  lemma LoadExactly<T>(s: State<T>)
    requires Inv(s)
    ensures Inv(Next(s, LoadSlot)) <==> !Stale(s)
  {
    var t := Next(s, LoadSlot);
    if t != s {
      var n := |s.consumer.got|;
      var c := Settled(s).Contents();
      SlotWraps(s.ring, n);
      assert c[..n + 1] == c[..n] + [c[n]];
      assert t.consumer.got == s.consumer.got + [s.ring.slots[s.ring.At(n)]];
      assert c[n] == Settled(s).slots[Settled(s).At(n)];
      SamePlaces(s.ring, Settled(s), n);
      assert t.consumer.got[n] == s.ring.slots[s.ring.At(n)];
    }
  }

  /** Releasing slots moves none of those behind them. */
  lemma ReleaseKeepsPlaces<T>(r: Ring<T>, n: nat, i: nat)
    requires r.Valid() && n <= r.Size() && n <= i <= r.Capacity()
    ensures Release(r, n).Valid() && Release(r, n).Size() == r.Size() - n
    ensures Release(r, n).At(i - n) == r.At(i)
  {
    r.CapacityBounds();
    SlotWraps(r, n);
  }

  lemma ReleaseKeepsProducer<T>(s: State<T>, n: nat)
    requires Inv(s) && n <= s.ring.Size()
    ensures Release(s.ring, n).Valid()
    ensures ProducerInv(s.(ring := Release(s.ring, n)))
    ensures Settled(s.(ring := Release(s.ring, n))).Contents() == Settled(s).Contents()[n..]
  {
    var a := Release(s.ring, n);
    ReleaseKeepsPlaces(s.ring, n, s.ring.Size());
    if s.producer.Filling? {
      forall i: nat | i < s.producer.k
        ensures a.Pending(s.producer.k)[i] == s.ring.Pending(s.producer.k)[i]
      {
        ReleaseKeepsPlaces(s.ring, n, s.ring.Size() + i);
      }
      assert a.Pending(s.producer.k) == s.ring.Pending(s.producer.k);
    }
    if s.producer.Owing? && a.Size() > 0 {
      ReleaseKeepsPlaces(s.ring, n, s.ring.Size() - 1);
    }
    AdvanceFrontDrops(Settled(s), n);
  }

  lemma BumpFrontKeepsInv<T>(s: State<T>)
    requires Inv(s)
    ensures Inv(Next(s, BumpFront))
  {
    var t := Next(s, BumpFront);
    if t != s {
      ReleaseKeepsProducer(s, s.consumer.n);
      Split(s.popped, Settled(s).Contents(), s.consumer.n);
    }
  }

  lemma BumpPopKeepsInv<T>(s: State<T>)
    requires Inv(s)
    ensures Inv(Next(s, BumpPop))
  {
    var t := Next(s, BumpPop);
    if t != s {
      ReleaseKeepsProducer(s, s.consumer.count);
      Split(s.popped, Settled(s).Contents(), s.consumer.count);
    }
  }

  lemma Split<T>(a: seq<T>, c: seq<T>, n: nat)
    requires n <= |c|
    ensures a + c == (a + c[..n]) + c[n..]
  {
  }

  // ---- every interleaving ----

  lemma InvKept<T>(s: State<T>, step: Step<T>)
    requires Inv(s) && !(step.LoadSlot? && Stale(s))
    ensures Inv(Next(s, step))
  {
    match step
    case TestRoom(_) => BackSlot(s.ring);
    case StoreSlot => StoreKeepsInv(s);
    case BumpBack => BumpBackKeepsInv(s);
    case Claim(_) =>
    case BumpFirst => BumpFirstKeepsInv(s);
    case WriteLate => WriteLateKeepsInv(s);
    case TestSize(_) =>
    case LoadSlot => LoadExactly(s);
    case BumpFront => BumpFrontKeepsInv(s);
    case StartPop(_) =>
    case CountPop => BackSlot(s.ring);
    case BumpPop => BumpPopKeepsInv(s);
  }

  /** No load comes before the write of the slot it reads. */
  ghost predicate Timely<T>(s: State<T>, steps: seq<Step<T>>)
    requires Inv(s)
    decreases |steps|
  {
    steps == [] ||
    (!(steps[0].LoadSlot? && Stale(s)) && (InvKept(s, steps[0]); Timely(Next(s, steps[0]), steps[1..])))
  }

  ghost function Run<T>(s: State<T>, steps: seq<Step<T>>): (r: State<T>)
    requires Inv(s) && Timely(s, steps)
    ensures Inv(r)
    decreases |steps|
  {
    if steps == [] then s
    else
      InvKept(s, steps[0]);
      Run(Next(s, steps[0]), steps[1..])
  }

  lemma InitialInv<T>(s: State<T>)
    requires Initial(s)
    ensures Inv(s)
  {
    BackSlot(s.ring);
  }

  /**
    push_back(t), batches, pop_front and pop_front(n) interleave in any way: without push_back() every
    run is timely.
   */
  lemma {:induction false} WriteFirstIsTimely<T>(s: State<T>, steps: seq<Step<T>>)
    requires Inv(s) && !s.producer.Owing? && !s.producer.Claimed?
    requires forall step | step in steps :: !step.Claim?
    ensures Timely(s, steps)
    decreases |steps|
  {
    if steps != [] {
      assert steps[0] in steps;
      InvKept(s, steps[0]);
      WriteFirstIsTimely(Next(s, steps[0]), steps[1..]);
    }
  }

  /** In a timely run the values popped are a prefix of the values pushed, and the rest is still there, or owed. */
  lemma {:induction false} PoppedIsPrefix<T>(s: State<T>, steps: seq<Step<T>>)
    requires Initial(s)
    ensures Inv(s)
    ensures Timely(s, steps) ==>
              var r := Run(s, steps);
              && r.popped <= r.pushed
              && r.ring.Valid()
              && r.pushed[|r.popped|..] == Settled(r).Contents()
  {
    InitialInv(s);
    if Timely(s, steps) {
      var r := Run(s, steps);
      assert r.pushed == r.popped + Settled(r).Contents();
    }
  }

  /** Otherwise the load is of the newest slot, and the pop that follows takes a value that was not pushed there. */
  lemma StaleLoadIsPopped<T>(s: State<T>)
    requires Inv(s) && Stale(s)
    ensures Next(s, LoadSlot).ring.Valid()
    ensures var t := Next(Next(s, LoadSlot), BumpFront);
            |t.popped| <= |t.pushed| && !(t.popped <= t.pushed)
  {
    var n := |s.consumer.got|;
    SlotWraps(s.ring, n);
    OnePlace(s.ring, n, s.ring.Size() - 1);
    BackSlot(s.ring);
    var u := Next(s, LoadSlot);
    var t := Next(u, BumpFront);
    assert t.popped == s.popped + (s.consumer.got + [s.ring.slots[s.producer.slot]]);
    assert t.popped[|s.popped| + n] == s.ring.slots[s.producer.slot];
    assert t.pushed == s.popped + Settled(s).Contents();
    SamePlaces(s.ring, Settled(s), n);
    assert t.pushed[|s.popped| + n] == Settled(s).Contents()[n] == s.producer.t;
  }

  /** Two places of one lap with the same slot are the same place. */
  lemma OnePlace<T>(r: Ring<T>, i: nat, j: nat)
    requires r.Shaped() && i < r.Capacity() && j < r.Capacity() && r.At(i) == r.At(j)
    ensures i == j
  {
  }

  /** push_back() and a pop before its caller has written: the value popped is what the slot held before. */
  lemma LateWriteBreaksPrefix() returns (s: State<int>, r: State<int>)
    ensures Initial(s)
    ensures r == Next(Next(Next(Next(Next(s, Claim(1)), BumpFirst), TestSize(1)), LoadSlot), BumpFront)
    ensures !(r.popped <= r.pushed)
  {
    s := State(Ring(0, [0], 0, 0), Ready, Waiting, [], []);
    var a, b, c := LateStart(s);
    StaleLoadIsPopped(c);
    r := Next(Next(c, LoadSlot), BumpFront);
  }

  lemma LateStart(s: State<int>) returns (a: State<int>, b: State<int>, c: State<int>)
    requires s == State(Ring(0, [0], 0, 0), Ready, Waiting, [], [])
    ensures Initial(s) && a == Next(s, Claim(1))
    ensures a.ring.Valid() && b == Next(a, BumpFirst)
    ensures b.ring.Valid() && c == Next(b, TestSize(1))
    ensures Inv(c) && Stale(c)
  {
    assert Pow2(0) == 1;
    InitialInv(s);
    InvKept(s, Claim(1));
    a := Next(s, Claim(1));
    InvKept(a, BumpFirst);
    b := Next(a, BumpFirst);
    InvKept(b, TestSize(1));
    c := Next(b, TestSize(1));
  }

  lemma StoreIsFresh<T>(s: State<T>)
    requires Inv(s) && s.producer.Filling? && s.producer.k < |s.producer.ts|
    ensures s.ring.Size() + s.producer.k < s.ring.Capacity()
    ensures s.ring.At(s.ring.Size() + s.producer.k) !in UsedSlots(s.ring)
    ensures Next(s, StoreSlot).ring.Valid()
    ensures Next(s, StoreSlot).ring.Contents() == s.ring.Contents()
  {
    var place := s.ring.Size() + s.producer.k;
    BackPlace(s.ring, s.producer.k);
    FillOneMore(s.ring, s.producer.k, s.producer.ts[s.producer.k]);
    if s.ring.At(place) in UsedSlots(s.ring) {
      var i :| 0 <= i < s.ring.Size() && UsedSlots(s.ring)[i] == s.ring.At(place);
      OnePlace(s.ring, i, place);
    }
  }

  /** In every such state the producer's store lands on no slot that is published and not yet popped. */
  lemma {:induction false} NoLiveSlotOverwritten<T>(s: State<T>, steps: seq<Step<T>>)
    requires Initial(s)
    ensures Inv(s)
    ensures Timely(s, steps) ==>
              var r := Run(s, steps);
              && r.ring.Valid()
              && (r.producer.Filling? && r.producer.k < |r.producer.ts| ==>
                    && r.ring.Size() + r.producer.k < r.ring.Capacity()
                    && r.ring.At(r.ring.Size() + r.producer.k) !in UsedSlots(r.ring)
                    && Next(r, StoreSlot).ring.Valid()
                    && Next(r, StoreSlot).ring.Contents() == r.ring.Contents())
  {
    hide Ring.At, Ring.SlotOf, Ring.Contents, Next, Timely;
    InitialInv(s);
    if Timely(s, steps) {
      var r := Run(s, steps);
      if r.producer.Filling? && r.producer.k < |r.producer.ts| {
        StoreIsFresh(r);
      }
    }
  }

  /** pop_front never spins once front has returned: its second test for emptiness always passes. */
  lemma {:induction false} PopNeverSpins<T>(s: State<T>, steps: seq<Step<T>>)
    requires Initial(s)
    ensures Inv(s)
    ensures Timely(s, steps) ==>
              var r := Run(s, steps);
              r.consumer.Reading? && |r.consumer.got| == r.consumer.n ==>
                Next(r, BumpFront).popped == r.popped + r.consumer.got
  {
    InitialInv(s);
    if Timely(s, steps) {
      BackSlot(Run(s, steps).ring);
    }
  }
}
