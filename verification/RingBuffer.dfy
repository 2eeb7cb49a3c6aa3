/**
  The ring buffer: a power-of-two array indexed by two free-running 64-bit counters that are
  masked on every access.  The datatype Ring is its state as a value; the class RingBuffer
  updates that state in place, method by method as the source does.
 */
module RingBuffers {
  import opened Words

  /** Capacity is "1 << bits" with a 32-bit int, so only 0..30 are meaningful. */
  const MAX_BITS: nat := 30

  const MAX_CAPACITY: nat := 0x4000_0000

  /** A piece of the underlying array: where it starts and how many slots it has. */
  datatype Stretch = Stretch(start: nat, len: nat)

  datatype Ring<T> = Ring(bits: nat, slots: seq<T>, front: word, back: word) {

    function Capacity(): nat {
      Pow2(bits)
    }

    predicate Shaped() {
      && bits <= MAX_BITS
      && |slots| == Capacity() <= MAX_CAPACITY
    }

    lemma CapacityBounds()
      requires bits <= MAX_BITS
      ensures 1 <= Capacity() <= MAX_CAPACITY && WORD == Pow2(WORD_BITS - bits) * Capacity()
    {
      Pow2Grows(bits, MAX_BITS);
      Pow2Adds(WORD_BITS - bits, bits);
      Pow2Values();
    }

    /** back - front in unsigned 64-bit arithmetic. */
    function Size(): nat {
      WrapSub(back, front)
    }

    predicate Valid() {
      Shaped() && Size() <= Capacity()
    }

    /** counter & Mask. */
    function SlotOf(counter: nat): (s: nat)
      ensures s < Capacity()
    {
      MaskIsRemainder(counter, bits);
      BitAnd(counter, Capacity() - 1)
    }

    /** The slot that lies i places behind the front, walking round the array. */
    function At(i: nat): (s: nat)
      requires Shaped() && i <= Capacity()
      ensures s < Capacity()
    {
      var f := SlotOf(front);
      if f + i < Capacity() then f + i else f + i - Capacity()
    }

    /** The values in n consecutive places, walking round the array. */
    function Span(from: nat, n: nat): (s: seq<T>)
      requires Shaped() && from + n <= Capacity()
      ensures |s| == n && forall i | 0 <= i < n :: s[i] == slots[At(from + i)]
    {
      seq(n, i requires 0 <= i < n => slots[At(from + i)])
    }

    /** What the buffer holds, oldest first. */
    function Contents(): (s: seq<T>)
      requires Valid()
      ensures |s| == Size()
    {
      Span(0, Size())
    }

    /** What publishing the next n slots would append. */
    function Pending(n: nat): (s: seq<T>)
      requires Valid() && Size() + n <= Capacity()
      ensures |s| == n
    {
      Span(Size(), n)
    }

    function FreeSize(): nat
      requires Valid()
    {
      Capacity() - Size()
    }

    function AdvanceBack(n: word): Ring<T> {
      this.(back := WrapAdd(back, n))
    }

    function AdvanceFront(n: word): Ring<T> {
      this.(front := WrapAdd(front, n))
    }

    function Store(t: T): Ring<T>
      requires Valid()
    {
      this.(slots := slots[SlotOf(back) := t])
    }

    function Push(t: T): Ring<T>
      requires Valid()
    {
      Store(t).AdvanceBack(1)
    }

    /** Fill the free slots in order, without yet publishing them. */
    function Fill(ts: seq<T>): (r: Ring<T>)
      requires Valid() && Size() + |ts| <= Capacity()
      ensures r == this.(slots := r.slots) && |r.slots| == |slots|
      decreases |ts|
    {
      if ts == [] then this
      else
        var n := |ts| - 1;
        var r := Fill(ts[..n]);
        r.(slots := r.slots[At(Size() + n) := ts[n]])
    }

    // The four views, with the branches of the source.

    function BackStretch(): Stretch
      requires Valid()
    {
      var b, f := SlotOf(back), SlotOf(front);
      if back == WrapAdd(front, Capacity()) then Stretch(b, 0)
      else if b >= f then Stretch(b, Capacity() - b)
      else Stretch(b, f - b)
    }

    function BackStretch2(): Stretch
      requires Valid()
    {
      var b, f := SlotOf(back), SlotOf(front);
      if back == WrapAdd(front, Capacity()) then Stretch(f, 0)
      else if b >= f then Stretch(0, f)
      else Stretch(f, 0)
    }

    function FrontStretch(): Stretch
      requires Valid()
    {
      var b, f := SlotOf(back), SlotOf(front);
      if back == front then Stretch(f, 0)
      else if b > f then Stretch(f, Size())
      else Stretch(f, Capacity() - f)
    }

    function FrontStretch2(): Stretch
      requires Valid()
    {
      var b, f := SlotOf(back), SlotOf(front);
      if back == front then Stretch(b, 0)
      else if b > f then Stretch(b, 0)
      else Stretch(0, b)
    }
  }

  /** Wrapping a counter at 2^64 does not move its slot. */
  lemma SlotWraps<T>(r: Ring<T>, i: nat)
    requires r.Shaped() && i <= r.Capacity()
    ensures i < WORD && r.SlotOf(WrapAdd(r.front, i)) == r.At(i)
  {
    r.CapacityBounds();
    MaskIsRemainder(WrapAdd(r.front, i), r.bits);
    MaskIsRemainder(r.front, r.bits);
    CounterRemainder(r.front, i, r.Capacity(), Pow2(WORD_BITS - r.bits));
  }

  /** The counter difference is the distance walked. */
  lemma BackIsFrontPlusSize<T>(r: Ring<T>)
    requires r.Shaped()
    ensures WrapAdd(r.front, r.Size()) == r.back
  {
  }

  lemma BackSlot<T>(r: Ring<T>)
    requires r.Valid()
    ensures r.SlotOf(r.back) == r.At(r.Size())
    ensures r.back == WrapAdd(r.front, r.Capacity()) <==> r.Size() == r.Capacity()
    ensures r.back == r.front <==> r.Size() == 0
  {
    BackIsFrontPlusSize(r);
    SlotWraps(r, r.Size());
    r.CapacityBounds();
  }

  /** Publishing n filled slots appends exactly what lies in them. */
  lemma AdvanceBackAppends<T>(r: Ring<T>, n: nat)
    requires r.Valid() && r.Size() + n <= r.Capacity()
    ensures r.AdvanceBack(n).Valid()
    ensures r.AdvanceBack(n).Contents() == r.Contents() + r.Pending(n)
  {
    r.CapacityBounds();
    var a := r.AdvanceBack(n);
    assert a.Size() == r.Size() + n;
    forall i: nat | i < a.Size()
      ensures a.Contents()[i] == (r.Contents() + r.Pending(n))[i]
    {
      assert a.At(i) == r.At(i);
      if i >= r.Size() {
        assert r.Pending(n)[i - r.Size()] == r.slots[r.At(i)];
      }
    }
  }

  /** Releasing n slots drops the n oldest elements, also when the counter wraps. */
  lemma AdvanceFrontDrops<T>(r: Ring<T>, n: nat)
    requires r.Valid() && n <= r.Size()
    ensures r.AdvanceFront(n).Valid()
    ensures r.AdvanceFront(n).Contents() == r.Contents()[n..]
  {
    r.CapacityBounds();
    var a := r.AdvanceFront(n);
    assert a.Size() == r.Size() - n;
    SlotWraps(r, n);
    forall i: nat | i < a.Size()
      ensures a.Contents()[i] == r.Contents()[n..][i]
    {
      assert a.At(i) == r.At(n + i);
    }
  }

  /** Writing the slot at place k changes no span that does not reach over k. */
  lemma StoreFrame<T>(r: Ring<T>, k: nat, t: T, from: nat, n: nat)
    requires r.Shaped() && k < r.Capacity() && from + n <= r.Capacity()
    requires k < from || from + n <= k
    ensures r.(slots := r.slots[r.At(k) := t]).Span(from, n) == r.Span(from, n)
  {
  }

  lemma FillOneMore<T>(r: Ring<T>, n: nat, t: T)
    requires r.Valid() && r.Size() + n < r.Capacity()
    ensures var a := r.(slots := r.slots[r.At(r.Size() + n) := t]);
            a.Valid() && a.Contents() == r.Contents() && a.Pending(n + 1) == r.Pending(n) + [t]
  {
    var k := r.Size() + n;
    var a := r.(slots := r.slots[r.At(k) := t]);
    StoreFrame(r, k, t, 0, r.Size());
    StoreFrame(r, k, t, r.Size(), n);
    assert a.Span(r.Size(), n + 1) == a.Span(r.Size(), n) + [a.slots[a.At(k)]];
  }

  /** What lies in the slots has no influence on where they are. */
  lemma SamePlaces<T>(r: Ring<T>, q: Ring<T>, i: nat)
    requires r.Valid() && q == r.(slots := q.slots) && |q.slots| == |r.slots| && i <= r.Capacity()
    ensures q.Valid() && q.At(i) == r.At(i)
  {
  }

  /** The free slots hold these values, and nothing published has changed. */
  ghost predicate Filled<T>(r: Ring<T>, f: Ring<T>, ts: seq<T>) {
    && r.Valid() && f.Valid() && f == r.(slots := f.slots) && r.Size() + |ts| <= r.Capacity()
    && f.Contents() == r.Contents() && f.Pending(|ts|) == ts
  }

  lemma FilledNothing<T>(r: Ring<T>)
    requires r.Valid()
    ensures Filled(r, r, [])
  {
  }

  lemma FillStep<T>(r: Ring<T>, f: Ring<T>, w: seq<T>, t: T)
    requires Filled(r, f, w) && r.Size() + |w| < r.Capacity()
    ensures Filled(r, f.(slots := f.slots[r.At(r.Size() + |w|) := t]), w + [t])
  {
    FillOneMore(f, |w|, t);
    SamePlaces(r, f, r.Size() + |w|);
  }

  /** Filling writes only free slots, and then those hold the given values in order. */
  lemma {:induction false} FillWrites<T>(r: Ring<T>, ts: seq<T>)
    requires r.Valid() && r.Size() + |ts| <= r.Capacity()
    ensures Filled(r, r.Fill(ts), ts)
    decreases |ts|
  {
    hide Filled, Ring.At, Ring.SlotOf;
    if ts == [] {
      FilledNothing(r);
    } else {
      var n := |ts| - 1;
      var f := r.Fill(ts[..n]);
      FillWrites(r, ts[..n]);
      FillStep(r, f, ts[..n], ts[n]);
      assert ts[..n] + [ts[n]] == ts;
      assert r.Fill(ts) == f.(slots := f.slots[r.At(r.Size() + |ts[..n]|) := ts[n]]);
    }
  }

  lemma FillThenAdvance<T>(r: Ring<T>, ts: seq<T>)
    requires r.Valid() && r.Size() + |ts| <= r.Capacity()
    ensures r.Fill(ts).AdvanceBack(|ts|).Valid()
    ensures r.Fill(ts).AdvanceBack(|ts|).Contents() == r.Contents() + ts
  {
    FillWrites(r, ts);
    AdvanceBackAppends(r.Fill(ts), |ts|);
  }

  lemma PushAppends<T>(r: Ring<T>, t: T)
    requires r.Valid() && r.Size() < r.Capacity()
    ensures r.Push(t).Valid()
    ensures r.Push(t).Contents() == r.Contents() + [t]
  {
    BackSlot(r);
    assert r.Fill([t][..0]) == r;
    assert r.Store(t) == r.Fill([t]);
    FillThenAdvance(r, [t]);
  }

  // ---- the two-stretch views ----

  /** The slots a stretch covers, in order. */
  function SlotsIn(s: Stretch): (r: seq<int>)
    ensures |r| == s.len
  {
    seq(s.len, i requires 0 <= i < s.len => s.start + i)
  }

  function Read<T>(slots: seq<T>, s: Stretch): (r: seq<T>)
    requires s.start + s.len <= |slots|
    ensures r == slots[s.start..s.start + s.len]
  {
    slots[s.start..s.start + s.len]
  }

  /** The first front stretch followed by the second is exactly the contents, in order. */
  lemma FrontStretchesAreContents<T>(r: Ring<T>)
    requires r.Valid()
    ensures var s1, s2 := r.FrontStretch(), r.FrontStretch2();
            && s1.start + s1.len <= r.Capacity() && s2.start + s2.len <= r.Capacity()
            && s1.len + s2.len == r.Size()
            && Read(r.slots, s1) + Read(r.slots, s2) == r.Contents()
  {
    BackSlot(r);
    var s1, s2 := r.FrontStretch(), r.FrontStretch2();
    var whole := Read(r.slots, s1) + Read(r.slots, s2);
    assert |whole| == r.Size();
    forall i: nat | i < r.Size()
      ensures whole[i] == r.Contents()[i]
    {
      assert whole[i] == r.slots[r.At(i)];
    }
  }

  /** The slots in use, oldest element first. */
  function UsedSlots<T>(r: Ring<T>): (s: seq<int>)
    requires r.Valid()
    ensures |s| == r.Size() && forall i | 0 <= i < |s| :: s[i] == r.At(i)
  {
    seq(r.Size(), i requires 0 <= i < r.Size() => r.At(i))
  }

  /** The free slots, in the order they will be filled. */
  function FreeSlots<T>(r: Ring<T>): (s: seq<int>)
    requires r.Valid()
    ensures |s| == r.FreeSize() && forall i | 0 <= i < |s| :: s[i] == r.At(r.Size() + i)
  {
    seq(r.FreeSize(), i requires 0 <= i < r.FreeSize() => r.At(r.Size() + i))
  }

  /** The back stretches are exactly the free slots, in the order they will be filled. */
  lemma BackStretchesAreFree<T>(r: Ring<T>)
    requires r.Valid()
    ensures var s1, s2 := r.BackStretch(), r.BackStretch2();
            && s1.start + s1.len <= r.Capacity() && s2.start + s2.len <= r.Capacity()
            && SlotsIn(s1) + SlotsIn(s2) == FreeSlots(r)
  {
    BackSlot(r);
    var free := SlotsIn(r.BackStretch()) + SlotsIn(r.BackStretch2());
    assert |free| == r.FreeSize();
    assert forall i: nat | i < r.FreeSize() :: free[i] == r.At(r.Size() + i);
  }

  /** The first of them alone: empty only when the buffer is full, and the next slots to fill in order. */
  lemma BackStretchSlots<T>(r: Ring<T>, i: nat)
    requires r.Valid()
    ensures var s := r.BackStretch();
            && s.len <= r.FreeSize() && (s.len == 0 <==> r.FreeSize() == 0)
            && (i < s.len ==> s.start + i == r.At(r.Size() + i) < r.Capacity())
  {
    BackSlot(r);
  }

  lemma FrontStretchesAreUsed<T>(r: Ring<T>)
    requires r.Valid()
    ensures SlotsIn(r.FrontStretch()) + SlotsIn(r.FrontStretch2()) == UsedSlots(r)
  {
    BackSlot(r);
    var used := SlotsIn(r.FrontStretch()) + SlotsIn(r.FrontStretch2());
    assert |used| == r.Size();
    assert forall i: nat | i < r.Size() :: used[i] == r.At(i);
  }

  lemma UsedOrFree<T>(r: Ring<T>, slot: nat)
    requires r.Valid() && slot < r.Capacity()
    ensures (slot in UsedSlots(r)) != (slot in FreeSlots(r))
  {
    var n, c := r.Size(), r.Capacity();
    var f := r.SlotOf(r.front);
    var k := if slot >= f then slot - f else slot + c - f;
    assert r.At(k) == slot;
    if k < n {
      assert UsedSlots(r)[k] == slot;
    } else {
      assert FreeSlots(r)[k - n] == slot;
    }
  }

  /** No slot is handed out both for reading and for writing, and every slot is one or the other. */
  lemma StretchesPartition<T>(r: Ring<T>, slot: nat)
    requires r.Valid() && slot < r.Capacity()
    ensures (slot in SlotsIn(r.FrontStretch()) + SlotsIn(r.FrontStretch2()))
         != (slot in SlotsIn(r.BackStretch()) + SlotsIn(r.BackStretch2()))
  {
    FrontStretchesAreUsed(r);
    BackStretchesAreFree(r);
    UsedOrFree(r, slot);
  }

  // ---- any sequence of operations against a bounded queue ----

  datatype Op<T> =
    | PushOp(t: T)
    | FillOp(ts: seq<T>)     // write |ts| free slots through the back stretches, then advance_back
    | PopOp(n: nat)          // pop_front and advance_front
    | ClearOp
    | ResetOp

  /** The operation would neither spin nor trip an assertion on a queue holding q. */
  predicate Runs<T>(q: seq<T>, capacity: nat, op: Op<T>) {
    match op
    case PushOp(t) => |q| < capacity
    case FillOp(ts) => |q| + |ts| <= capacity
    case PopOp(n) => n <= |q|
    case ClearOp => true
    case ResetOp => true
  }

  function OnQueue<T>(q: seq<T>, capacity: nat, op: Op<T>): seq<T>
    requires Runs(q, capacity, op)
  {
    match op
    case PushOp(t) => q + [t]
    case FillOp(ts) => q + ts
    case PopOp(n) => q[n..]
    case ClearOp => []
    case ResetOp => []
  }

  function OnRing<T>(r: Ring<T>, op: Op<T>): Ring<T>
    requires r.Valid() && Runs(r.Contents(), r.Capacity(), op)
  {
    match op
    case PushOp(t) => r.Push(t)
    case FillOp(ts) => r.Fill(ts).AdvanceBack(|ts|)
    case PopOp(n) => r.AdvanceFront(n)
    case ClearOp => r.(front := r.back)
    case ResetOp => r.(front := 0, back := 0)
  }

  lemma OpRefines<T>(r: Ring<T>, op: Op<T>)
    requires r.Valid() && Runs(r.Contents(), r.Capacity(), op)
    ensures OnRing(r, op).Valid() && OnRing(r, op).bits == r.bits
    ensures OnRing(r, op).Contents() == OnQueue(r.Contents(), r.Capacity(), op)
  {
    match op
    case PushOp(t) => PushAppends(r, t);
    case FillOp(ts) => FillThenAdvance(r, ts);
    case PopOp(n) => AdvanceFrontDrops(r, n);
    case ClearOp =>
    case ResetOp =>
  }

  /** The longest run of ops a queue would carry out, one state per step. */
  predicate AllRun<T>(q: seq<T>, capacity: nat, ops: seq<Op<T>>)
    decreases |ops|
  {
    ops == [] || (Runs(q, capacity, ops[0]) && AllRun(OnQueue(q, capacity, ops[0]), capacity, ops[1..]))
  }

  function QueueAfter<T>(q: seq<T>, capacity: nat, ops: seq<Op<T>>): seq<T>
    requires AllRun(q, capacity, ops)
    decreases |ops|
  {
    if ops == [] then q else QueueAfter(OnQueue(q, capacity, ops[0]), capacity, ops[1..])
  }

  function RingAfter<T>(r: Ring<T>, ops: seq<Op<T>>): (a: Ring<T>)
    requires r.Valid() && AllRun(r.Contents(), r.Capacity(), ops)
    decreases |ops|
  {
    if ops == [] then r
    else
      OpRefines(r, ops[0]);
      RingAfter(OnRing(r, ops[0]), ops[1..])
  }

  /** Over any operation sequence the ring and the queue agree, wherever the counters start. */
  lemma {:induction false} RingRefinesQueue<T>(r: Ring<T>, ops: seq<Op<T>>)
    requires r.Valid() && AllRun(r.Contents(), r.Capacity(), ops)
    ensures RingAfter(r, ops).Valid()
    ensures RingAfter(r, ops).Contents() == QueueAfter(r.Contents(), r.Capacity(), ops)
    decreases |ops|
  {
    if ops == [] {
    } else {
      OpRefines(r, ops[0]);
      RingRefinesQueue(OnRing(r, ops[0]), ops[1..]);
    }
  }

  // ---- the buffer itself ----

  /**
    Waiting loops ("while (full()) pause") are preconditions here: the method is entered once the
    other side has made room, or has put something in.
   */
  class RingBuffer<T(0)> {
    const bits: nat
    const capacity: nat
    const mask: nat
    var data: array<T>
    var front_: word
    var back_: word

    ghost function State(): Ring<T>
      reads this, data
    {
      Ring(bits, data[..], front_, back_)
    }

    ghost predicate Valid()
      reads this, data
    {
      State().Valid() && capacity == State().Capacity() && mask == capacity - 1
    }

    ghost function Contents(): (s: seq<T>)
      requires Valid()
      reads this, data
    {
      State().Contents()
    }

    constructor (sizeInBits: nat)
      requires sizeInBits <= MAX_BITS
      ensures Valid() && fresh(data)
      ensures bits == sizeInBits && Contents() == [] && front_ == back_ == 0
    {
      bits := sizeInBits;
      capacity := Pow2(sizeInBits);
      mask := Pow2(sizeInBits) - 1;
      data := new T[Pow2(sizeInBits)];
      front_, back_ := 0, 0;
      new;
      State().CapacityBounds();
    }

    function Slot(counter: word): (s: nat)
      requires Valid()
      reads this, data
      ensures s == State().SlotOf(counter)
    {
      BitAnd(counter, mask)
    }

    function Size(): (n: nat)
      requires Valid()
      reads this, data
      ensures n == |Contents()|
    {
      WrapSub(back_, front_)
    }

    function FreeSize(): (n: nat)
      requires Valid()
      reads this, data
      ensures n + |Contents()| == capacity
    {
      capacity - Size()
    }

    predicate Empty()
      requires Valid()
      reads this, data
      ensures Empty() <==> Contents() == []
    {
      front_ == back_
    }

    predicate Full()
      requires Valid()
      reads this, data
      ensures Full() <==> |Contents()| == capacity
    {
      Size() == capacity
    }

    method Clear()
      requires Valid()
      modifies this`front_
      ensures Valid() && State() == OnRing(old(State()), ClearOp) && Contents() == []
    {
      front_ := back_;
    }

    method Reset()
      requires Valid()
      modifies this`front_, this`back_
      ensures Valid() && State() == OnRing(old(State()), ResetOp) && Contents() == []
    {
      front_, back_ := 0, 0;
    }

    method Front() returns (t: T)
      requires Valid() && !Empty()
      ensures t == Contents()[0]
    {
      t := data[Slot(front_)];
    }

    method PushBack(t: T)
      requires Valid() && !Full()
      modifies data, this`back_
      ensures Valid() && State() == OnRing(old(State()), PushOp(t))
      ensures Contents() == old(Contents()) + [t]
    {
      PushAppends(State(), t);
      data[Slot(back_)] := t;
      back_ := WrapAdd(back_, 1);
      assert data[..] == old(State()).Push(t).slots;
    }

    method PopFront()
      requires Valid() && !Empty()
      modifies this`front_
      ensures Valid() && State() == OnRing(old(State()), PopOp(1))
      ensures Contents() == old(Contents())[1..]
    {
      AdvanceFrontDrops(State(), 1);
      front_ := WrapAdd(front_, 1);
    }

    /** pop_front(n): takes what there is, as often as it needs to. */
    method PopFrontN(count: nat)
      requires Valid() && count <= |Contents()|
      modifies this`front_
      ensures Valid() && data == old(data)
      ensures Contents() == old(Contents())[count..]
    {
      var n: nat := count;
      while n > 0
        invariant Valid() && n <= count
        invariant count - n <= |old(Contents())|
        invariant Contents() == old(Contents())[count - n..]
      {
        var s := Min(Size(), n);
        AdvanceFront(s);
        n := n - s;
      }
    }

    method AdvanceBack(n: nat)
      requires Valid() && n <= FreeSize()
      modifies this`back_
      ensures Valid() && State() == old(State()).AdvanceBack(n)
      ensures Contents() == old(Contents()) + old(State()).Pending(n)
    {
      AdvanceBackAppends(State(), n);
      back_ := WrapAdd(back_, n);
    }

    method AdvanceFront(n: nat)
      requires Valid() && n <= Size()
      modifies this`front_
      ensures Valid() && State() == OnRing(old(State()), PopOp(n))
      ensures Contents() == old(Contents())[n..]
    {
      AdvanceFrontDrops(State(), n);
      front_ := WrapAdd(front_, n);
    }

    method BackStretch() returns (start: nat, len: nat)
      requires Valid()
      ensures Stretch(start, len) == State().BackStretch()
    {
      if back_ == WrapAdd(front_, capacity) {
        return Slot(back_), 0;
      }
      if Slot(back_) >= Slot(front_) {
        return Slot(back_), capacity - Slot(back_);
      } else {
        return Slot(back_), Slot(front_) - Slot(back_);
      }
    }

    method BackStretch2() returns (start: nat, len: nat)
      requires Valid()
      ensures Stretch(start, len) == State().BackStretch2()
    {
      if back_ == WrapAdd(front_, capacity) {
        return Slot(front_), 0;
      }
      if Slot(back_) >= Slot(front_) {
        return 0, Slot(front_);
      } else {
        return Slot(front_), 0;
      }
    }

    method FrontStretch() returns (start: nat, len: nat)
      requires Valid()
      ensures Stretch(start, len) == State().FrontStretch()
    {
      if back_ == front_ {
        return Slot(front_), 0;
      }
      if Slot(back_) > Slot(front_) {
        return Slot(front_), WrapSub(back_, front_);
      } else {
        return Slot(front_), capacity - Slot(front_);
      }
    }

    method FrontStretch2() returns (start: nat, len: nat)
      requires Valid()
      ensures Stretch(start, len) == State().FrontStretch2()
    {
      if back_ == front_ {
        return Slot(back_), 0;
      }
      if Slot(back_) > Slot(front_) {
        return Slot(back_), 0;
      } else {
        return 0, Slot(back_);
      }
    }
  }

  // ---- the reader and writer devices ----

  /** A stretch with its first slot taken off. */
  function Shrink(s: Stretch): Stretch
    requires s.len > 0
  {
    Stretch(s.start + 1, s.len - 1)
  }

  /** Two stretches cover what is left to read once the first k elements are read. */
  ghost predicate LeftToRead<T>(r: Ring<T>, s1: Stretch, s2: Stretch, k: nat) {
    && r.Valid()
    && k <= r.Size()
    && s1.start + s1.len <= |r.slots|
    && s2.start + s2.len <= |r.slots|
    && Read(r.slots, s1) + Read(r.slots, s2) == r.Contents()[k..]
  }

  lemma ReadNext<T>(r: Ring<T>, s1: Stretch, s2: Stretch, k: nat)
    requires LeftToRead(r, s1, s2, k)
    ensures s1.len + s2.len == r.Size() - k
    ensures s1.len > 0 ==> r.slots[s1.start] == r.Contents()[k] && LeftToRead(r, Shrink(s1), s2, k + 1)
    ensures s1.len == 0 && s2.len > 0 ==>
              r.slots[s2.start] == r.Contents()[k] && LeftToRead(r, s1, Shrink(s2), k + 1)
  {
    hide Ring.At, Ring.SlotOf, Ring.Contents;
    var rest := r.Contents()[k..];
    if s1.len > 0 {
      assert Read(r.slots, s1) == [r.slots[s1.start]] + Read(r.slots, Shrink(s1));
      assert rest[0] == r.slots[s1.start] && rest[1..] == r.Contents()[k + 1..];
    } else if s2.len > 0 {
      assert Read(r.slots, s2) == [r.slots[s2.start]] + Read(r.slots, Shrink(s2));
      assert rest[0] == r.slots[s2.start] && rest[1..] == r.Contents()[k + 1..];
    }
  }

  /** Two stretches cover the free slots that are left once k of them are filled. */
  ghost predicate LeftToFill<T>(r: Ring<T>, s1: Stretch, s2: Stretch, k: nat) {
    && r.Valid()
    && k <= r.FreeSize()
    && s1.start + s1.len <= |r.slots|
    && s2.start + s2.len <= |r.slots|
    && SlotsIn(s1) + SlotsIn(s2) == FreeSlots(r)[k..]
  }

  lemma SlotsHead(s: Stretch, tail: Stretch)
    requires s.len > 0
    ensures SlotsIn(s) + SlotsIn(tail) == [s.start] + (SlotsIn(Shrink(s)) + SlotsIn(tail))
  {
    assert SlotsIn(s) == [s.start] + SlotsIn(Shrink(s));
  }

  lemma FillNext<T>(r: Ring<T>, s1: Stretch, s2: Stretch, k: nat)
    requires LeftToFill(r, s1, s2, k)
    ensures r.Valid() && k <= r.FreeSize() && s1.len + s2.len == r.FreeSize() - k
    ensures s1.len > 0 ==> s1.start == r.At(r.Size() + k) && LeftToFill(r, Shrink(s1), s2, k + 1)
    ensures s1.len == 0 && s2.len > 0 ==> s2.start == r.At(r.Size() + k) && LeftToFill(r, s1, Shrink(s2), k + 1)
  {
    var free := FreeSlots(r);
    assert |SlotsIn(s1) + SlotsIn(s2)| == |free[k..]|;
    if k < |free| {
      assert free[k..] == [free[k]] + free[k + 1..];
      var s, tail := if s1.len > 0 then s1 else s2, if s1.len > 0 then s2 else s1;
      assert SlotsIn(s) + SlotsIn(tail) == free[k..];
      SlotsHead(s, tail);
      SameCons(s.start, SlotsIn(Shrink(s)) + SlotsIn(tail), free[k], free[k + 1..]);
      assert SlotsIn(tail) + SlotsIn(Shrink(s))
          == if s1.len > 0 then SlotsIn(s2) + SlotsIn(Shrink(s1)) else SlotsIn(Shrink(s2));
    }
  }

  lemma FillSnoc<T>(r: Ring<T>, w: seq<T>, t: T)
    requires r.Valid() && r.Size() + |w| < r.Capacity()
    ensures r.Fill(w + [t]) == r.(slots := r.Fill(w).slots[r.At(r.Size() + |w|) := t])
  {
    assert (w + [t])[..|w|] == w;
  }

  /** Reads the contents of a ring buffer in order through its two front stretches, up to a limit. */
  class RingReader<T(0)> {
    const rb: RingBuffer<T>
    const max: nat
    var stretch1: Stretch
    var stretch2: Stretch
    var readCount: nat
    ghost const base: Ring<T>

    ghost predicate Valid()
      reads this, rb, rb.data
    {
      rb.State() == base && LeftToRead(base, stretch1, stretch2, readCount)
    }

    constructor (buffer: RingBuffer<T>, limit: nat)
      requires buffer.Valid()
      ensures rb == buffer && max == limit && base == buffer.State()
      ensures Valid() && readCount == 0
    {
      FrontStretchesAreContents(buffer.State());
      var a1, l1 := buffer.FrontStretch();
      var a2, l2 := buffer.FrontStretch2();
      stretch1, stretch2 := Stretch(a1, l1), Stretch(a2, l2);
      rb := buffer;
      max := limit;
      readCount := 0;
      base := buffer.State();
    }

    /** None is the source's stream_end_exception. */
    method Get() returns (t: Option<T>)
      requires Valid()
      modifies this
      ensures Valid()
      ensures if old(readCount) < max && old(readCount) < base.Size()
              then t == Some(base.Contents()[old(readCount)]) && readCount == old(readCount) + 1
              else t == None && readCount == old(readCount)
    {
      if readCount >= max {
        return None;
      }
      ReadNext(base, stretch1, stretch2, readCount);
      if stretch1.len > 0 {
        t := Some(rb.data[stretch1.start]);
        stretch1 := Shrink(stretch1);
      } else if stretch2.len > 0 {
        t := Some(rb.data[stretch2.start]);
        stretch2 := Shrink(stretch2);
      } else {
        return None;
      }
      readCount := readCount + 1;
    }
  }

  /** Writes into the free slots of a ring buffer, in order, through its two back stretches, up to a limit. */
  class RingWriter<T(0)> {
    const rb: RingBuffer<T>
    const max: nat
    var stretch1: Stretch
    var stretch2: Stretch
    var writtenCount: nat
    ghost const base: Ring<T>
    ghost var written: seq<T>

    ghost predicate Valid()
      reads this, rb, rb.data
    {
      && LeftToFill(base, stretch1, stretch2, writtenCount)
      && writtenCount == |written|
      && rb.State() == base.Fill(written)
    }

    constructor (buffer: RingBuffer<T>, limit: nat)
      requires buffer.Valid()
      ensures rb == buffer && max == limit && base == buffer.State()
      ensures Valid() && written == []
    {
      BackStretchesAreFree(buffer.State());
      var a1, l1 := buffer.BackStretch();
      var a2, l2 := buffer.BackStretch2();
      stretch1, stretch2 := Stretch(a1, l1), Stretch(a2, l2);
      rb := buffer;
      max := limit;
      writtenCount := 0;
      base := buffer.State();
      written := [];
    }

    /** The store itself, into whichever stretch is next. */
    method Store(t: T) returns (ok: bool)
      requires Valid()
      modifies this`stretch1, this`stretch2, rb.data
      ensures base.Valid() && writtenCount <= base.FreeSize() && ok == (writtenCount < base.FreeSize())
      ensures !ok ==> unchanged(this) && rb.data[..] == old(rb.data[..])
      ensures ok ==> LeftToFill(base, stretch1, stretch2, writtenCount + 1)
      ensures ok ==> rb.data[..] == old(rb.data[..])[base.At(base.Size() + writtenCount) := t]
    {
      FillNext(base, stretch1, stretch2, writtenCount);
      hide LeftToFill, Ring.At, Ring.SlotOf;
      ok := true;
      if stretch1.len > 0 {
        rb.data[stretch1.start] := t;
        stretch1 := Shrink(stretch1);
      } else if stretch2.len > 0 {
        rb.data[stretch2.start] := t;
        stretch2 := Shrink(stretch2);
      } else {
        ok := false;
      }
    }

    /** A false result is the source's stream_end_exception. */
    method Put(t: T) returns (ok: bool)
      requires Valid()
      modifies this, rb.data
      ensures Valid()
      ensures ok == (old(writtenCount) < max && old(writtenCount) < base.FreeSize())
      ensures written == if ok then old(written) + [t] else old(written)
    {
      hide LeftToFill, Ring.At, Ring.SlotOf;
      if writtenCount >= max {
        return false;
      }
      ok := Store(t);
      if ok {
        FillSnoc(base, written, t);
        written := written + [t];
        writtenCount := writtenCount + 1;
      }
    }
  }
}
