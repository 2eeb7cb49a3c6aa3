/**
  The fixed pool: an array of cells, each holding an object or the index of the next free cell, and
  a free list that is delimited by a count alone.  The link of its last cell was never written.
 */
module Pools {
  import opened Words

  const INDEX_LIMIT: nat := 0xFFFF_FFFF   // the largest uint32_t

  /** The union: a live object, or a link that is meaningful only inside the free list. */
  datatype Cell<+T> = Live(t: T) | Link(next: nat)

  datatype Result<+T> = Ok(value: T) | InvalidArgument

  predicate Distinct(s: seq<nat>) {
    forall i, j | 0 <= i < j < |s| :: s[i] != s[j]
  }

  /**
    The chain is the free list: it starts at first, each of its cells but the last leads to the
    next, and it holds exactly the cells that are not live.  Nothing is said about the last link.
   */
  predicate FreeChain<T>(cells: seq<Cell<T>>, first: nat, chain: seq<nat>) {
    && Distinct(chain)
    && (forall i | 0 <= i < |chain| :: chain[i] < |cells|)
    && (forall x | 0 <= x < |cells| :: cells[x].Link? <==> x in chain)
    && (chain != [] ==> chain[0] == first)
    && (forall i | 0 <= i < |chain| - 1 :: Leads(cells, chain[i], chain[i + 1]))
  }

  predicate Leads<T>(cells: seq<Cell<T>>, a: nat, b: nat) {
    a < |cells| && cells[a].Link? ==> cells[a].next == b
  }

  /** The first count cells reached from first, by following links. */
  function Reached<T>(cells: seq<Cell<T>>, first: nat, count: nat): seq<nat>
    decreases count
  {
    if count == 0 then []
    else if first < |cells| && cells[first].Link? then [first] + Reached(cells, cells[first].next, count - 1)
    else [first]
  }

  /** The free list is what following the links finds, and no more of it than the count says is looked at. */
  lemma {:induction false} ChainIsReached<T>(cells: seq<Cell<T>>, first: nat, chain: seq<nat>, k: nat)
    requires FreeChain(cells, first, chain) && k < |chain|
    ensures Reached(cells, chain[k], |chain| - k) == chain[k..]
    decreases |chain| - k
  {
    assert chain[k] in chain;
    if k + 1 < |chain| {
      assert Leads(cells, chain[k], chain[k + 1]);
      ChainIsReached(cells, first, chain, k + 1);
      assert chain[k..] == [chain[k]] + chain[k + 1..];
    } else {
      assert chain[k..] == [chain[k]];
    }
  }

  /** Taking the head off the chain: whatever its link holds is the new head, if there is one left. */
  lemma AllocKeeps<T>(cells: seq<Cell<T>>, first: nat, chain: seq<nat>, t: T)
    requires FreeChain(cells, first, chain) && chain != []
    ensures first < |cells| && cells[first].Link?
    ensures FreeChain(cells[first := Live(t)], cells[first].next, chain[1..])
  {
    assert chain[0] in chain;
    assert chain[1..] != [] ==> Leads(cells, chain[0], chain[1]);
    var after := cells[first := Live(t)];
    assert chain == [chain[0]] + chain[1..];
    assert chain[0] !in chain[1..];
    forall i | 0 <= i < |chain[1..]| - 1
      ensures Leads(after, chain[1..][i], chain[1..][i + 1])
    {
      assert Leads(cells, chain[i + 1], chain[i + 2]);
      assert chain[i + 1] != chain[0];
    }
  }

  /** Putting a live cell in front of the chain. */
  lemma FreeKeeps<T>(cells: seq<Cell<T>>, first: nat, chain: seq<nat>, x: nat)
    requires FreeChain(cells, first, chain) && x < |cells| && cells[x].Live?
    ensures FreeChain(cells[x := Link(first)], x, [x] + chain)
  {
    var after, longer := cells[x := Link(first)], [x] + chain;
    assert x !in chain;
    forall i | 0 <= i < |longer| - 1
      ensures Leads(after, longer[i], longer[i + 1])
    {
      if i > 0 {
        assert Leads(cells, chain[i - 1], chain[i]);
        assert chain[i - 1] in chain;
      }
    }
  }

  /** The live cells: index and object. */
  function LiveCells<T>(cells: seq<Cell<T>>): map<nat, T> {
    map x: nat | x < |cells| && cells[x].Live? :: cells[x].t
  }

  /** The indices of the live cells, in increasing order. */
  function LiveIndices<T>(cells: seq<Cell<T>>, upTo: nat): seq<nat>
    requires upTo <= |cells|
  {
    if upTo == 0 then []
    else LiveIndices(cells, upTo - 1) + (if cells[upTo - 1].Live? then [upTo - 1] else [])
  }

  /** Every live cell is listed, and exactly once. */
  lemma {:induction false} LiveIndicesExact<T>(cells: seq<Cell<T>>, upTo: nat)
    requires upTo <= |cells|
    ensures forall x: nat :: x in LiveIndices(cells, upTo) <==> x < upTo && cells[x].Live?
    ensures Distinct(LiveIndices(cells, upTo))
  {
    if upTo > 0 {
      LiveIndicesExact(cells, upTo - 1);
    }
  }

  lemma {:induction false} LiveCount<T>(cells: seq<Cell<T>>, upTo: nat)
    requires upTo <= |cells|
    ensures |LiveCells(cells[..upTo])| == |LiveIndices(cells, upTo)|
  {
    if upTo == 0 {
      assert LiveCells(cells[..0]) == map[];
    } else {
      LiveCount(cells, upTo - 1);
      var m, n, x := LiveCells(cells[..upTo - 1]), LiveCells(cells[..upTo]), upTo - 1;
      if cells[x].Live? {
        assert n == m[x := cells[x].t];
      } else {
        assert n == m;
      }
    }
  }

  /** The elements of a sequence. */
  function Elements(s: seq<nat>): (r: set<nat>)
    ensures forall x :: x in r <==> x in s
  {
    set x | x in s
  }

  lemma {:induction false} DistinctCount(s: seq<nat>)
    requires Distinct(s)
    ensures |Elements(s)| == |s|
    decreases |s|
  {
    if s == [] {
      assert Elements(s) == {};
    } else {
      var rest := s[..|s| - 1];
      DistinctCount(rest);
      assert s == rest + [s[|s| - 1]];
      assert s[|s| - 1] !in rest;
      assert Elements(s) == Elements(rest) + {s[|s| - 1]};
    }
  }

  function Below(n: nat): (r: set<nat>)
    ensures |r| == n && forall x: nat :: x in r <==> x < n
  {
    if n == 0 then {} else Below(n - 1) + {n - 1}
  }

  lemma CellCount<T>(cells: seq<Cell<T>>, chain: seq<nat>)
    requires Distinct(chain)
    requires forall x | x in chain :: x < |cells|
    requires forall x | 0 <= x < |cells| :: cells[x].Link? <==> x in chain
    ensures |chain| + |LiveCells(cells)| == |cells|
  {
    var free, live: set<nat> := Elements(chain), LiveCells(cells).Keys;
    assert free + live == Below(|cells|);
    DistinctCount(chain);
    UnionCount(free, live);
    assert |LiveCells(cells)| == |live|;
  }

  /** Free and live cells together are all cells: with c cells and a chain of f, c - f are live. */
  lemma ChainCount<T>(cells: seq<Cell<T>>, first: nat, chain: seq<nat>)
    requires FreeChain(cells, first, chain)
    ensures |chain| + |LiveCells(cells)| == |cells|
  {
    CellCount(cells, chain);
  }

  lemma UnionCount(a: set<nat>, b: set<nat>)
    requires a !! b
    ensures |a + b| == |a| + |b|
  {
  }

  function Ascending(n: nat): (s: seq<nat>)
    ensures |s| == n && forall i | 0 <= i < n :: s[i] == i
  {
    seq(n, i requires 0 <= i < n => i)
  }

  // ---- any history ----

  datatype Pool<T> = Pool(cells: seq<Cell<T>>, first: nat, size: nat) {
    predicate Full() {
      size == |cells|
    }
  }

  datatype PoolOp<T> = AllocOp(t: T) | FreeOp(idx: nat)

  /** The caller frees only what is live. */
  predicate Allowed<T>(p: Pool<T>, op: PoolOp<T>) {
    op.FreeOp? ==> op.idx < |p.cells| && p.cells[op.idx].Live?
  }

  function PoolNext<T>(p: Pool<T>, op: PoolOp<T>): Pool<T> {
    match op
    case AllocOp(t) =>
      if p.Full() || |p.cells| <= p.first || p.cells[p.first].Live? then p
      else Pool(p.cells[p.first := Live(t)], p.cells[p.first].next, p.size + 1)
    case FreeOp(idx) =>
      if idx < |p.cells| && p.size > 0 then Pool(p.cells[idx := Link(p.first)], idx, p.size - 1) else p
  }

  ghost predicate PoolReaches<T>(p: Pool<T>, ops: seq<PoolOp<T>>, r: Pool<T>)
    decreases |ops|
  {
    if ops == [] then r == p else Allowed(p, ops[0]) && PoolReaches(PoolNext(p, ops[0]), ops[1..], r)
  }

  /** A new pool: links 1, 2, ... in all cells but the last, whose link is whatever memory held. */
  function NewPool<T>(capacity: nat, garbage: nat): Pool<T>
    requires capacity > 0
  {
    Pool(seq(capacity, i requires 0 <= i < capacity => Link(if i + 1 < capacity then i + 1 else garbage)), 0, 0)
  }

  ghost predicate Sound<T>(p: Pool<T>, chain: seq<nat>) {
    FreeChain(p.cells, p.first, chain) && p.size + |chain| == |p.cells|
  }

  lemma StepSound<T>(p: Pool<T>, chain: seq<nat>, op: PoolOp<T>) returns (chain': seq<nat>)
    requires Sound(p, chain) && Allowed(p, op)
    ensures Sound(PoolNext(p, op), chain') && |PoolNext(p, op).cells| == |p.cells|
  {
    chain' := chain;
    match op
    case AllocOp(t) =>
      if chain != [] {
        AllocKeeps(p.cells, p.first, chain, t);
        chain' := chain[1..];
      }
    case FreeOp(idx) =>
      FreeKeeps(p.cells, p.first, chain, idx);
      ChainCount(p.cells, p.first, chain);
      assert idx in LiveCells(p.cells);
      chain' := [idx] + chain;
  }

  lemma {:induction false} HistorySound<T>(p: Pool<T>, chain: seq<nat>, ops: seq<PoolOp<T>>, r: Pool<T>)
    returns (chain': seq<nat>)
    requires Sound(p, chain) && PoolReaches(p, ops, r)
    ensures Sound(r, chain') && |r.cells| == |p.cells|
    decreases |ops|
  {
    if ops == [] {
      chain' := chain;
    } else {
      chain' := StepSound(p, chain, ops[0]);
      chain' := HistorySound(PoolNext(p, ops[0]), chain', ops[1..], r);
    }
  }

  /**
    After any alloc/free history, and whatever the unwritten link holds: following capacity - size
    links from first_free finds that many different cells, exactly those that are not live; so the
    cell the next alloc hands out is not live.
   */
  lemma FreeListIsExact<T>(capacity: nat, garbage: nat, ops: seq<PoolOp<T>>, p: Pool<T>)
    requires capacity > 0 && PoolReaches(NewPool(capacity, garbage), ops, p)
    ensures |p.cells| == capacity && p.size == |LiveCells(p.cells)| <= capacity
    ensures var free := Reached(p.cells, p.first, capacity - p.size);
            && |free| == capacity - p.size && Distinct(free)
            && forall x: nat :: x in free <==> x < capacity && x !in LiveCells(p.cells)
    ensures !p.Full() ==> p.first < capacity && p.first !in LiveCells(p.cells)
  {
    var start := NewPool<T>(capacity, garbage);
    var chain0 := Ascending(capacity);
    forall x | 0 <= x < capacity
      ensures x in chain0
    {
      assert chain0[x] == x;
    }
    assert Sound(start, chain0);
    var chain := HistorySound(start, chain0, ops, p);
    ChainCount(p.cells, p.first, chain);
    if chain != [] {
      ChainIsReached(p.cells, p.first, chain, 0);
      assert chain[0] in chain;
    }
    assert Reached(p.cells, p.first, capacity - p.size) == chain;
  }

  // ---- the pool ----

  /** capacity - 1 in size_t, where the constructor's loop stops. */
  function LinkBound(capacity: word): word {
    WrapSub(capacity, 1)
  }

  /** The loop's test passes, and cell i is linked. */
  predicate Links(capacity: word, i: nat) {
    i < LinkBound(capacity)
  }

  /**
    The loop links only cells of the pool, and ends, unless the capacity is 0; then no 32-bit index
    ever fails its test.
   */
  lemma LinkingStaysInside(capacity: word)
    requires capacity <= INDEX_LIMIT
    ensures capacity > 0 <==> forall i: nat | Links(capacity, i) :: i + 1 < capacity
    ensures capacity == 0 <==> forall i: nat | i <= INDEX_LIMIT :: Links(capacity, i)
  {
    if capacity == 0 {
      assert Links(capacity, 0);
    } else {
      assert !Links(capacity, INDEX_LIMIT);
    }
  }

  class FixedPool<T> {
    const collection: array<Cell<T>>
    var firstFree: nat
    var size: nat
    ghost var chain: seq<nat>

    ghost predicate Valid()
      reads this, collection
    {
      && FreeChain(collection[..], firstFree, chain)
      && size + |chain| == collection.Length <= INDEX_LIMIT
    }

    ghost function State(): Pool<T>
      reads this, collection
    {
      Pool(collection[..], firstFree, size)
    }

    /** The abstract value: which cells are live, and what they hold. */
    ghost function Objects(): map<nat, T>
      reads this, collection
    {
      LiveCells(collection[..])
    }

    /** The whole of what is malloc'ed is garbage; only the first capacity - 1 links are set. */
    constructor (capacity: nat, garbage: seq<nat>)
      requires 0 < capacity <= INDEX_LIMIT && |garbage| == capacity
      ensures Valid() && fresh(collection)
      ensures collection.Length == capacity && size == 0 && Objects() == map[]
    {
      var a := new Cell<T>[capacity](i requires 0 <= i < |garbage| => Link(garbage[i]));
      collection := a;
      firstFree, size := 0, 0;
      chain := Ascending(capacity);
      new;
      var i := 0;
      while i < LinkBound(capacity)
        invariant 0 <= i <= capacity - 1
        invariant firstFree == 0 && size == 0 && chain == Ascending(capacity)
        invariant forall x | 0 <= x < capacity :: collection[x].Link?
        invariant forall x | 0 <= x < i :: collection[x].next == x + 1
      {
        collection[i] := Link(i + 1);
        i := i + 1;
      }
      forall x | 0 <= x < capacity
        ensures x in chain
      {
        assert chain[x] == x;
      }
      assert Objects() == map[];
    }

    predicate Full()
      reads this
    {
      size == collection.Length
    }

    /** alloc: None is nullptr; otherwise the index of a cell that was not live. */
    method Alloc(t: T) returns (idx: Option<nat>)
      requires Valid()
      modifies this`firstFree, this`size, this`chain, collection
      ensures Valid() && State() == PoolNext(old(State()), AllocOp(t))
      ensures idx.None? <==> old(Full())
      ensures idx.None? ==> Objects() == old(Objects()) && size == old(size)
      ensures idx.Some? ==> idx.value !in old(Objects()) && Objects() == old(Objects())[idx.value := t]
      ensures idx.Some? ==> size == old(size) + 1 && idx.value < collection.Length
    {
      if Full() {
        ChainCount(collection[..], firstFree, chain);
        return None;
      }
      AllocKeeps(collection[..], firstFree, chain, t);
      var result := firstFree;
      firstFree := collection[firstFree].next;
      size := size + 1;
      collection[result] := Live(t);
      chain := chain[1..];
      idx := Some(result);
    }

    /** free, of a cell that is live. */
    method Free(idx: nat)
      requires Valid() && idx in Objects()
      modifies this`firstFree, this`size, this`chain, collection
      ensures Valid() && State() == PoolNext(old(State()), FreeOp(idx))
      ensures size == old(size) - 1
      ensures Objects() == old(Objects()) - {idx}
    {
      FreeKeeps(collection[..], firstFree, chain, idx);
      ChainCount(collection[..], firstFree, chain);
      collection[idx] := Link(firstFree);
      firstFree := idx;
      size := size - 1;
      chain := [idx] + chain;
      assert size >= 0;
    }

    method ElementAt(idx: nat) returns (t: T)
      requires Valid() && idx in Objects()
      ensures t == Objects()[idx]
    {
      t := collection[idx].t;
    }

    /** for_each: the indices it calls its argument on, in order.  They are the live cells, each once. */
    method ForEach() returns (visited: seq<nat>)
      requires Valid()
      ensures visited == LiveIndices(collection[..], collection.Length)
      ensures Distinct(visited) && forall x :: x in visited <==> x in Objects()
      ensures |visited| == size
    {
      var constructed := new bool[collection.Length](_ => true);
      var freeCells := collection.Length - size;
      var idx := firstFree;
      ghost var k := 0;
      while freeCells != 0
        invariant 0 <= k <= |chain| && freeCells == |chain| - k
        invariant k < |chain| ==> idx == chain[k]
        invariant forall x | 0 <= x < collection.Length :: constructed[x] <==> x !in chain[..k]
        decreases freeCells
      {
        freeCells := freeCells - 1;
        assert chain[k] in chain;
        constructed[idx] := false;
        assert chain[..k + 1] == chain[..k] + [chain[k]];
        if k + 1 < |chain| {
          assert Leads(collection[..], chain[k], chain[k + 1]);
        }
        idx := collection[idx].next;
        k := k + 1;
      }
      assert chain[..k] == chain;
      visited := [];
      var i := 0;
      while i < collection.Length
        invariant i <= collection.Length && visited == LiveIndices(collection[..], i)
        invariant forall x | 0 <= x < collection.Length :: constructed[x] <==> x !in chain
      {
        if constructed[i] {
          visited := visited + [i];
        }
        i := i + 1;
      }
      LiveIndicesExact(collection[..], i);
      LiveCount(collection[..], i);
      assert collection[..][..i] == collection[..];
      ChainCount(collection[..], firstFree, chain);
    }
  }

  /** The constructor's own checks; malloc failing is outside the model. */
  method MakePool<T>(capacity: nat, garbage: seq<nat>) returns (r: Result<FixedPool<T>>)
    requires 0 < capacity && |garbage| == capacity
    ensures r.Ok? <==> capacity <= 0xFFFF_FFFF
    ensures r.Ok? ==> r.value.Valid() && r.value.Objects() == map[] && r.value.collection.Length == capacity
  {
    if INDEX_LIMIT < capacity {
      return InvalidArgument;
    }
    var pool := new FixedPool<T>(capacity, garbage);
    r := Ok(pool);
  }
}
