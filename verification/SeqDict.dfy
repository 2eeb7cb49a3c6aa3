/** The sequence-keyed dictionary: a pool of values and a map from ever-growing keys to its cells. */
module SeqDicts {
  import opened Words
  import opened Pools

  // ---- what it amounts to ----

  /** A plain map that numbers what is put into it and holds at most so many entries. */
  datatype Dict<V> = Dict(capacity: nat, nextKey: nat, entries: map<nat, V>)

  datatype DictOp<V> = Push(v: V) | Erase(key: nat)

  function DictNext<V>(d: Dict<V>, op: DictOp<V>): Dict<V> {
    match op
    case Push(v) =>
      if |d.entries| == d.capacity then d
      else d.(nextKey := d.nextKey + 1, entries := d.entries[d.nextKey := v])
    case Erase(key) => d.(entries := d.entries - {key})
  }

  function DictRun<V>(d: Dict<V>, ops: seq<DictOp<V>>): Dict<V>
    decreases |ops|
  {
    if ops == [] then d else DictRun(DictNext(d, ops[0]), ops[1..])
  }

  ghost predicate KeysIssued<V>(d: Dict<V>) {
    forall k | k in d.entries :: k < d.nextKey
  }

  /** A key once issued is never issued again, and once erased never comes back. */
  lemma {:induction false} KeysAreNeverReused<V>(d: Dict<V>, ops: seq<DictOp<V>>, key: nat)
    requires KeysIssued(d) && key < d.nextKey
    ensures KeysIssued(DictRun(d, ops)) && d.nextKey <= DictRun(d, ops).nextKey
    ensures key !in d.entries ==> key !in DictRun(d, ops).entries
    decreases |ops|
  {
    if ops != [] {
      KeysAreNeverReused(DictNext(d, ops[0]), ops[1..], key);
    }
  }

  /** An entry keeps its value, whatever else is pushed and erased, until its own key is erased. */
  lemma {:induction false} EntriesPersist<V>(d: Dict<V>, ops: seq<DictOp<V>>, key: nat)
    requires KeysIssued(d) && key in d.entries && Erase(key) !in ops
    ensures key in DictRun(d, ops).entries && DictRun(d, ops).entries[key] == d.entries[key]
    decreases |ops|
  {
    if ops != [] {
      assert ops[0] in ops;
      EntriesPersist(DictNext(d, ops[0]), ops[1..], key);
    }
  }

  // ---- what a history leaves, op by op ----

  function Empty<V>(capacity: nat): Dict<V> {
    Dict(capacity, 0, map[])
  }

  /** Op i is a push, and there is room for it. */
  predicate Accepted<V>(capacity: nat, ops: seq<DictOp<V>>, i: nat)
    requires i < |ops|
  {
    ops[i].Push? && |DictRun(Empty(capacity), ops[..i]).entries| < capacity
  }

  /** How many of the first n ops were accepted pushes. */
  function Issued<V>(capacity: nat, ops: seq<DictOp<V>>, n: nat): nat
    requires n <= |ops|
  {
    if n == 0 then 0 else Issued(capacity, ops, n - 1) + if Accepted(capacity, ops, n - 1) then 1 else 0
  }

  /** Op i is the push that issued key k, and no later op erases k. */
  predicate Standing<V(==)>(capacity: nat, ops: seq<DictOp<V>>, i: nat, k: nat)
    requires i < |ops|
  {
    Accepted(capacity, ops, i) && Issued(capacity, ops, i) == k && Erase(k) !in ops[i + 1..]
  }

  lemma {:induction false} DictRunSnoc<V>(d: Dict<V>, ops: seq<DictOp<V>>, op: DictOp<V>)
    ensures DictRun(d, ops + [op]) == DictNext(DictRun(d, ops), op)
    decreases |ops|
  {
    if ops == [] {
      assert [op][1..] == [];
    } else {
      assert (ops + [op])[0] == ops[0] && (ops + [op])[1..] == ops[1..] + [op];
      DictRunSnoc(DictNext(d, ops[0]), ops[1..], op);
    }
  }

  /** What is said of the first ops of a history does not depend on those behind. */
  lemma {:induction false} IssuedBefore<V>(capacity: nat, ops: seq<DictOp<V>>, op: DictOp<V>, n: nat)
    requires n <= |ops|
    ensures n < |ops| ==> (Accepted(capacity, ops + [op], n) <==> Accepted(capacity, ops, n))
    ensures Issued(capacity, ops + [op], n) == Issued(capacity, ops, n)
  {
    assert (ops + [op])[..n] == ops[..n];
    if n > 0 {
      IssuedBefore(capacity, ops, op, n - 1);
    }
  }

  lemma StandingBefore<V>(capacity: nat, ops: seq<DictOp<V>>, op: DictOp<V>, i: nat, k: nat)
    requires i < |ops|
    ensures Standing(capacity, ops + [op], i, k) <==> Standing(capacity, ops, i, k) && op != Erase(k)
  {
    IssuedBefore(capacity, ops, op, i);
    assert (ops + [op])[i + 1..] == ops[i + 1..] + [op];
  }

  /** What a dictionary is after a history from empty. */
  ghost predicate Exact<V>(capacity: nat, ops: seq<DictOp<V>>, d: Dict<V>) {
    && d.capacity == capacity && d.nextKey == Issued(capacity, ops, |ops|) && |d.entries| <= capacity
    && (forall k :: k in d.entries ==> exists i :: 0 <= i < |ops| && Standing(capacity, ops, i, k))
    && (forall i: nat, k: nat | i < |ops| && Standing(capacity, ops, i, k) ::
          k < d.nextKey && ops[i].Push? && k in d.entries && d.entries[k] == ops[i].v)
  }

  lemma OneMoreOp<V>(capacity: nat, ops: seq<DictOp<V>>, op: DictOp<V>, d: Dict<V>)
    requires d == DictRun(Empty(capacity), ops) && Exact(capacity, ops, d)
    ensures Exact(capacity, ops + [op], DictNext(d, op))
  {
    hide DictRun, Standing, Issued, Accepted;
    var n, more, e := |ops|, ops + [op], DictNext(d, op);
    LastOp(capacity, ops, op);
    forall i: nat, k: nat | i < n + 1 && Standing(capacity, more, i, k)
      ensures k < e.nextKey && more[i].Push? && k in e.entries && e.entries[k] == more[i].v
    {
      if i < n {
        StandingBefore(capacity, ops, op, i, k);
      }
    }
    forall k | k in e.entries
      ensures exists i :: 0 <= i < n + 1 && Standing(capacity, more, i, k)
    {
      if k in d.entries {
        var i :| 0 <= i < n && Standing(capacity, ops, i, k);
        StandingBefore(capacity, ops, op, i, k);
      } else {
        assert Standing(capacity, more, n, k);
      }
    }
  }

  /** The last op of a history, seen from the dictionary before it. */
  lemma LastOp<V>(capacity: nat, ops: seq<DictOp<V>>, op: DictOp<V>)
    ensures var d, n := DictRun(Empty(capacity), ops), |ops|;
            var accepted := op.Push? && |d.entries| < capacity;
            && Issued(capacity, ops + [op], n + 1) == Issued(capacity, ops, n) + (if accepted then 1 else 0)
            && forall k :: Standing(capacity, ops + [op], n, k) <==> accepted && k == Issued(capacity, ops, n)
  {
    assert (ops + [op])[..|ops|] == ops && (ops + [op])[|ops| + 1..] == [];
    IssuedBefore(capacity, ops, op, |ops|);
  }

  lemma EmptyIsExact<V>(capacity: nat)
    ensures Exact(capacity, [], DictRun(Empty<V>(capacity), []))
  {
  }

  lemma {:induction false} RunIsExact<V>(capacity: nat, ops: seq<DictOp<V>>)
    ensures Exact(capacity, ops, DictRun(Empty(capacity), ops))
    decreases |ops|
  {
    hide Exact, DictRun, DictNext;
    if ops == [] {
      EmptyIsExact<V>(capacity);
    } else {
      var n := |ops| - 1;
      RunIsExact(capacity, ops[..n]);
      assert ops == ops[..n] + [ops[n]];
      DictRunSnoc(Empty(capacity), ops[..n], ops[n]);
      OneMoreOp(capacity, ops[..n], ops[n], DictRun(Empty(capacity), ops[..n]));
    }
  }

  /**
    After any history from the empty dictionary the keys issued are 0, 1, 2, ..., in push order, and
    the entries are exactly the keys issued and not erased since, each with the value pushed under it.
   */
  lemma EntriesExactly<V>(capacity: nat, ops: seq<DictOp<V>>)
    ensures var d := DictRun(Empty(capacity), ops);
            && d.nextKey == Issued(capacity, ops, |ops|) && |d.entries| <= capacity
            && (forall k :: k in d.entries <==> exists i :: 0 <= i < |ops| && Standing(capacity, ops, i, k))
            && (forall i: nat, k: nat | i < |ops| && Standing(capacity, ops, i, k) :: d.entries[k] == ops[i].v)
  {
    RunIsExact(capacity, ops);
  }

  // ---- the dictionary ----

  lemma {:induction false} InjectiveValues(m: map<nat, nat>)
    requires forall a, b | a in m && b in m && a != b :: m[a] != m[b]
    ensures |m.Values| == |m|
    decreases |m|
  {
    if m == map[] {
      assert m.Values == {};
    } else {
      var k :| k in m;
      var rest := m - {k};
      InjectiveValues(rest);
      assert m == rest[k := m[k]];
      assert m.Values == rest.Values + {m[k]};
      assert m[k] !in rest.Values;
    }
  }

  /** The key map is injective onto exactly the live cells, and every key has been issued. */
  ghost predicate Linked<V>(m: map<nat, nat>, objects: map<nat, V>, next: nat) {
    && (forall a, b | a in m && b in m && a != b :: m[a] != m[b])
    && (forall k | k in m :: k < next && m[k] in objects)
    && (forall x | x in objects :: x in m.Values)
  }

  /** What the keys stand for. */
  ghost function View<V>(m: map<nat, nat>, objects: map<nat, V>): map<nat, V> {
    map k | k in m && m[k] in objects :: objects[m[k]]
  }

  lemma PushLinks<V>(m: map<nat, nat>, objects: map<nat, V>, next: nat, idx: nat, v: V)
    requires Linked(m, objects, next) && idx !in objects
    ensures Linked(m[next := idx], objects[idx := v], next + 1)
    ensures View(m[next := idx], objects[idx := v]) == View(m, objects)[next := v]
  {
    var n := m[next := idx];
    assert n[next] == idx;
    forall x | x in objects
      ensures x in n.Values
    {
      var k :| k in m && m[k] == x;
      assert n[k] == x;
    }
  }

  lemma EraseLinks<V>(m: map<nat, nat>, objects: map<nat, V>, next: nat, key: nat)
    requires Linked(m, objects, next) && key in m
    ensures Linked(m - {key}, objects - {m[key]}, next)
    ensures View(m - {key}, objects - {m[key]}) == View(m, objects) - {key}
  {
    var n := m - {key};
    forall x | x in objects - {m[key]}
      ensures x in n.Values
    {
      var k :| k in m && m[k] == x;
      assert k in n && n[k] == x;
    }
  }

  lemma LinkedSizes<V>(m: map<nat, nat>, objects: map<nat, V>, next: nat)
    requires Linked(m, objects, next)
    ensures |View(m, objects)| == |m| == |objects|
  {
    InjectiveValues(m);
    assert View(m, objects).Keys == m.Keys;
    assert m.Values == objects.Keys;
    assert |View(m, objects)| == |View(m, objects).Keys| && |m| == |m.Keys| && |objects| == |objects.Keys|;
  }

  class SeqDict<V> {
    var nextSeq: nat
    const pool: FixedPool<V>
    var keyMap: map<nat, nat>

    ghost predicate Valid()
      reads this, pool, pool.collection
    {
      pool.Valid() && Linked(keyMap, pool.Objects(), nextSeq)
    }

    ghost function State(): Dict<V>
      reads this, pool, pool.collection
    {
      Dict(pool.collection.Length, nextSeq, View(keyMap, pool.Objects()))
    }

    /** Sizes match: entries, keys and live cells. */
    lemma SizesMatch()
      requires Valid()
      ensures |State().entries| == |keyMap| == |pool.Objects()| == pool.size
    {
      LinkedSizes(keyMap, pool.Objects(), nextSeq);
      ChainCount(pool.collection[..], pool.firstFree, pool.chain);
    }

    constructor (size: nat, garbage: seq<nat>)
      requires 0 < size <= INDEX_LIMIT && |garbage| == size
      ensures Valid() && State() == Dict(size, 0, map[])
      ensures fresh(pool) && fresh(pool.collection)
    {
      nextSeq := 0;
      pool := new FixedPool<V>(size, garbage);
      keyMap := map[];
      new;
      assert State().entries == map[];
    }

    /** Inserted under the next key, or, when full, (0, false) and nothing changed. */
    method PushBack(v: V) returns (key: nat, inserted: bool)
      requires Valid()
      modifies this, pool`firstFree, pool`size, pool`chain, pool.collection
      ensures Valid() && State() == DictNext(old(State()), Push(v))
      ensures inserted <==> |old(State()).entries| < pool.collection.Length
      ensures inserted ==>
                && key == old(nextSeq) && nextSeq == old(nextSeq) + 1 && pool.size == old(pool.size) + 1
                && State().entries == old(State()).entries[key := v]
      ensures !inserted ==> key == 0 && State() == old(State())
    {
      SizesMatch();
      ghost var objects := pool.Objects();
      var idx := pool.Alloc(v);
      if idx.None? {
        return 0, false;
      }
      key, inserted := nextSeq, true;
      PushLinks(keyMap, objects, nextSeq, idx.value, v);
      nextSeq := nextSeq + 1;
      keyMap := keyMap[key := idx.value];
    }

    method Contains(k: nat) returns (b: bool)
      requires Valid()
      ensures b <==> k in State().entries
    {
      b := k in keyMap;
    }

    method Find(k: nat) returns (v: Option<V>)
      requires Valid()
      ensures v == if k in State().entries then Some(State().entries[k]) else None
    {
      if k !in keyMap {
        return None;
      }
      var t := pool.ElementAt(keyMap[k]);
      v := Some(t);
    }

    method Erase(k: nat) returns (erased: bool)
      requires Valid()
      modifies this`keyMap, pool`firstFree, pool`size, pool`chain, pool.collection
      ensures Valid() && State() == DictNext(old(State()), DictOp.Erase(k))
      ensures erased <==> k in old(State()).entries
      ensures State().entries == old(State()).entries - {k} && nextSeq == old(nextSeq)
      ensures pool.size == old(pool.size) - if erased then 1 else 0
    {
      if k !in keyMap {
        assert State().entries - {k} == State().entries;
        return false;
      }
      EraseLinks(keyMap, pool.Objects(), nextSeq, k);
      var idx := keyMap[k];
      keyMap := keyMap - {k};
      pool.Free(idx);
      erased := true;
    }
  }

  // ---- remove_if_unstable ----

  /** std::swap of two cells, possibly the same one. */
  method Swap<T>(coll: array<T>, i: nat, j: nat)
    requires i < coll.Length && j < coll.Length
    modifies coll
    ensures forall k | 0 <= k < coll.Length && k != i && k != j :: coll[k] == old(coll[k])
    ensures coll[i] == old(coll[j]) && coll[j] == old(coll[i])
    ensures multiset(coll[..]) == multiset(old(coll[..]))
  {
    coll[i], coll[j] := coll[j], coll[i];
  }

  /** Everything from the returned index on satisfies the predicate, nothing before it does, and nothing is lost. */
  method RemoveIfUnstable<T>(coll: array<T>, cb: T -> bool) returns (end: nat)
    modifies coll
    ensures end <= coll.Length
    ensures forall k | 0 <= k < end :: !cb(coll[k])
    ensures forall k | end <= k < coll.Length :: cb(coll[k])
    ensures multiset(coll[..]) == multiset(old(coll[..]))
  {
    end := coll.Length;
    var i := coll.Length;
    while i > 0
      invariant 0 <= i <= end <= coll.Length
      invariant forall k | i <= k < end :: !cb(coll[k])
      invariant forall k | end <= k < coll.Length :: cb(coll[k])
      invariant multiset(coll[..]) == multiset(old(coll[..]))
    {
      i := i - 1;
      if cb(coll[i]) {
        end := end - 1;
        Swap(coll, i, end);
      }
    }
  }
}
