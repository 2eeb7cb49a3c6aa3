/** The stateful devices the codec runs on, and the writers and readers that drive them. */
module BinaryStream {
  import opened Words
  import opened BinaryCodec
  import StopBit

  /** A writer device: null_writer when it only counts, ptr_writer or back_pusher when it keeps the bytes. */
  class Writer {
    const keeping: bool
    var count: nat
    var bytes: seq<byte>
    ghost var given: seq<byte>   // every byte it was ever called with

    ghost predicate Valid()
      reads this
    {
      count == |given| && bytes == if keeping then given else []
    }

    constructor (keep: bool)
      ensures Valid() && given == [] && keeping == keep
    {
      keeping, count, bytes, given := keep, 0, [], [];
    }

    method Put(b: byte)
      requires Valid()
      modifies this
      ensures Valid() && given == old(given) + [b]
    {
      count := count + 1;
      if keeping {
        bytes := bytes + [b];
      }
      given := given + [b];
    }
  }

  /** ptr_reader: a cursor and an end. */
  class Reader {
    const input: seq<byte>
    var at: nat

    ghost predicate Valid()
      reads this
    {
      at <= |input|
    }

    ghost function Rest(): seq<byte>
      requires Valid()
      reads this
    {
      input[at..]
    }

    constructor (s: seq<byte>)
      ensures Valid() && Rest() == s
    {
      input, at := s, 0;
    }

    method Get() returns (b: Option<byte>)
      requires Valid()
      modifies this
      ensures Valid()
      ensures if old(Rest()) == [] then b == None && Rest() == []
              else b == Some(old(Rest())[0]) && Rest() == old(Rest())[1..]
    {
      if at < |input| {
        b := Some(input[at]);
        at := at + 1;
      } else {
        b := None;
      }
    }
  }

  method PutAll(w: Writer, s: seq<byte>)
    requires w.Valid()
    modifies w
    ensures w.Valid() && w.given == old(w.given) + s
  {
    var i := 0;
    while i < |s|
      invariant i <= |s| && w.Valid() && w.given == old(w.given) + s[..i]
    {
      w.Put(s[i]);
      i := i + 1;
    }
  }

  method PutInt(w: Writer, ty: StopBit.IntType, t: int)
    requires w.Valid() && ty.Known() && ty.Holds(t)
    modifies w
    ensures w.Valid() && w.given == old(w.given) + StopBit.Encode(t)
  {
    var buf := new byte[StopBit.BUFFER];
    var n := StopBit.Serialize(ty, t, buf);
    PutAll(w, buf[..n]);
  }

  method PutSize(w: Writer, n: nat)
    requires w.Valid() && Sized(n)
    modifies w
    ensures w.Valid() && w.given == old(w.given) + StopBit.Encode(n)
  {
    StopBit.SizeHolds(n);
    PutInt(w, StopBit.SIZE_T, n);
  }

  /** operator<<: the device receives exactly the encoding of the value. */
  method Put(w: Writer, ty: Type, v: Value)
    requires w.Valid() && Typed(ty, v)
    modifies w
    ensures w.Valid() && w.given == old(w.given) + Encode(ty, v)
    decreases ty, 1, 0
  {
    ghost var before := w.given;
    match ty
    case TByte => w.Put(v.b);
    case TInt(t) => PutInt(w, t, v.t);
    case TString =>
      PutSize(w, |v.s|);
      PutAll(w, v.s);
      ConcatAssoc(before, StopBit.Encode(|v.s|), v.s);
    case TPair(a, b) =>
      Put(w, a, v.first);
      Put(w, b, v.second);
      ConcatAssoc(before, Encode(a, v.first), Encode(b, v.second));
    case TArray(n, e) =>
      PutSize(w, n);
      PutElements(w, e, v.elems);
      ConcatAssoc(before, StopBit.Encode(n), EncodeAll(e, v.elems));
    case TVector(e) =>
      PutSize(w, |v.elems|);
      PutSize(w, v.capacity);
      PutElements(w, e, v.elems);
      ConcatAssoc(before + StopBit.Encode(|v.elems|), StopBit.Encode(v.capacity), EncodeAll(e, v.elems));
      ConcatAssoc(before, StopBit.Encode(|v.elems|), StopBit.Encode(v.capacity) + EncodeAll(e, v.elems));
    case TList(e) =>
      PutSize(w, |v.elems|);
      PutElements(w, e, v.elems);
      ConcatAssoc(before, StopBit.Encode(|v.elems|), EncodeAll(e, v.elems));
    case TMap(k, x) =>
      PutSize(w, |v.keys|);
      PutEntries(w, ty, v.keys, v.vals);
      ConcatAssoc(before, StopBit.Encode(|v.keys|), EncodeEntries(ty, v.keys, v.vals));
    case TVariant(alts) =>
      w.Put(v.index);
      Put(w, alts[v.index], v.v);
      ConcatAssoc(before, [v.index], Encode(alts[v.index], v.v));
  }

  lemma {:induction false} EncodeAllSnoc(e: Type, vs: seq<Value>, v: Value)
    requires AllTyped(e, vs) && Typed(e, v)
    ensures AllTyped(e, vs + [v]) && EncodeAll(e, vs + [v]) == EncodeAll(e, vs) + Encode(e, v)
    decreases |vs|
  {
    if vs == [] {
      assert [v][1..] == [];
    } else {
      EncodeAllSnoc(e, vs[1..], v);
      assert (vs + [v])[0] == vs[0] && (vs + [v])[1..] == vs[1..] + [v];
      ConcatAssoc(Encode(e, vs[0]), EncodeAll(e, vs[1..]), Encode(e, v));
    }
  }

  method PutElements(w: Writer, e: Type, vs: seq<Value>)
    requires w.Valid() && AllTyped(e, vs)
    modifies w
    ensures w.Valid() && w.given == old(w.given) + EncodeAll(e, vs)
    decreases e, 2, 0
  {
    var i := 0;
    while i < |vs|
      invariant i <= |vs| && AllTyped(e, vs[..i])
      invariant w.Valid() && w.given == old(w.given) + EncodeAll(e, vs[..i])
    {
      Put(w, e, vs[i]);
      EncodeAllSnoc(e, vs[..i], vs[i]);
      assert vs[..i + 1] == vs[..i] + [vs[i]];
      ConcatAssoc(old(w.given), EncodeAll(e, vs[..i]), Encode(e, vs[i]));
      i := i + 1;
    }
    assert vs[..i] == vs;
  }

  lemma {:induction false} EncodeEntriesSnoc(m: Type, keys: seq<Value>, vals: seq<Value>, k: Value, v: Value)
    requires m.TMap? && |keys| == |vals| && AllTyped(m.key, keys) && AllTyped(m.val, vals)
    requires Typed(m.key, k) && Typed(m.val, v)
    ensures AllTyped(m.key, keys + [k]) && AllTyped(m.val, vals + [v])
    ensures EncodeEntries(m, keys + [k], vals + [v])
         == EncodeEntries(m, keys, vals) + (Encode(m.key, k) + Encode(m.val, v))
    decreases |keys|
  {
    if keys == [] {
      assert [k][1..] == [] && [v][1..] == [];
    } else {
      EncodeEntriesSnoc(m, keys[1..], vals[1..], k, v);
      assert (keys + [k])[0] == keys[0] && (keys + [k])[1..] == keys[1..] + [k];
      assert (vals + [v])[0] == vals[0] && (vals + [v])[1..] == vals[1..] + [v];
      ConcatAssoc(Encode(m.key, keys[0]) + Encode(m.val, vals[0]), EncodeEntries(m, keys[1..], vals[1..]),
                  Encode(m.key, k) + Encode(m.val, v));
    }
  }

  method PutEntries(w: Writer, m: Type, keys: seq<Value>, vals: seq<Value>)
    requires w.Valid() && m.TMap? && |keys| == |vals| && AllTyped(m.key, keys) && AllTyped(m.val, vals)
    modifies w
    ensures w.Valid() && w.given == old(w.given) + EncodeEntries(m, keys, vals)
    decreases m, 0, 0
  {
    var i := 0;
    while i < |keys|
      invariant i <= |keys| && AllTyped(m.key, keys[..i]) && AllTyped(m.val, vals[..i])
      invariant w.Valid() && w.given == old(w.given) + EncodeEntries(m, keys[..i], vals[..i])
    {
      ghost var done := EncodeEntries(m, keys[..i], vals[..i]);
      Put(w, m.key, keys[i]);
      Put(w, m.val, vals[i]);
      EncodeEntriesSnoc(m, keys[..i], vals[..i], keys[i], vals[i]);
      assert keys[..i + 1] == keys[..i] + [keys[i]] && vals[..i + 1] == vals[..i] + [vals[i]];
      ConcatAssoc(old(w.given) + done, Encode(m.key, keys[i]), Encode(m.val, vals[i]));
      ConcatAssoc(old(w.given), done, Encode(m.key, keys[i]) + Encode(m.val, vals[i]));
      i := i + 1;
    }
    assert keys[..i] == keys && vals[..i] == vals;
  }

  /** The size previewed with a null_writer is the number of bytes a real writer then emits. */
  method PreviewThenWrite(ty: Type, v: Value) returns (preview: nat, bytes: seq<byte>)
    requires Typed(ty, v)
    ensures preview == |bytes| && bytes == Encode(ty, v)
  {
    var counter := new Writer(false);
    Put(counter, ty, v);
    preview := counter.count;
    var writer := new Writer(true);
    Put(writer, ty, v);
    bytes := writer.bytes;
    assert counter.given == writer.given == Encode(ty, v);
  }

  // ---- readers ----

  method GetInt(r: Reader, ty: StopBit.IntType) returns (t: Option<int>)
    requires r.Valid() && ty.Known()
    modifies r
    ensures r.Valid()
    ensures var d := DecodeInt(ty, old(r.Rest()));
            if d.None? then t == None else t == Some(d.value.0) && r.Rest() == d.value.1
  {
    ghost var input := r.Rest();
    var v := r.Get();
    if v.None? {
      return None;
    }
    var result := ty.SignFill(v.value);
    ghost var n := 0;
    while v.value < 128
      invariant r.Valid() && n < |input| && r.Rest() == input[n + 1..]
      invariant v == Some(input[n]) && StopBit.NoStop(input, n)
      invariant result == StopBit.Machine(ty, input, n)
      decreases |input| - n
    {
      result := ty.Shift(result, v.value);
      v := r.Get();
      if v.None? {
        StopBit.DecodeNeedsStop(input);
        return None;
      }
      n := n + 1;
    }
    StopBit.MachineReads(ty, input, n);
    t := Some(ty.Shift(result, v.value));
  }

  method GetSize(r: Reader) returns (n: Option<nat>)
    requires r.Valid()
    modifies r
    ensures r.Valid()
    ensures var d := DecodeSize(old(r.Rest()));
            if d.None? then n == None else n == Some(d.value.0) && r.Rest() == d.value.1
  {
    StopBit.SizeHolds(0);
    var t := GetInt(r, StopBit.SIZE_T);
    n := if t.None? then None else Some(t.value);
  }

  method GetString(r: Reader, size: nat) returns (s: Option<seq<byte>>)
    requires r.Valid()
    modifies r
    ensures r.Valid()
    ensures if |old(r.Rest())| < size then s == None
            else s == Some(old(r.Rest())[..size]) && r.Rest() == old(r.Rest())[size..]
  {
    ghost var input := r.Rest();
    var tmp := [];
    while |tmp| < size
      invariant r.Valid() && |tmp| <= size && |tmp| <= |input|
      invariant tmp == input[..|tmp|] && r.Rest() == input[|tmp|..]
      decreases size - |tmp|
    {
      var b := r.Get();
      if b.None? {
        return None;
      }
      tmp := tmp + [b.value];
    }
    s := Some(tmp);
  }

  /** operator>>: the value the bytes spell, and the cursor behind it. */
  method Get(r: Reader, ty: Type) returns (v: Option<Value>)
    requires r.Valid()
    modifies r
    ensures r.Valid()
    ensures var d := Decode(ty, old(r.Rest()));
            if d.None? then v == None else v == Some(d.value.0) && r.Rest() == d.value.1
    decreases ty, 1, 0
  {
    v := None;
    match ty {
      case TByte =>
        var b := r.Get();
        if b.Some? {
          v := Some(VByte(b.value));
        }
      case TInt(t) =>
        if t.Known() {
          var n := GetInt(r, t);
          if n.Some? {
            v := Some(VInt(n.value));
          }
        }
      case TString =>
        var n := GetSize(r);
        if n.Some? {
          var s := GetString(r, n.value);
          if s.Some? {
            v := Some(VString(s.value));
          }
        }
      case TPair(a, b) =>
        var x := Get(r, a);
        if x.Some? {
          var y := Get(r, b);
          if y.Some? {
            v := Some(VPair(x.value, y.value));
          }
        }
      case TArray(n, e) =>
        var m := GetSize(r);
        if m.Some? && m.value <= n {
          var es := GetElements(r, e, m.value);
          if es.Some? {
            v := Some(VSeq(es.value));
          }
        }
      case TVector(e) =>
        var n := GetSize(r);
        if n.Some? {
          var c := GetSize(r);
          if c.Some? {
            var es := GetElements(r, e, n.value);
            if es.Some? {
              v := Some(VVector(c.value, es.value));
            }
          }
        }
      case TList(e) =>
        var n := GetSize(r);
        if n.Some? {
          var es := GetElements(r, e, n.value);
          if es.Some? {
            v := Some(VSeq(es.value));
          }
        }
      case TMap(k, x) =>
        var n := GetSize(r);
        if n.Some? {
          var m := GetEntries(r, ty, n.value);
          if m.Some? {
            v := Some(VMap(m.value.0, m.value.1));
          }
        }
      case TVariant(alts) =>
        var i := r.Get();
        if i.Some? {
          if i.value < |alts| {
            var x := Get(r, alts[i.value]);
            if x.Some? {
              v := Some(VVariant(i.value, x.value));
            }
          } else {
            v := Some(VKept);
          }
        }
    }
  }

  /** What reading n more elements adds to those already read. */
  function Continue(done: seq<Value>, d: Read<seq<Value>>): Read<seq<Value>> {
    if d.None? then None else Some((done + d.value.0, d.value.1))
  }

  method GetElements(r: Reader, e: Type, size: nat) returns (vs: Option<seq<Value>>)
    requires r.Valid()
    modifies r
    ensures r.Valid()
    ensures var d := DecodeAll(e, size, old(r.Rest()));
            if d.None? then vs == None else vs == Some(d.value.0) && r.Rest() == d.value.1
    decreases e, 2, 0
  {
    ghost var whole := DecodeAll(e, size, r.Rest());
    var done := [];
    assert whole.Some? ==> [] + whole.value.0 == whole.value.0;
    while |done| < size
      invariant r.Valid() && |done| <= size
      invariant whole == Continue(done, DecodeAll(e, size - |done|, r.Rest()))
      decreases size - |done|
    {
      ghost var before := done;
      var x := Get(r, e);
      if x.None? {
        return None;
      }
      done := done + [x.value];
      ghost var d := DecodeAll(e, size - |done|, r.Rest());
      if d.Some? {
        ConcatAssoc(before, [x.value], d.value.0);
      }
    }
    assert done + [] == done;
    vs := Some(done);
  }

  method GetEntries(r: Reader, m: Type, size: nat) returns (kv: Option<(seq<Value>, seq<Value>)>)
    requires r.Valid() && m.TMap?
    modifies r
    ensures r.Valid()
    ensures var d := DecodeEntries(m, size, [], [], old(r.Rest()));
            if d.None? then kv == None else kv == Some(d.value.0) && r.Rest() == d.value.1
    decreases m, 0, 0
  {
    ghost var whole := DecodeEntries(m, size, [], [], r.Rest());
    var keys, vals := [], [];
    var left := size;
    while left > 0
      invariant r.Valid() && whole == DecodeEntries(m, left, keys, vals, r.Rest())
    {
      var k := Get(r, m.key);
      if k.None? {
        return None;
      }
      var x := Get(r, m.val);
      if x.None? {
        return None;
      }
      if k.value !in keys {
        keys, vals := keys + [k.value], vals + [x.value];
      }
      left := left - 1;
    }
    kv := Some((keys, vals));
  }
}
