/**
  The binary codec: every value the writers accept, the bytes they emit for it, and the readers.
  Integers wider than a byte are stop-bit integers; everything else is built on them.
 */
module BinaryCodec {
  import opened Words
  import StopBit

  datatype Type =
    | TByte                                // any integral type of one byte
    | TInt(ty: StopBit.IntType)           // any wider one
    | TString
    | TPair(first: Type, second: Type)
    | TArray(n: nat, elem: Type)           // T[N]
    | TVector(elem: Type)                  // size, capacity, elements
    | TList(elem: Type)                    // any other collection: size, elements
    | TMap(key: Type, val: Type)
    | TVariant(alternatives: seq<Type>)

  datatype Value =
    | VByte(b: byte)
    | VInt(t: int)
    | VString(s: seq<byte>)
    | VPair(first: Value, second: Value)
    | VSeq(elems: seq<Value>)                        // arrays and lists
    | VVector(capacity: nat, elems: seq<Value>)
    | VMap(keys: seq<Value>, vals: seq<Value>)       // entries in the map's own order
    | VVariant(index: nat, v: Value)
    | VKept                                          // read only: the target variant keeps what it held

  predicate Sized(n: nat) {
    n < WORD
  }

  predicate Distinct(keys: seq<Value>) {
    forall i, j | 0 <= i < j < |keys| :: keys[i] != keys[j]
  }

  predicate Typed(ty: Type, v: Value)
    decreases ty, 1, 0
  {
    match ty
    case TByte => v.VByte?
    case TInt(t) => t.Known() && v.VInt? && t.Holds(v.t)
    case TString => v.VString? && Sized(|v.s|)
    case TPair(a, b) => v.VPair? && Typed(a, v.first) && Typed(b, v.second)
    case TArray(n, e) => v.VSeq? && |v.elems| == n && Sized(n) && AllTyped(e, v.elems)
    case TVector(e) => v.VVector? && Sized(v.capacity) && Sized(|v.elems|) && AllTyped(e, v.elems)
    case TList(e) => v.VSeq? && Sized(|v.elems|) && AllTyped(e, v.elems)
    case TMap(k, x) =>
      && v.VMap? && |v.keys| == |v.vals| && Sized(|v.keys|) && Distinct(v.keys)
      && AllTyped(k, v.keys) && AllTyped(x, v.vals)
    case TVariant(alts) =>
      v.VVariant? && v.index < |alts| && v.index < 256 && Typed(alts[v.index], v.v)
  }

  predicate AllTyped(e: Type, vs: seq<Value>)
    decreases e, 2, 0
  {
    forall i | 0 <= i < |vs| :: Typed(e, vs[i])
  }

  // ---- writing ----

  function Encode(ty: Type, v: Value): seq<byte>
    requires Typed(ty, v)
    decreases ty, 1, 0
  {
    match ty
    case TByte => [v.b]
    case TInt(_) => StopBit.Encode(v.t)
    case TString => StopBit.Encode(|v.s|) + v.s
    case TPair(a, b) => Encode(a, v.first) + Encode(b, v.second)
    case TArray(n, e) => StopBit.Encode(n) + EncodeAll(e, v.elems)
    case TVector(e) => StopBit.Encode(|v.elems|) + (StopBit.Encode(v.capacity) + EncodeAll(e, v.elems))
    case TList(e) => StopBit.Encode(|v.elems|) + EncodeAll(e, v.elems)
    case TMap(k, x) => StopBit.Encode(|v.keys|) + EncodeEntries(ty, v.keys, v.vals)
    case TVariant(alts) => [v.index] + Encode(alts[v.index], v.v)
  }

  function EncodeAll(e: Type, vs: seq<Value>): seq<byte>
    requires AllTyped(e, vs)
    decreases e, 2, |vs|
  {
    if vs == [] then [] else Encode(e, vs[0]) + EncodeAll(e, vs[1..])
  }

  function EncodeEntries(m: Type, keys: seq<Value>, vals: seq<Value>): seq<byte>
    requires m.TMap? && |keys| == |vals| && AllTyped(m.key, keys) && AllTyped(m.val, vals)
    decreases m, 0, |keys|
  {
    if keys == [] then []
    else (Encode(m.key, keys[0]) + Encode(m.val, vals[0])) + EncodeEntries(m, keys[1..], vals[1..])
  }

  // ---- reading ----

  type Read<+T> = Option<(T, seq<byte>)>

  function DecodeInt(t: StopBit.IntType, s: seq<byte>): Read<int>
    requires t.Known()
  {
    var d := StopBit.Decode(s);
    if d.None? then None else Some((t.Wrap(d.value.0), d.value.1))
  }

  function DecodeSize(s: seq<byte>): Read<nat> {
    var d := StopBit.Decode(s);
    if d.None? then None else Some((StopBit.SIZE_T.Wrap(d.value.0), d.value.1))
  }

  /** None is a stream that ends too early, or an array that is too long. */
  function Decode(ty: Type, s: seq<byte>): Read<Value>
    decreases ty, 1, 0
  {
    match ty
    case TByte => if s == [] then None else Some((VByte(s[0]), s[1..]))
    case TInt(t) =>
      if !t.Known() then None
      else
        var d := DecodeInt(t, s);
        if d.None? then None else Some((VInt(d.value.0), d.value.1))
    case TString =>
      var d := DecodeSize(s);
      if d.None? || |d.value.1| < d.value.0 then None
      else Some((VString(d.value.1[..d.value.0]), d.value.1[d.value.0..]))
    case TPair(a, b) =>
      var d := Decode(a, s);
      if d.None? then None
      else
        var e := Decode(b, d.value.1);
        if e.None? then None else Some((VPair(d.value.0, e.value.0), e.value.1))
    case TArray(n, e) =>
      var d := DecodeSize(s);
      if d.None? || d.value.0 > n then None
      else
        var r := DecodeAll(e, d.value.0, d.value.1);
        if r.None? then None else Some((VSeq(r.value.0), r.value.1))
    case TVector(e) =>
      var d := DecodeSize(s);
      if d.None? then None
      else
        var c := DecodeSize(d.value.1);
        if c.None? then None
        else
          var r := DecodeAll(e, d.value.0, c.value.1);
          if r.None? then None else Some((VVector(c.value.0, r.value.0), r.value.1))
    case TList(e) =>
      var d := DecodeSize(s);
      if d.None? then None
      else
        var r := DecodeAll(e, d.value.0, d.value.1);
        if r.None? then None else Some((VSeq(r.value.0), r.value.1))
    case TMap(k, x) =>
      var d := DecodeSize(s);
      if d.None? then None
      else
        var r := DecodeEntries(ty, d.value.0, [], [], d.value.1);
        if r.None? then None else Some((VMap(r.value.0.0, r.value.0.1), r.value.1))
    case TVariant(alts) =>
      if s == [] then None
      else if s[0] >= |alts| then Some((VKept, s[1..]))
      else
        var d := Decode(alts[s[0]], s[1..]);
        if d.None? then None else Some((VVariant(s[0], d.value.0), d.value.1))
  }

  function DecodeAll(e: Type, n: nat, s: seq<byte>): Read<seq<Value>>
    decreases e, 2, n
  {
    if n == 0 then Some(([], s))
    else
      var d := Decode(e, s);
      if d.None? then None
      else
        var r := DecodeAll(e, n - 1, d.value.1);
        if r.None? then None else Some(([d.value.0] + r.value.0, r.value.1))
  }

  /** Entries go into the map one by one; a key that is already there is ignored. */
  function DecodeEntries(m: Type, n: nat, keys: seq<Value>, vals: seq<Value>, s: seq<byte>)
    : Read<(seq<Value>, seq<Value>)>
    requires m.TMap?
    decreases m, 0, n
  {
    if n == 0 then Some(((keys, vals), s))
    else
      var d := Decode(m.key, s);
      if d.None? then None
      else
        var e := Decode(m.val, d.value.1);
        if e.None? then None
        else if d.value.0 in keys then DecodeEntries(m, n - 1, keys, vals, e.value.1)
        else DecodeEntries(m, n - 1, keys + [d.value.0], vals + [e.value.0], e.value.1)
  }

  // ---- round trip ----

  lemma SizeRoundTrip(n: nat, rest: seq<byte>)
    requires Sized(n)
    ensures DecodeSize(StopBit.Encode(n) + rest) == Some((n, rest))
  {
    StopBit.SizeHolds(n);
    StopBit.MachineRoundTrip(StopBit.SIZE_T, n, rest);
  }

  /** Reading what was written gives the value back and leaves what follows untouched, at every type. */
  lemma {:induction false} RoundTrip(ty: Type, v: Value, rest: seq<byte>)
    requires Typed(ty, v)
    ensures Decode(ty, Encode(ty, v) + rest) == Some((v, rest))
    decreases ty, 1, 0
  {
    match ty
    case TByte =>
    case TInt(t) => StopBit.MachineRoundTrip(t, v.t, rest);
    case TString => StringRoundTrip(v, rest);
    case TPair(a, b) =>
      ConcatAssoc(Encode(a, v.first), Encode(b, v.second), rest);
      RoundTrip(a, v.first, Encode(b, v.second) + rest);
      RoundTrip(b, v.second, rest);
    case TArray(n, e) => ElementsRoundTrip(ty, e, v, rest);
    case TVector(e) => VectorRoundTrip(e, v, rest);
    case TList(e) => ElementsRoundTrip(ty, e, v, rest);
    case TMap(k, x) => MapRoundTrip(ty, v, rest);
    case TVariant(alts) =>
      RoundTrip(alts[v.index], v.v, rest);
      assert (([v.index] + Encode(alts[v.index], v.v)) + rest)[1..] == Encode(alts[v.index], v.v) + rest;
  }

  lemma StringRoundTrip(v: Value, rest: seq<byte>)
    requires Typed(TString, v)
    ensures Decode(TString, Encode(TString, v) + rest) == Some((v, rest))
  {
    ConcatAssoc(StopBit.Encode(|v.s|), v.s, rest);
    SizeRoundTrip(|v.s|, v.s + rest);
  }

  lemma {:induction false} ElementsRoundTrip(ty: Type, e: Type, v: Value, rest: seq<byte>)
    requires Typed(ty, v) && ((ty.TArray? && ty.elem == e) || ty == TList(e))
    ensures Decode(ty, Encode(ty, v) + rest) == Some((v, rest))
    decreases ty, 0, 0
  {
    var n, body := |v.elems|, EncodeAll(e, v.elems);
    ConcatAssoc(StopBit.Encode(n), body, rest);
    SizeRoundTrip(n, body + rest);
    AllRoundTrip(e, v.elems, rest);
  }

  lemma {:induction false} VectorRoundTrip(e: Type, v: Value, rest: seq<byte>)
    requires Typed(TVector(e), v)
    ensures Decode(TVector(e), Encode(TVector(e), v) + rest) == Some((v, rest))
    decreases TVector(e), 0, 0
  {
    var n, c, body := StopBit.Encode(|v.elems|), StopBit.Encode(v.capacity), EncodeAll(e, v.elems);
    ConcatAssoc(n, c + body, rest);
    ConcatAssoc(c, body, rest);
    SizeRoundTrip(|v.elems|, c + (body + rest));
    SizeRoundTrip(v.capacity, body + rest);
    AllRoundTrip(e, v.elems, rest);
  }

  lemma {:induction false} MapRoundTrip(m: Type, v: Value, rest: seq<byte>)
    requires m.TMap? && Typed(m, v)
    ensures Decode(m, Encode(m, v) + rest) == Some((v, rest))
    decreases m, 0, |v.keys| + 1
  {
    var body := EncodeEntries(m, v.keys, v.vals);
    ConcatAssoc(StopBit.Encode(|v.keys|), body, rest);
    SizeRoundTrip(|v.keys|, body + rest);
    assert [] + v.keys == v.keys && [] + v.vals == v.vals;
    EntriesRoundTrip(m, [], [], v.keys, v.vals, rest);
  }

  lemma {:induction false} AllRoundTrip(e: Type, vs: seq<Value>, rest: seq<byte>)
    requires AllTyped(e, vs)
    ensures DecodeAll(e, |vs|, EncodeAll(e, vs) + rest) == Some((vs, rest))
    decreases e, 2, |vs|
  {
    if vs == [] {
      assert EncodeAll(e, vs) + rest == rest;
    } else {
      ConcatAssoc(Encode(e, vs[0]), EncodeAll(e, vs[1..]), rest);
      RoundTrip(e, vs[0], EncodeAll(e, vs[1..]) + rest);
      AllRoundTrip(e, vs[1..], rest);
      assert [vs[0]] + vs[1..] == vs;
    }
  }

  lemma {:induction false} EntriesRoundTrip(m: Type, k0: seq<Value>, v0: seq<Value>,
                                            keys: seq<Value>, vals: seq<Value>, rest: seq<byte>)
    requires m.TMap? && |keys| == |vals| && AllTyped(m.key, keys) && AllTyped(m.val, vals) && Distinct(k0 + keys)
    ensures DecodeEntries(m, |keys|, k0, v0, EncodeEntries(m, keys, vals) + rest)
         == Some(((k0 + keys, v0 + vals), rest))
    decreases m, 0, |keys|
  {
    if keys == [] {
      assert EncodeEntries(m, keys, vals) + rest == rest;
      assert k0 + keys == k0 && v0 + vals == v0;
    } else {
      var tail := EncodeEntries(m, keys[1..], vals[1..]) + rest;
      EntryRoundTrip(m, keys, vals, rest);
      NewKey(k0, keys);
      ConsShift(k0, keys);
      ConsShift(v0, vals);
      EntriesRoundTrip(m, k0 + [keys[0]], v0 + [vals[0]], keys[1..], vals[1..], rest);
    }
  }

  lemma {:induction false} EntryRoundTrip(m: Type, keys: seq<Value>, vals: seq<Value>, rest: seq<byte>)
    requires m.TMap? && |keys| == |vals| && AllTyped(m.key, keys) && AllTyped(m.val, vals) && keys != []
    ensures var d := Decode(m.key, EncodeEntries(m, keys, vals) + rest);
            && d.Some? && d.value.0 == keys[0]
            && Decode(m.val, d.value.1) == Some((vals[0], EncodeEntries(m, keys[1..], vals[1..]) + rest))
    decreases m, 0, 0
  {
    var a, b, tail := Encode(m.key, keys[0]), Encode(m.val, vals[0]), EncodeEntries(m, keys[1..], vals[1..]);
    ConcatAssoc(a + b, tail, rest);
    ConcatAssoc(a, b, tail + rest);
    RoundTrip(m.key, keys[0], b + (tail + rest));
    RoundTrip(m.val, vals[0], tail + rest);
  }

  lemma ConsShift<T>(a: seq<T>, b: seq<T>)
    requires b != []
    ensures (a + [b[0]]) + b[1..] == a + b
  {
  }

  lemma NewKey(k0: seq<Value>, keys: seq<Value>)
    requires keys != [] && Distinct(k0 + keys)
    ensures keys[0] !in k0
  {
    assert (k0 + keys)[|k0|] == keys[0];
    assert forall i | 0 <= i < |k0| :: (k0 + keys)[i] == k0[i];
  }

  // ---- streams no writer emits ----

  /** A built-in array takes as many elements as there are, up to its length; more are refused. */
  lemma ArraysOfAnySize(n: nat, e: Type, vs: seq<Value>, rest: seq<byte>)
    requires Sized(|vs|) && AllTyped(e, vs)
    ensures Decode(TArray(n, e), StopBit.Encode(|vs|) + (EncodeAll(e, vs) + rest))
         == if |vs| <= n then Some((VSeq(vs), rest)) else None
  {
    SizeRoundTrip(|vs|, EncodeAll(e, vs) + rest);
    AllRoundTrip(e, vs, rest);
  }

  /** An index beyond the alternatives leaves a variant as it was. */
  lemma UnknownAlternative(alts: seq<Type>, index: byte, rest: seq<byte>)
    requires |alts| <= index
    ensures Decode(TVariant(alts), [index] + rest) == Some((VKept, rest))
  {
    assert ([index] + rest)[1..] == rest;
  }

  /** Of entries with one key the first counts: the map's keys are those given, each with its first value. */
  ghost predicate FirstWins(keys: seq<Value>, vals: seq<Value>, ks: seq<Value>, vs: seq<Value>) {
    && |keys| == |vals| && |ks| == |vs| && Distinct(ks)
    && (forall k :: k in ks <==> k in keys)
    && (forall i, j | 0 <= i < |ks| && 0 <= j < |keys| && ks[i] == keys[j] && keys[j] !in keys[..j] :: vs[i] == vals[j])
  }

  lemma FirstWinsStep(keys: seq<Value>, vals: seq<Value>, ks: seq<Value>, vs: seq<Value>, k: Value, v: Value)
    requires FirstWins(keys, vals, ks, vs)
    ensures FirstWins(keys + [k], vals + [v], if k in ks then ks else ks + [k], if k in ks then vs else vs + [v])
  {
    var n := |keys|;
    assert (keys + [k])[..n] == keys && (keys + [k])[n] == k;
    assert forall j | 0 <= j < n :: (keys + [k])[j] == keys[j] && (keys + [k])[..j] == keys[..j];
  }

  lemma {:induction false} EntriesMerge(m: Type, doneKeys: seq<Value>, doneVals: seq<Value>, ks: seq<Value>,
                                        vs: seq<Value>, keys: seq<Value>, vals: seq<Value>, rest: seq<byte>)
    requires m.TMap? && |keys| == |vals| && AllTyped(m.key, keys) && AllTyped(m.val, vals)
    requires FirstWins(doneKeys, doneVals, ks, vs)
    ensures var d := DecodeEntries(m, |keys|, ks, vs, EncodeEntries(m, keys, vals) + rest);
            && d.Some? && d.value.1 == rest
            && FirstWins(doneKeys + keys, doneVals + vals, d.value.0.0, d.value.0.1)
    decreases |keys|
  {
    hide FirstWins;
    if keys == [] {
      assert EncodeEntries(m, keys, vals) + rest == rest;
      assert doneKeys + keys == doneKeys && doneVals + vals == doneVals;
    } else {
      var k, v := keys[0], vals[0];
      EntryRoundTrip(m, keys, vals, rest);
      FirstWinsStep(doneKeys, doneVals, ks, vs, k, v);
      ConsShift(doneKeys, keys);
      ConsShift(doneVals, vals);
      EntriesMerge(m, doneKeys + [k], doneVals + [v], if k in ks then ks else ks + [k],
                   if k in ks then vs else vs + [v], keys[1..], vals[1..], rest);
    }
  }

  /** A map read from entries with any keys, repeated ones included. */
  lemma RepeatedKeys(m: Type, keys: seq<Value>, vals: seq<Value>, rest: seq<byte>)
    requires m.TMap? && |keys| == |vals| && Sized(|keys|) && AllTyped(m.key, keys) && AllTyped(m.val, vals)
    ensures var d := Decode(m, StopBit.Encode(|keys|) + (EncodeEntries(m, keys, vals) + rest));
            && d.Some? && d.value.1 == rest && d.value.0.VMap?
            && FirstWins(keys, vals, d.value.0.keys, d.value.0.vals)
  {
    SizeRoundTrip(|keys|, EncodeEntries(m, keys, vals) + rest);
    assert [] + keys == keys && [] + vals == vals;
    EntriesMerge(m, [], [], [], [], keys, vals, rest);
  }

  /** Bytes spelled out: first before second, size before elements, key before value, capacity behind size. */
  lemma WireExample(i: StopBit.IntType)
    requires i.Known() && i.Holds(5)
    ensures var v := VPair(VMap([VInt(5)], [VString([97, 98])]), VVector(9, [VByte(1), VByte(2), VByte(3)]));
            var ty := TPair(TMap(TInt(i), TString), TVector(TByte));
            Typed(ty, v) && Encode(ty, v) == [0x81, 0x85, 0x82, 97, 98, 0x83, 0x89, 1, 2, 3]
  {
    MapBytes(i);
    VectorBytes();
    hide AllTyped, EncodeAll, EncodeEntries;
  }

  /** And the index before the alternative. */
  lemma VariantExample(i: StopBit.IntType)
    requires i.Known() && i.Holds(5) && i.Holds(300)
    ensures var v := VVariant(1, VPair(VSeq([VInt(300), VInt(5)]), VSeq([VInt(5)])));
            var ty := TVariant([TByte, TPair(TList(TInt(i)), TArray(1, TInt(i)))]);
            Typed(ty, v) && Encode(ty, v) == [1, 0x82, 2, 0xac, 0x85, 0x81, 0x85]
  {
    ListBytes(i);
    hide AllTyped, EncodeAll;
    var pair := TPair(TList(TInt(i)), TArray(1, TInt(i)));
    assert [TByte, pair][1] == pair;
  }

  lemma MapBytes(i: StopBit.IntType)
    requires i.Known() && i.Holds(5)
    ensures var m := TMap(TInt(i), TString); var v := VMap([VInt(5)], [VString([97, 98])]);
            Typed(m, v) && Encode(m, v) == [0x81, 0x85, 0x82, 97, 98]
  {
    SmallNumbers();
    assert EncodeEntries(TMap(TInt(i), TString), [VInt(5)], [VString([97, 98])]) == [0x85, 0x82, 97, 98];
  }

  lemma VectorBytes()
    ensures var v := VVector(9, [VByte(1), VByte(2), VByte(3)]);
            Typed(TVector(TByte), v) && Encode(TVector(TByte), v) == [0x83, 0x89, 1, 2, 3]
  {
    SmallNumbers();
    assert EncodeAll(TByte, [VByte(1), VByte(2), VByte(3)]) == [1, 2, 3];
  }

  lemma ListBytes(i: StopBit.IntType)
    requires i.Known() && i.Holds(5) && i.Holds(300)
    ensures var one, two := VSeq([VInt(5)]), VSeq([VInt(300), VInt(5)]);
            && Typed(TArray(1, TInt(i)), one) && Encode(TArray(1, TInt(i)), one) == [0x81, 0x85]
            && Typed(TList(TInt(i)), two) && Encode(TList(TInt(i)), two) == [0x82, 2, 0xac, 0x85]
  {
    SmallNumbers();
    var one, two := [VInt(5)], [VInt(300), VInt(5)];
    assert Typed(TInt(i), VInt(5)) && Typed(TInt(i), VInt(300));
    assert AllTyped(TInt(i), one) && AllTyped(TInt(i), two);
    assert two[1..] == one && one[1..] == [];
    hide StopBit.Encode, Typed;
    AllUnfolds(TInt(i), one);
    AllUnfolds(TInt(i), two);
  }

  lemma AllUnfolds(e: Type, vs: seq<Value>)
    requires vs != [] && AllTyped(e, vs)
    ensures AllTyped(e, vs[1..]) && EncodeAll(e, vs) == Encode(e, vs[0]) + EncodeAll(e, vs[1..])
    ensures |vs| == 1 ==> EncodeAll(e, vs) == Encode(e, vs[0])
  {
  }

  lemma SmallNumbers()
    ensures forall n | 0 <= n < 64 :: StopBit.Encode(n) == [128 + n]
    ensures StopBit.Encode(300) == [2, 0xac]
  {
  }

  /** Encodings of one type are self-delimiting: a stream determines the first value and where it ends. */
  lemma SelfDelimiting(ty: Type, a: Value, b: Value, r1: seq<byte>, r2: seq<byte>)
    requires Typed(ty, a) && Typed(ty, b) && Encode(ty, a) + r1 == Encode(ty, b) + r2
    ensures a == b && r1 == r2
  {
    RoundTrip(ty, a, r1);
    RoundTrip(ty, b, r2);
  }

  // ---- truncated input ----

  lemma SizeExtends(s: seq<byte>, x: seq<byte>)
    requires DecodeSize(s).Some?
    ensures DecodeSize(s + x) == Some((DecodeSize(s).value.0, DecodeSize(s).value.1 + x))
  {
    StopBit.DecodeExtends(s, x);
  }

  /** A reader never looks past what it consumes: more input behind a complete value changes nothing. */
  lemma {:induction false} DecodeExtends(ty: Type, s: seq<byte>, x: seq<byte>)
    requires Decode(ty, s).Some?
    ensures Decode(ty, s + x) == Some((Decode(ty, s).value.0, Decode(ty, s).value.1 + x))
    decreases ty, 1, 0
  {
    match ty
    case TByte => assert (s + x)[1..] == s[1..] + x;
    case TInt(t) => StopBit.DecodeExtends(s, x);
    case TString => StringExtends(s, x);
    case TPair(a, b) =>
      DecodeExtends(a, s, x);
      DecodeExtends(b, Decode(a, s).value.1, x);
    case TArray(n, e) =>
      SizeExtends(s, x);
      AllExtends(e, DecodeSize(s).value.0, DecodeSize(s).value.1, x);
    case TVector(e) => VectorExtends(e, s, x);
    case TList(e) =>
      SizeExtends(s, x);
      AllExtends(e, DecodeSize(s).value.0, DecodeSize(s).value.1, x);
    case TMap(k, v) =>
      SizeExtends(s, x);
      EntriesExtend(ty, DecodeSize(s).value.0, [], [], DecodeSize(s).value.1, x);
    case TVariant(alts) => VariantExtends(alts, s, x);
  }

  lemma StringExtends(s: seq<byte>, x: seq<byte>)
    requires Decode(TString, s).Some?
    ensures Decode(TString, s + x) == Some((Decode(TString, s).value.0, Decode(TString, s).value.1 + x))
  {
    SizeExtends(s, x);
    var n, body := DecodeSize(s).value.0, DecodeSize(s).value.1;
    assert (body + x)[..n] == body[..n] && (body + x)[n..] == body[n..] + x;
  }

  lemma {:induction false} VectorExtends(e: Type, s: seq<byte>, x: seq<byte>)
    requires Decode(TVector(e), s).Some?
    ensures Decode(TVector(e), s + x) == Some((Decode(TVector(e), s).value.0, Decode(TVector(e), s).value.1 + x))
    decreases e, 3, 0
  {
    SizeExtends(s, x);
    SizeExtends(DecodeSize(s).value.1, x);
    AllExtends(e, DecodeSize(s).value.0, DecodeSize(DecodeSize(s).value.1).value.1, x);
  }

  lemma {:induction false} VariantExtends(alts: seq<Type>, s: seq<byte>, x: seq<byte>)
    requires Decode(TVariant(alts), s).Some?
    ensures var d := Decode(TVariant(alts), s).value;
            Decode(TVariant(alts), s + x) == Some((d.0, d.1 + x))
    decreases TVariant(alts), 0, 0
  {
    assert (s + x)[0] == s[0] && (s + x)[1..] == s[1..] + x;
    if s[0] < |alts| {
      DecodeExtends(alts[s[0]], s[1..], x);
    }
  }

  lemma {:induction false} AllExtends(e: Type, n: nat, s: seq<byte>, x: seq<byte>)
    requires DecodeAll(e, n, s).Some?
    ensures DecodeAll(e, n, s + x) == Some((DecodeAll(e, n, s).value.0, DecodeAll(e, n, s).value.1 + x))
    decreases e, 2, n
  {
    if n > 0 {
      DecodeExtends(e, s, x);
      AllExtends(e, n - 1, Decode(e, s).value.1, x);
    }
  }

  lemma {:induction false} EntriesExtend(m: Type, n: nat, keys: seq<Value>, vals: seq<Value>,
                                         s: seq<byte>, x: seq<byte>)
    requires m.TMap? && DecodeEntries(m, n, keys, vals, s).Some?
    ensures var d := DecodeEntries(m, n, keys, vals, s).value;
            DecodeEntries(m, n, keys, vals, s + x) == Some((d.0, d.1 + x))
    decreases m, 0, n
  {
    if n > 0 {
      DecodeExtends(m.key, s, x);
      var k := Decode(m.key, s).value;
      DecodeExtends(m.val, k.1, x);
      var v := Decode(m.val, k.1).value;
      if k.0 in keys {
        EntriesExtend(m, n - 1, keys, vals, v.1, x);
      } else {
        EntriesExtend(m, n - 1, keys + [k.0], vals + [v.0], v.1, x);
      }
    }
  }

  /** An encoding cut short anywhere is reported as the end of the stream, never read as some other value. */
  lemma TruncatedIsRejected(ty: Type, v: Value, n: nat)
    requires Typed(ty, v) && n < |Encode(ty, v)|
    ensures Decode(ty, Encode(ty, v)[..n]) == None
  {
    var s := Encode(ty, v);
    RoundTrip(ty, v, []);
    assert s + [] == s && s[..n] + s[n..] == s;
    if Decode(ty, s[..n]).Some? {
      DecodeExtends(ty, s[..n], s[n..]);
    }
  }
}
