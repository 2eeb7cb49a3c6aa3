/** The hash as it is computed: a reusable padding buffer, a stream of views, and the block loop. */
module Sha256Stream {
  import opened Words
  import opened Sha256

  const MIN_SIZE: nat := 9

  // ---- the padding buffer ----

  class Sha256Padding {
    const padding: array<byte>
    var paddingSize: nat

    /** The marker, and zeros up to the length field. */
    ghost predicate Valid()
      reads this, padding
    {
      && padding.Length == 63 + MIN_SIZE
      && MIN_SIZE <= paddingSize <= padding.Length
      && padding[0] == 0x80
      && forall i | 1 <= i < paddingSize - 8 :: padding[i] == 0
    }

    /** Zeros behind the length field too, as far as any longer padding has zeros. */
    ghost predicate Clean()
      reads this, padding
    {
      Valid() && forall i | paddingSize <= i < 64 :: padding[i] == 0
    }

    function View(): Bytes
      requires Valid()
      reads this, padding
    {
      padding[..paddingSize]
    }

    /** Without a size. The bytes behind the zeros are never written. */
    constructor (garbage: Bytes)
      requires |garbage| == 63 + MIN_SIZE
      ensures Clean() && fresh(padding)
    {
      padding := new byte[63 + MIN_SIZE](i requires 0 <= i < |garbage| => garbage[i]);
      paddingSize := MIN_SIZE;
      new;
      padding[0] := 0x80;
      Clear(1, 63);
    }

    /** With a size: zeros are written only as far as this size needs them. */
    constructor ForSize(garbage: Bytes, size: nat)
      requires |garbage| == 63 + MIN_SIZE
      ensures Valid() && fresh(padding)
      ensures View() == Padding(size)
      ensures forall i | paddingSize <= i < padding.Length :: padding[i] == garbage[i]
    {
      padding := new byte[63 + MIN_SIZE](i requires 0 <= i < |garbage| => garbage[i]);
      var newPaddingSize: nat := 64 - size % 64;
      paddingSize := if newPaddingSize < MIN_SIZE then newPaddingSize + 64 else newPaddingSize;
      new;
      padding[0] := 0x80;
      Clear(1, paddingSize - MIN_SIZE);
      WriteLength(size);
      ViewIsPadding(size);
    }

    /** memset(padding + from, 0, n) */
    method Clear(from: nat, n: nat)
      requires from + n <= padding.Length
      modifies padding
      ensures forall i | 0 <= i < padding.Length :: padding[i] == if from <= i < from + n then 0 else old(padding[i])
    {
      var i := from;
      while i < from + n
        invariant from <= i <= from + n
        invariant forall j | 0 <= j < padding.Length :: padding[j] == if from <= j < i then 0 else old(padding[j])
      {
        padding[i] := 0;
        i := i + 1;
      }
    }

    /** The eight length bytes, written from the last one back. */
    method WriteLength(size: nat)
      requires 8 <= paddingSize <= padding.Length
      modifies padding
      ensures padding[paddingSize - 8..paddingSize] == BigEndian(8 * size % WORD, 8)
      ensures forall i | 0 <= i < padding.Length && !(paddingSize - 8 <= i < paddingSize) ::
                padding[i] == old(padding[i])
    {
      var s: nat := 8 * size % WORD;
      ghost var all := s;
      ghost var n := 8;
      var i := 0;
      assert BigEndian(s, n) + [] == BigEndian(s, n);
      while i < 8
        invariant i <= 8 && n == 8
        invariant BigEndian(s, n - i) + padding[paddingSize - i..paddingSize] == BigEndian(all, n)
        invariant forall j | 0 <= j < padding.Length && !(paddingSize - 8 <= j < paddingSize) ::
                    padding[j] == old(padding[j])
      {
        ghost var written := padding[paddingSize - i..paddingSize];
        padding[paddingSize - 1 - i] := s % 256;
        assert padding[paddingSize - 1 - i..paddingSize] == [s % 256] + written;
        ConcatAssoc(BigEndian(s / 256, n - i - 1), [s % 256], written);
        s := s / 256;
        i := i + 1;
      }
      assert padding[paddingSize - 8..paddingSize] == BigEndian(all, n);
    }

    lemma ViewIsPadding(size: nat)
      requires padding.Length == 63 + MIN_SIZE && paddingSize == 9 + ZeroCount(size)
      requires padding[0] == 0x80
      requires padding[paddingSize - 8..paddingSize] == BigEndian(8 * size % WORD, 8)
      ensures padding[..paddingSize] == Padding(size) <==> forall i | 1 <= i < paddingSize - 8 :: padding[i] == 0
    {
      var z := ZeroCount(size);
      var field := padding[paddingSize - 8..paddingSize];
      assert padding[..paddingSize] == [padding[0]] + padding[1..1 + z] + field;
      var p := Padding(size);
      assert p == [0x80] + Zeros(z) + field;
      forall i | 1 <= i < 1 + z
        ensures p[i] == 0
      {
        assert p[i] == Zeros(z)[i - 1];
      }
      if forall i | 1 <= i < paddingSize - 8 :: padding[i] == 0 {
        assert padding[1..1 + z] == Zeros(z);
      } else {
        var i :| 1 <= i < paddingSize - 8 && padding[i] != 0;
        assert padding[..paddingSize][i] != p[i];
      }
    }

    /** Whatever sizes were set before: the view becomes the padding for this size if and only if the bytes the zeros
        newly extend over were zero already. */
    method SetDataSize(size: nat)
      requires Valid()
      modifies this`paddingSize, padding
      ensures paddingSize == |Padding(size)|
      ensures padding[..paddingSize] == Padding(size)
              <==> forall i | old(paddingSize) <= i < paddingSize - 8 :: old(padding[i]) == 0
      ensures old(Clean()) ==> Clean() && View() == Padding(size)
    {
      var newPaddingSize: nat := 64 - size % 64;
      if newPaddingSize < MIN_SIZE {
        newPaddingSize := newPaddingSize + 64;
      }
      Clear(paddingSize - 8, 8);
      paddingSize := newPaddingSize;
      WriteLength(size);
      ViewIsPadding(size);
    }
  }

  /** A buffer built for one size and then set to another holds the padding for the other exactly when the bytes between
      the two, which nothing has written, happen to be zero; so always when the second padding reaches no further. */
  method SetAfterSize(garbage: Bytes, size: nat, next: nat) returns (p: Sha256Padding)
    requires |garbage| == 63 + MIN_SIZE
    ensures fresh(p) && p.padding.Length == 63 + MIN_SIZE && p.paddingSize == |Padding(next)| <= 63 + MIN_SIZE
    ensures p.padding[..p.paddingSize] == Padding(next)
            <==> forall i | |Padding(size)| <= i < |Padding(next)| - 8 :: garbage[i] == 0
  {
    p := new Sha256Padding.ForSize(garbage, size);
    assert p.paddingSize == |p.View()|;
    p.SetDataSize(next);
  }

  // ---- the stream ----

  function Joined(views: seq<Bytes>): Bytes {
    if views == [] then [] else views[0] + Joined(views[1..])
  }

  /** svistreamN */
  class ViewStream {
    var svs: seq<Bytes>
    var eof: bool

    ghost function Left(): Bytes
      reads this
    {
      Joined(svs)
    }

    constructor (views: seq<Bytes>)
      ensures svs == views && !eof
    {
      svs, eof := views, false;
    }

    /** A byte, or zero once the views are used up; eof tells which. */
    method Get() returns (c: byte)
      modifies this
      ensures eof == (old(Left()) == [])
      ensures if eof then c == 0 && Left() == [] else c == old(Left())[0] && Left() == old(Left())[1..]
    {
      while svs != [] && svs[0] == []
        invariant Left() == old(Left())
        decreases |svs|
      {
        assert Joined(svs) == svs[0] + Joined(svs[1..]) == Joined(svs[1..]);
        svs := svs[1..];
      }
      eof := svs == [];
      if eof {
        return 0;
      }
      assert Left() == svs[0] + Joined(svs[1..]);
      c := svs[0][0];
      svs := [svs[0][1..]] + svs[1..];
    }
  }

  // ---- the block loop ----

  /** The first block, with zeros behind the end of the data. */
  function Extended(data: Bytes): (s: Bytes)
    ensures |s| == 64
  {
    if |data| >= 64 then data[..64] else data + Zeros(64 - |data|)
  }

  lemma ExtendedAt(data: Bytes, i: nat)
    requires i < 64
    ensures Extended(data)[i] == if i < |data| then data[i] else 0
  {
  }

  /** What i further calls of Get leave. */
  function Rest(data: Bytes, i: nat): Bytes {
    if i <= |data| then data[i..] else []
  }

  lemma RestStep(data: Bytes, i: nat)
    ensures Rest(Rest(data, i), 1) == Rest(data, i + 1)
    ensures Rest(data, i) == [] <==> |data| <= i
    ensures i < |data| ==> Rest(data, i)[0] == data[i]
  {
  }

  method GetAt(reader: ViewStream, ghost data: Bytes, ghost i: nat) returns (c: byte)
    requires reader.Left() == Rest(data, i) && i < 64
    modifies reader
    ensures reader.Left() == Rest(data, i + 1) && reader.eof == (|data| <= i)
    ensures c == Extended(data)[i]
  {
    RestStep(data, i);
    ExtendedAt(data, i);
    c := reader.Get();
  }

  method ReadWord(reader: ViewStream, w: array<bv32>, ghost data: Bytes, i: nat)
    requires i < 16 && w.Length == 64
    requires reader.Left() == Rest(data, 4 * i)
    requires w[..i] == Schedule(Extended(data), i)
    modifies reader, w
    ensures reader.Left() == Rest(data, 4 * i + 4)
    ensures reader.eof == (|data| < 4 * i + 4)
    ensures w[..i + 1] == Schedule(Extended(data), i + 1)
  {
    hide Word, Mix, Extended, Rest;
    var b0 := GetAt(reader, data, 4 * i);
    var b1 := GetAt(reader, data, 4 * i + 1);
    var b2 := GetAt(reader, data, 4 * i + 2);
    var b3 := GetAt(reader, data, 4 * i + 3);
    w[i] := Word(b0, b1, b2, b3);
    ScheduleStep(w, i, Extended(data));
  }

  method ReadBlock(reader: ViewStream, w: array<bv32>)
    requires w.Length == 64
    modifies reader, w
    ensures var data := old(reader.Left());
            && reader.eof == (|data| < 64)
            && (|data| >= 64 ==> reader.Left() == data[64..])
            && w[..w.Length / 4] == Schedule(Extended(data), w.Length / 4)
  {
    hide Extended, NextWord;
    assert Schedule(Extended(reader.Left()), 0) == [];
    ghost var data := reader.Left();
    ghost var block := Extended(data);
    var i := 0;
    while i < 16
      invariant 0 <= i <= 16
      invariant reader.Left() == Rest(data, 4 * i)
      invariant i > 0 ==> reader.eof == (|data| < 4 * i)
      invariant w[..i] == Schedule(block, i)
    {
      ReadWord(reader, w, data, i);
      i := i + 1;
    }
  }

  lemma ScheduleStep(w: array<bv32>, i: nat, block: Bytes)
    requires i < w.Length && |block| == 64
    requires w[..i] == Schedule(block, i) && w[i] == NextWord(block, w[..i])
    ensures w[..i + 1] == Schedule(block, i + 1)
  {
    assert w[..i + 1] == w[..i] + [w[i]];
  }

  /** The loop adds the same four words as the definition, in the opposite order. */
  lemma MixIs(w2: bv32, w7: bv32, w15: bv32, w16: bv32)
    ensures Mix(w2, w7, w15, w16)
            == Sum4(w16, Rotr(w15, 7) ^ Rotr(w15, 18) ^ (w15 >> 3), w7, Rotr(w2, 17) ^ Rotr(w2, 19) ^ (w2 >> 10))
  {
    SumOrder(SmallSigma1(w2), w7, SmallSigma0(w15), w16);
  }

  method Mixed(w2: bv32, w7: bv32, w15: bv32, w16: bv32) returns (x: bv32)
    ensures x == Mix(w2, w7, w15, w16)
  {
    hide Mix, Sum4;
    var s0 := Rotr(w15, 7) ^ Rotr(w15, 18) ^ (w15 >> 3);
    var s1 := Rotr(w2, 17) ^ Rotr(w2, 19) ^ (w2 >> 10);
    MixIs(w2, w7, w15, w16);
    x := Sum4(w16, s0, w7, s1);
  }

  lemma RoundIs(a: bv32, b: bv32, c: bv32, d: bv32, e: bv32, f: bv32, g: bv32, h: bv32, k: bv32, w: bv32)
    ensures var temp1 := Sum5(h, Rotr(e, 6) ^ Rotr(e, 11) ^ Rotr(e, 25), (e & f) ^ (!e & g), k, w);
            var temp2 := Plus(Rotr(a, 2) ^ Rotr(a, 13) ^ Rotr(a, 22), (a & b) ^ (a & c) ^ (b & c));
            Round(Vars(a, b, c, d, e, f, g, h), k, w) == Vars(Plus(temp1, temp2), a, b, c, Plus(d, temp1), e, f, g)
  {
  }

  method ExtendWord(w: array<bv32>, i: nat, ghost block: Bytes)
    requires 16 <= i < w.Length == 64 && |block| == 64
    requires w[..i] == Schedule(block, i)
    modifies w
    ensures w[..i + 1] == Schedule(block, i + 1)
  {
    hide Mix, Word;
    ghost var done := w[..i];
    var x := Mixed(w[i - 2], w[i - 7], w[i - 15], w[i - 16]);
    w[i] := x;
    assert w[..i] == done;
    ScheduleStep(w, i, block);
  }

  method ExtendSchedule(w: array<bv32>, ghost block: Bytes)
    requires w.Length == 64 && |block| == 64
    requires w[..w.Length / 4] == Schedule(block, w.Length / 4)
    modifies w
    ensures w[..] == Schedule(block, w.Length)
  {
    var i := 16;
    while i < 64
      invariant 16 <= i <= 64
      invariant w[..i] == Schedule(block, i)
    {
      ExtendWord(w, i, block);
      i := i + 1;
    }
    assert w[..] == w[..i];
  }

  method RunRounds(start: Vars, k: seq<bv32>, w: array<bv32>) returns (v: Vars)
    requires w.Length == 64 && |k| == 64
    ensures v == Rounds(start, k, w[..], |k|)
  {
    var a, b, c, d, e, f, g, h := start.a, start.b, start.c, start.d, start.e, start.f, start.g, start.h;
    var i := 0;
    while i < 64
      invariant 0 <= i <= 64
      invariant Vars(a, b, c, d, e, f, g, h) == Rounds(start, k, w[..], i)
    {
      var s1 := Rotr(e, 6) ^ Rotr(e, 11) ^ Rotr(e, 25);
      var ch := (e & f) ^ (!e & g);
      var temp1 := Sum5(h, s1, ch, k[i], w[i]);
      var s0 := Rotr(a, 2) ^ Rotr(a, 13) ^ Rotr(a, 22);
      var maj := (a & b) ^ (a & c) ^ (b & c);
      RoundIs(a, b, c, d, e, f, g, h, k[i], w[i]);
      var temp2 := Plus(s0, maj);
      h := g;
      g := f;
      f := e;
      e := Plus(d, temp1);
      d := c;
      c := b;
      b := a;
      a := Plus(temp1, temp2);
      i := i + 1;
    }
    v := Vars(a, b, c, d, e, f, g, h);
  }

  /** The eight words, byte by byte into the result. */
  method StoreWord(result: array<byte>, at: nat, x: bv32)
    requires at + 4 <= result.Length
    modifies result
    ensures result[at..at + 4] == WordBytes(x)
    ensures result[..at] == old(result[..at])
  {
    ghost var bytes := WordBytes(x);
    result[at] := ((x >> 24) & 0xFF) as int;
    result[at + 1] := ((x >> 16) & 0xFF) as int;
    result[at + 2] := ((x >> 8) & 0xFF) as int;
    result[at + 3] := (x & 0xFF) as int;
    assert bytes[0] == result[at] && bytes[1] == result[at + 1];
    assert bytes[2] == result[at + 2] && bytes[3] == result[at + 3];
    hide WordBytes;
    assert |bytes| == 4;
    assert result[at..at + 4] == bytes;
  }

  method StoreDigest(result: array<byte>, h: Vars)
    requires result.Length == 32
    modifies result
    ensures result[..] == Digest(h)
  {
    StoreNext(result, 0, [], h.a);
    StoreNext(result, 4, WordBytes(h.a), h.b);
    StoreNext(result, 8, WordBytes(h.a) + WordBytes(h.b), h.c);
    ghost var s := WordBytes(h.a) + WordBytes(h.b) + WordBytes(h.c);
    StoreNext(result, 12, s, h.d);
    StoreNext(result, 16, s + WordBytes(h.d), h.e);
    StoreNext(result, 20, s + WordBytes(h.d) + WordBytes(h.e), h.f);
    ghost var t := s + WordBytes(h.d) + WordBytes(h.e) + WordBytes(h.f);
    StoreNext(result, 24, t, h.g);
    StoreNext(result, 28, t + WordBytes(h.g), h.h);
    assert result[..] == result[..32];
  }

  method StoreNext(result: array<byte>, at: nat, ghost before: Bytes, x: bv32)
    requires at + 4 <= result.Length && result[..at] == before
    modifies result
    ensures result[..at + 4] == before + WordBytes(x)
  {
    StoreWord(result, at, x);
    assert result[..at + 4] == result[..at] + result[at..at + 4];
  }

  /** Hashes every whole block of the stream; a part of a block at the end is read and dropped. */
  method FillStream(reader: ViewStream, k: seq<bv32>, result: array<byte>) returns (ghost blocks: nat)
    requires result.Length == 32 && |k| == 64
    modifies reader, result
    ensures result[..] == Digest(HashBlocks(H0, k, old(reader.Left())))
    ensures blocks == |old(reader.Left())| / 64
  {
    var h := H0;
    ghost var data := reader.Left();
    blocks := 0;
    while true
      invariant HashBlocks(H0, k, data) == HashBlocks(h, k, reader.Left())
      invariant blocks + |reader.Left()| / 64 == |data| / 64
      decreases |reader.Left()|
    {
      ghost var left := reader.Left();
      var w := new bv32[64];
      ReadBlock(reader, w);
      if reader.eof {
        break;
      }
      ghost var block := left[..64];
      ExtendSchedule(w, block);
      var v := RunRounds(h, k, w);
      assert AddVars(h, v) == Compress(h, k, block);
      h := AddVars(h, v);
      blocks := blocks + 1;
    }
    StoreDigest(result, h);
  }

  lemma JoinedTwo(a: Bytes, b: Bytes)
    ensures Joined([a, b]) == a + b
  {
    assert [a, b][1..] == [b] && [b][1..] == [];
    assert b + [] == b;
    assert Joined([b]) == b;
  }

  /** fill_sha256: the message and its padding as two views of one stream. */
  method FillSha256(message: Bytes, garbage: Bytes) returns (result: array<byte>, ghost blocks: nat)
    requires |garbage| == 63 + MIN_SIZE
    ensures result.Length == 32 && result[..] == Hash(message)
    ensures 64 * blocks == |message| + |Padding(|message|)|
  {
    var padding := new Sha256Padding(garbage);
    padding.SetDataSize(|message|);
    JoinedTwo(message, padding.View());
    var svi := new ViewStream([message, padding.View()]);
    PaddedIsWholeBlocks(|message|);
    result := new byte[32];
    blocks := FillStream(svi, K, result);
  }
}
