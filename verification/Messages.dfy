/** The request message: which fields go on the wire, and what is read back. */
module Messages {
  import opened Words
  import opened BinaryStream
  import BinaryCodec
  import Framing
  import StopBit

  const U32 := StopBit.IntType(false, 32)
  const U64 := StopBit.IntType(false, 64)
  const I32 := StopBit.IntType(true, 32)

  datatype NewOrder = NewOrder(
    instrumentId: int,
    isSell: bool,
    isLimit: bool,
    isStop: bool,
    participateDontInitiate: bool,
    timeInForce: byte,
    lotCount: int,
    picCount: int,        // absent if (!isLimit)
    stopPicCount: int)    // absent if (!isStop)
  {
    predicate Valid() {
      && 0 <= instrumentId < 0x1_0000_0000
      && 0 <= lotCount < 0x1_0000_0000
      && -0x8000_0000 <= picCount < 0x8000_0000
      && -0x8000_0000 <= stopPicCount < 0x8000_0000
    }

    function Flags(): byte {
      (if isSell then 1 else 0) + (if isLimit then 2 else 0) + (if isStop then 4 else 0)
      + (if participateDontInitiate then 8 else 0)
    }
  }

  const NEW_ORDER: nat := 6

  datatype Request = Request(
    kind: int,            // the type field
    seqNo: int,
    accountId: int,
    reqId: int,
    newOrder: NewOrder)   // present if kind is NEW_ORDER
  {
    predicate Valid() {
      && 0 <= kind < 0x1_0000_0000
      && 0 <= seqNo < WORD
      && 0 <= accountId < 0x1_0000_0000
      && 0 <= reqId < WORD
      && newOrder.Valid()
    }
  }

  lemma Ranges(t: int)
    ensures U32.Known() && U64.Known() && I32.Known()
    ensures U32.Holds(t) <==> 0 <= t < 0x1_0000_0000
    ensures U64.Holds(t) <==> 0 <= t < WORD
    ensures I32.Holds(t) <==> -0x8000_0000 <= t < 0x8000_0000
  {
    Pow2Values();
    Pow2Adds(16, 16);
    Pow2Adds(8, 8);
    assert Pow2(32) == 2 * Pow2(31);
  }

  // ---- writing ----

  function OptionalField(present: bool, t: int): seq<byte> {
    if present then StopBit.Encode(t) else []
  }

  function OrderTail(o: NewOrder): seq<byte> {
    OptionalField(o.isLimit, o.picCount) + OptionalField(o.isStop, o.stopPicCount)
  }

  function EncodeOrder(o: NewOrder): seq<byte> {
    StopBit.Encode(o.instrumentId) +
    ([o.timeInForce] + (StopBit.Encode(o.lotCount) + ([o.Flags()] + OrderTail(o))))
  }

  function Body(r: Request): seq<byte> {
    if r.kind == NEW_ORDER then EncodeOrder(r.newOrder) else []
  }

  function EncodeRequest(r: Request): seq<byte> {
    StopBit.Encode(r.kind) +
    (StopBit.Encode(r.seqNo) + (StopBit.Encode(r.accountId) + (StopBit.Encode(r.reqId) + Body(r))))
  }

  // ---- reading, into an object that already holds something ----

  function FieldIf(present: bool, ty: StopBit.IntType, into: int, s: seq<byte>): Option<(int, seq<byte>)>
    requires ty.Known()
  {
    if present then BinaryCodec.DecodeInt(ty, s) else Some((into, s))
  }

  /** flags & (1 << k) */
  predicate Flag(flags: byte, k: nat)
    requires k < 4
  {
    var shifted := if k == 0 then flags else if k == 1 then flags / 2 else if k == 2 then flags / 4 else flags / 8;
    shifted % 2 == 1
  }

  function DecodeOrder(into: NewOrder, s: seq<byte>): Option<(NewOrder, seq<byte>)> {
    var i := BinaryCodec.DecodeInt(U32, s);
    if i.None? || i.value.1 == [] then None
    else
      var l := BinaryCodec.DecodeInt(U32, i.value.1[1..]);
      if l.None? || l.value.1 == [] then None
      else
        var flags := l.value.1[0];
        var p := FieldIf(Flag(flags, 1), I32, into.picCount, l.value.1[1..]);
        if p.None? then None
        else
          var q := FieldIf(Flag(flags, 2), I32, into.stopPicCount, p.value.1);
          if q.None? then None
          else
            Some((NewOrder(i.value.0, Flag(flags, 0), Flag(flags, 1), Flag(flags, 2), Flag(flags, 3),
                           i.value.1[0], l.value.0, p.value.0, q.value.0),
                  q.value.1))
  }

  function DecodeRequest(into: Request, s: seq<byte>): Option<(Request, seq<byte>)> {
    var k := BinaryCodec.DecodeInt(U32, s);
    if k.None? then None
    else
      var n := BinaryCodec.DecodeInt(U64, k.value.1);
      if n.None? then None
      else
        var a := BinaryCodec.DecodeInt(U32, n.value.1);
        if a.None? then None
        else
          var i := BinaryCodec.DecodeInt(U64, a.value.1);
          if i.None? then None
          else if k.value.0 == NEW_ORDER then
            var o := DecodeOrder(into.newOrder, i.value.1);
            if o.None? then None
            else Some((Request(k.value.0, n.value.0, a.value.0, i.value.0, o.value.0), o.value.1))
          else Some((Request(k.value.0, n.value.0, a.value.0, i.value.0, into.newOrder), i.value.1))
  }

  // ---- round trip ----

  lemma FieldRoundTrip(ty: StopBit.IntType, t: int, rest: seq<byte>)
    requires ty.Known() && ty.Holds(t)
    ensures BinaryCodec.DecodeInt(ty, StopBit.Encode(t) + rest) == Some((t, rest))
  {
    StopBit.MachineRoundTrip(ty, t, rest);
  }

  lemma FlagsRoundTrip(o: NewOrder)
    ensures Flag(o.Flags(), 0) == o.isSell && Flag(o.Flags(), 1) == o.isLimit
    ensures Flag(o.Flags(), 2) == o.isStop && Flag(o.Flags(), 3) == o.participateDontInitiate
  {
  }

  /** The order that is left in the target: every field that was on the wire, and the old value of every other. */
  function Received(o: NewOrder, into: NewOrder): NewOrder {
    o.(picCount := if o.isLimit then o.picCount else into.picCount,
       stopPicCount := if o.isStop then o.stopPicCount else into.stopPicCount)
  }

  lemma TailRoundTrip(o: NewOrder, into: NewOrder, rest: seq<byte>)
    requires o.Valid()
    ensures I32.Known()
    ensures var p := FieldIf(o.isLimit, I32, into.picCount, OrderTail(o) + rest);
            && p == Some((Received(o, into).picCount, OptionalField(o.isStop, o.stopPicCount) + rest))
            && FieldIf(o.isStop, I32, into.stopPicCount, p.value.1) == Some((Received(o, into).stopPicCount, rest))
  {
    Ranges(o.picCount);
    Ranges(o.stopPicCount);
    var a, b := OptionalField(o.isLimit, o.picCount), OptionalField(o.isStop, o.stopPicCount);
    ConcatAssoc(a, b, rest);
    assert [] + (b + rest) == b + rest && [] + rest == rest;
    if o.isLimit {
      FieldRoundTrip(I32, o.picCount, b + rest);
    }
    if o.isStop {
      FieldRoundTrip(I32, o.stopPicCount, rest);
    }
  }

  lemma OrderRoundTrip(o: NewOrder, into: NewOrder, rest: seq<byte>)
    requires o.Valid()
    ensures DecodeOrder(into, EncodeOrder(o) + rest) == Some((Received(o, into), rest))
  {
    Ranges(o.instrumentId);
    Ranges(o.lotCount);
    var i, l := StopBit.Encode(o.instrumentId), StopBit.Encode(o.lotCount);
    var f := [o.Flags()] + OrderTail(o);
    ConcatAssoc(i, [o.timeInForce] + (l + f), rest);
    ConcatAssoc([o.timeInForce], l + f, rest);
    ConcatAssoc(l, f, rest);
    ConcatAssoc([o.Flags()], OrderTail(o), rest);
    FieldRoundTrip(U32, o.instrumentId, [o.timeInForce] + (l + (f + rest)));
    assert ([o.timeInForce] + (l + (f + rest)))[1..] == l + (f + rest);
    FieldRoundTrip(U32, o.lotCount, f + rest);
    assert (f + rest)[1..] == OrderTail(o) + rest;
    FlagsRoundTrip(o);
    TailRoundTrip(o, into, rest);
  }

  /** A request read back has every field its type and flags put on the wire, whatever the target held before. */
  lemma RequestRoundTrip(r: Request, into: Request, rest: seq<byte>)
    requires r.Valid()
    ensures DecodeRequest(into, EncodeRequest(r) + rest)
         == Some((r.(newOrder := if r.kind == NEW_ORDER
                                      then Received(r.newOrder, into.newOrder)
                                      else into.newOrder),
                       rest))
  {
    Ranges(r.kind);
    Ranges(r.seqNo);
    Ranges(r.accountId);
    Ranges(r.reqId);
    var k, n, a, i, b := StopBit.Encode(r.kind), StopBit.Encode(r.seqNo), StopBit.Encode(r.accountId),
                         StopBit.Encode(r.reqId), Body(r);
    ConcatAssoc(k, n + (a + (i + b)), rest);
    ConcatAssoc(n, a + (i + b), rest);
    ConcatAssoc(a, i + b, rest);
    ConcatAssoc(i, b, rest);
    FieldRoundTrip(U32, r.kind, n + (a + (i + (b + rest))));
    FieldRoundTrip(U64, r.seqNo, a + (i + (b + rest)));
    FieldRoundTrip(U32, r.accountId, i + (b + rest));
    FieldRoundTrip(U64, r.reqId, b + rest);
    if r.kind == NEW_ORDER {
      OrderRoundTrip(r.newOrder, into.newOrder, rest);
    } else {
      assert [] + rest == rest;
    }
  }

  /** The four integers every request starts with. */
  function Header(r: Request): seq<byte> {
    ((StopBit.Encode(r.kind) + StopBit.Encode(r.seqNo)) + StopBit.Encode(r.accountId)) + StopBit.Encode(r.reqId)
  }

  /** An order up to its flags. */
  function OrderHead(o: NewOrder): seq<byte> {
    (StopBit.Encode(o.instrumentId) + [o.timeInForce]) + StopBit.Encode(o.lotCount)
  }

  /**
    The wire, byte by byte: type 6 carries its order and no other type does; behind the lot count comes
    one byte with a bit for each flag, then the prices that its bits announce.
   */
  lemma RequestBytes(r: Request)
    ensures r.kind != 6 ==> EncodeRequest(r) == Header(r)
    ensures r.kind == 6 ==>
              var bytes, at, o := EncodeRequest(r), |Header(r)| + |OrderHead(r.newOrder)|, r.newOrder;
              && at < |bytes| && bytes[..at] == Header(r) + OrderHead(o)
              && bytes[at] < 16
              && (bytes[at] % 2 == 1 <==> o.isSell)
              && (bytes[at] / 2 % 2 == 1 <==> o.isLimit)
              && (bytes[at] / 4 % 2 == 1 <==> o.isStop)
              && (bytes[at] / 8 % 2 == 1 <==> o.participateDontInitiate)
              && bytes[at + 1..] == (if o.isLimit then StopBit.Encode(o.picCount) else [])
                                    + (if o.isStop then StopBit.Encode(o.stopPicCount) else [])
  {
    hide StopBit.Encode, EncodeOrder, EncodeRequest, OrderHead, OptionalField, NewOrder.Flags, Header;
    HeaderThenBody(r);
    FlagBits(r.newOrder);
    TailIs(r.newOrder);
    if r.kind == 6 {
      OrderBytes(Header(r), r.newOrder);
    } else {
      assert Header(r) + [] == Header(r);
    }
  }

  lemma HeaderThenBody(r: Request)
    ensures EncodeRequest(r) == Header(r) + Body(r)
  {
    hide StopBit.Encode, Body;
    RequestPieces([], r);
    assert [] + EncodeRequest(r) == EncodeRequest(r);
    assert [] + StopBit.Encode(r.kind) == StopBit.Encode(r.kind);
  }

  lemma FlagBits(o: NewOrder)
    ensures o.Flags() < 16
    ensures (o.Flags() % 2 == 1 <==> o.isSell) && (o.Flags() / 2 % 2 == 1 <==> o.isLimit)
    ensures (o.Flags() / 4 % 2 == 1 <==> o.isStop) && (o.Flags() / 8 % 2 == 1 <==> o.participateDontInitiate)
  {
  }

  lemma TailIs(o: NewOrder)
    ensures OrderTail(o) == (if o.isLimit then StopBit.Encode(o.picCount) else [])
                            + (if o.isStop then StopBit.Encode(o.stopPicCount) else [])
  {
  }

  lemma OrderBytes(h: seq<byte>, o: NewOrder)
    ensures var bytes, at := h + EncodeOrder(o), |h| + |OrderHead(o)|;
            && at < |bytes| && bytes[..at] == h + OrderHead(o) && bytes[at] == o.Flags()
            && bytes[at + 1..] == OrderTail(o)
  {
    hide StopBit.Encode, NewOrder.Flags, OptionalField;
    var tail := [o.Flags()] + OrderTail(o);
    var l := StopBit.Encode(o.lotCount);
    ConcatAssoc(StopBit.Encode(o.instrumentId), [o.timeInForce], l + tail);
    ConcatAssoc(StopBit.Encode(o.instrumentId) + [o.timeInForce], l, tail);
    assert EncodeOrder(o) == OrderHead(o) + tail;
    ConcatAssoc(h, OrderHead(o), tail);
  }

  /** An order request read back carries its order; a request of any other type leaves the target's alone. */
  lemma OrdersAreCarried(r: Request, into: Request, rest: seq<byte>)
    requires r.Valid()
    ensures DecodeRequest(into, EncodeRequest(r) + rest)
         == Some((if r.kind == 6 then r.(newOrder := Received(r.newOrder, into.newOrder))
                                 else r.(newOrder := into.newOrder), rest))
  {
    RequestRoundTrip(r, into, rest);
  }

  lemma IntExtends(ty: StopBit.IntType, s: seq<byte>, x: seq<byte>)
    requires ty.Known() && BinaryCodec.DecodeInt(ty, s).Some?
    ensures var d := BinaryCodec.DecodeInt(ty, s).value;
            BinaryCodec.DecodeInt(ty, s + x) == Some((d.0, d.1 + x))
  {
    StopBit.DecodeExtends(s, x);
  }

  lemma OrderExtends(into: NewOrder, s: seq<byte>, x: seq<byte>)
    requires DecodeOrder(into, s).Some?
    ensures var d := DecodeOrder(into, s).value;
            DecodeOrder(into, s + x) == Some((d.0, d.1 + x))
  {
    hide BinaryCodec.DecodeInt;
    IntExtends(U32, s, x);
    var i := BinaryCodec.DecodeInt(U32, s).value;
    assert (i.1 + x)[1..] == i.1[1..] + x;
    IntExtends(U32, i.1[1..], x);
    var l := BinaryCodec.DecodeInt(U32, i.1[1..]).value;
    assert (l.1 + x)[1..] == l.1[1..] + x;
    if Flag(l.1[0], 1) {
      IntExtends(I32, l.1[1..], x);
    }
    var p := FieldIf(Flag(l.1[0], 1), I32, into.picCount, l.1[1..]).value;
    if Flag(l.1[0], 2) {
      IntExtends(I32, p.1, x);
    }
  }

  lemma RequestExtends(into: Request, s: seq<byte>, x: seq<byte>)
    requires DecodeRequest(into, s).Some?
    ensures var d := DecodeRequest(into, s).value;
            DecodeRequest(into, s + x) == Some((d.0, d.1 + x))
  {
    hide BinaryCodec.DecodeInt, DecodeOrder;
    var k := BinaryCodec.DecodeInt(U32, s).value;
    IntExtends(U32, s, x);
    var n := BinaryCodec.DecodeInt(U64, k.1).value;
    IntExtends(U64, k.1, x);
    var a := BinaryCodec.DecodeInt(U32, n.1).value;
    IntExtends(U32, n.1, x);
    var i := BinaryCodec.DecodeInt(U64, a.1).value;
    IntExtends(U64, a.1, x);
    if k.0 == NEW_ORDER {
      OrderExtends(into.newOrder, i.1, x);
    }
  }

  /** A request cut short anywhere is not read. */
  lemma TruncatedRequestIsRejected(r: Request, into: Request, k: nat)
    requires r.Valid() && k < |EncodeRequest(r)|
    ensures DecodeRequest(into, EncodeRequest(r)[..k]).None?
  {
    hide DecodeRequest, EncodeRequest;
    var s := EncodeRequest(r);
    if DecodeRequest(into, s[..k]).Some? {
      RequestExtends(into, s[..k], s[k..]);
      assert s[..k] + s[k..] == s == s + [];
      RequestRoundTrip(r, into, []);
      assert false;
    }
  }

  // ---- as a message for the framing and multicast layers ----

  const NO_ORDER := NewOrder(0, false, false, false, false, 0, 0, 0, 0)
  const BLANK := Request(0, 0, 0, 0, NO_ORDER)

  /** A request whose absent fields are blank: what a freshly zeroed target receives. */
  predicate Canonical(r: Request) {
    && r.Valid()
    && (r.kind != NEW_ORDER ==> r.newOrder == NO_ORDER)
    && (!r.newOrder.isLimit ==> r.newOrder.picCount == 0)
    && (!r.newOrder.isStop ==> r.newOrder.stopPicCount == 0)
  }

  type WireRequest = r: Request | Canonical(r) witness BLANK

  lemma WrapIsInRange(x: int)
    ensures U32.Known() && 0 <= U32.Wrap(x) < 0x1_0000_0000
    ensures U64.Known() && 0 <= U64.Wrap(x) < WORD
    ensures I32.Known() && -0x8000_0000 <= I32.Wrap(x) < 0x8000_0000
  {
    Ranges(x);
    Pow2Values();
    Pow2Adds(16, 16);
    Pow2Adds(8, 8);
    assert Pow2(32) == 2 * Pow2(31);
  }

  lemma DecodedOrderIsBlankWhereAbsent(s: seq<byte>)
    requires DecodeOrder(NO_ORDER, s).Some?
    ensures var o := DecodeOrder(NO_ORDER, s).value.0;
            && o.Valid() && (!o.isLimit ==> o.picCount == 0) && (!o.isStop ==> o.stopPicCount == 0)
  {
    var d := StopBit.Decode(s).value;
    WrapIsInRange(d.0);
    var l := StopBit.Decode(d.1[1..]).value;
    WrapIsInRange(l.0);
    var flags := l.1[0];
    var p := FieldIf(Flag(flags, 1), I32, 0, l.1[1..]).value;
    if Flag(flags, 1) {
      WrapIsInRange(StopBit.Decode(l.1[1..]).value.0);
    }
    if Flag(flags, 2) {
      WrapIsInRange(StopBit.Decode(p.1).value.0);
    }
  }

  lemma DecodedIsCanonical(s: seq<byte>)
    ensures DecodeRequest(BLANK, s).Some? ==> Canonical(DecodeRequest(BLANK, s).value.0)
  {
    if DecodeRequest(BLANK, s).None? {
      return;
    }
    var k := StopBit.Decode(s).value;
    var n := StopBit.Decode(k.1).value;
    var a := StopBit.Decode(n.1).value;
    var i := StopBit.Decode(a.1).value;
    WrapIsInRange(k.0);
    WrapIsInRange(n.0);
    WrapIsInRange(a.0);
    WrapIsInRange(i.0);
    if U32.Wrap(k.0) == NEW_ORDER {
      DecodedOrderIsBlankWhereAbsent(i.1);
    }
  }

  function DecodeWire(s: seq<byte>): Option<(WireRequest, seq<byte>)> {
    var d := DecodeRequest(BLANK, s);
    if d.None? then None
    else
      DecodedIsCanonical(s);
      Some((d.value.0, d.value.1))
  }

  function RequestCodec(): Framing.Codec<WireRequest> {
    Framing.Codec((r: WireRequest) => EncodeRequest(r), s => DecodeWire(s))
  }

  /** A request takes at most 48 bytes: its length prefix is a single byte. */
  lemma RequestIsShort(r: Request)
    requires r.Valid()
    ensures |EncodeRequest(r)| <= 48
  {
    NumberLength(U32, r.kind, 5);
    if r.kind == NEW_ORDER {
      StopBit.SmallNumber(r.kind);
    }
    NumberLength(U64, r.seqNo, 10);
    NumberLength(U32, r.accountId, 5);
    NumberLength(U64, r.reqId, 10);
    NumberLength(U32, r.newOrder.instrumentId, 5);
    NumberLength(U32, r.newOrder.lotCount, 5);
    NumberLength(I32, r.newOrder.picCount, 5);
    NumberLength(I32, r.newOrder.stopPicCount, 5);
  }

  lemma NumberLength(ty: StopBit.IntType, t: int, n: nat)
    requires (ty == U32 && 0 <= t < 0x1_0000_0000 && n == 5)
          || (ty == U64 && 0 <= t < WORD && n == 10)
          || (ty == I32 && -0x8000_0000 <= t < 0x8000_0000 && n == 5)
    ensures |StopBit.Encode(t)| <= n
  {
    Ranges(t);
    StopBit.WidthFits(ty, t, n - 1);
    StopBit.FitsBounds(t, n);
  }

  /** Requests meet every assumption the framing and datagram layers make about messages. */
  lemma RequestCodecIsLawful()
    ensures Framing.Lawful(RequestCodec())
  {
    var c := RequestCodec();
    forall m: WireRequest, rest: seq<byte>
      ensures c.dec(c.enc(m) + rest) == Some((m, rest))
    {
      RequestRoundTrip(m, BLANK, rest);
    }
    forall m: WireRequest
      ensures |c.enc(m)| < Framing.MAX_MESSAGE
    {
      RequestIsShort(m);
    }
  }

  /** Over a connection that carries requests, even the tcp form never closes on a split prefix. */
  lemma RequestsNeverCloseTcp(steps: seq<Framing.LinkStep<WireRequest>>, r: Framing.Link<WireRequest>)
    requires Framing.LinkReaches(RequestCodec(), Framing.NewLink(), steps, r)
    requires Framing.LinkEnabled(RequestCodec(), r, Framing.UnpackOrClose)
    ensures Framing.LinkNext(RequestCodec(), r, Framing.UnpackOrClose).open
  {
    RequestCodecIsLawful();
    forall m | m in r.sent
      ensures |RequestCodec().enc(m)| < 64
    {
      RequestIsShort(m);
    }
    Framing.ShortMessagesNeverClose(RequestCodec(), steps, r);
  }

  // ---- operator== on orders ----

  predicate SameBase(a: NewOrder, b: NewOrder) {
    && a.instrumentId == b.instrumentId && a.isSell == b.isSell && a.isLimit == b.isLimit && a.isStop == b.isStop
    && a.participateDontInitiate == b.participateDontInitiate
    && a.timeInForce == b.timeInForce && a.lotCount == b.lotCount
  }

  /** Equal on every field that is present. */
  predicate SameOrder(a: NewOrder, b: NewOrder) {
    && SameBase(a, b)
    && (a.isLimit ==> a.picCount == b.picCount)
    && (a.isStop ==> a.stopPicCount == b.stopPicCount)
  }

  /** What the source computes: "&&" binds tighter than "?:", so the conditionals nest. */
  predicate SourceEquals(a: NewOrder, b: NewOrder) {
    if SameBase(a, b) && a.isLimit then a.picCount == b.picCount
    else if a.isStop then a.stopPicCount == b.stopPicCount
    else true
  }

  /** Two orders that differ in their instrument compare equal. */
  lemma SourceEqualsIsWrong() returns (a: NewOrder, b: NewOrder)
    ensures SourceEquals(a, b) && !SameOrder(a, b) && a.instrumentId != b.instrumentId
  {
    a, b := NO_ORDER, NO_ORDER.(instrumentId := 1);
  }

  /**
    The comparison is right exactly when it does not fall into one of two traps: orders that differ
    in a base field but agree on the stop price or are no stop orders, and stop-limit orders
    that differ in the stop price alone.
   */
  lemma SourceEqualsIsRightWhen(a: NewOrder, b: NewOrder)
    ensures (SourceEquals(a, b) <==> SameOrder(a, b)) <==>
            if SameBase(a, b)
            then !(a.isLimit && a.isStop && a.picCount == b.picCount && a.stopPicCount != b.stopPicCount)
            else a.isStop && a.stopPicCount != b.stopPicCount
  {
  }

  // ---- the stream operators ----

  method PutOrder(w: Writer, o: NewOrder)
    requires w.Valid() && o.Valid()
    modifies w
    ensures w.Valid() && w.given == old(w.given) + EncodeOrder(o)
  {
    Ranges(o.instrumentId);
    Ranges(o.lotCount);
    Ranges(o.picCount);
    Ranges(o.stopPicCount);
    PutInt(w, U32, o.instrumentId);
    w.Put(o.timeInForce);
    PutInt(w, U32, o.lotCount);
    w.Put(o.Flags());
    PutOptional(w, o.isLimit, o.picCount);
    PutOptional(w, o.isStop, o.stopPicCount);
    OrderPieces(old(w.given), o);
  }

  method PutOptional(w: Writer, present: bool, x: int)
    requires w.Valid() && I32.Known() && I32.Holds(x)
    modifies w
    ensures w.Valid() && w.given == old(w.given) + OptionalField(present, x)
  {
    if present {
      PutInt(w, I32, x);
    } else {
      assert w.given + [] == w.given;
    }
  }

  lemma OrderPieces(s: seq<byte>, o: NewOrder)
    ensures s + EncodeOrder(o) ==
            ((((s + StopBit.Encode(o.instrumentId)) + [o.timeInForce]) + StopBit.Encode(o.lotCount)) + [o.Flags()])
            + OptionalField(o.isLimit, o.picCount) + OptionalField(o.isStop, o.stopPicCount)
  {
    hide StopBit.Encode, OptionalField, NewOrder.Flags;
    var i, l := StopBit.Encode(o.instrumentId), StopBit.Encode(o.lotCount);
    var t, f := [o.timeInForce], [o.Flags()];
    var p, q := OptionalField(o.isLimit, o.picCount), OptionalField(o.isStop, o.stopPicCount);
    ConcatAssoc(s, i, t + (l + (f + (p + q))));
    ConcatAssoc(s + i, t, l + (f + (p + q)));
    ConcatAssoc((s + i) + t, l, f + (p + q));
    ConcatAssoc(((s + i) + t) + l, f, p + q);
    ConcatAssoc((((s + i) + t) + l) + f, p, q);
  }

  method PutRequest(w: Writer, r: Request)
    requires w.Valid() && r.Valid()
    modifies w
    ensures w.Valid() && w.given == old(w.given) + EncodeRequest(r)
  {
    Ranges(r.kind);
    Ranges(r.seqNo);
    Ranges(r.accountId);
    Ranges(r.reqId);
    PutInt(w, U32, r.kind);
    PutInt(w, U64, r.seqNo);
    PutInt(w, U32, r.accountId);
    PutInt(w, U64, r.reqId);
    if r.kind == NEW_ORDER {
      PutOrder(w, r.newOrder);
    }
    RequestPieces(old(w.given), r);
  }

  lemma RequestPieces(s: seq<byte>, r: Request)
    ensures s + EncodeRequest(r) ==
            (((s + StopBit.Encode(r.kind)) + StopBit.Encode(r.seqNo)) + StopBit.Encode(r.accountId))
            + StopBit.Encode(r.reqId) + Body(r)
  {
    hide StopBit.Encode, Body;
    var k, n, a, i, b := StopBit.Encode(r.kind), StopBit.Encode(r.seqNo), StopBit.Encode(r.accountId),
                         StopBit.Encode(r.reqId), Body(r);
    ConcatAssoc(s, k, n + (a + (i + b)));
    ConcatAssoc(s + k, n, a + (i + b));
    ConcatAssoc((s + k) + n, a, i + b);
    ConcatAssoc(((s + k) + n) + a, i, b);
  }

  method GetOrder(r: Reader, into: NewOrder) returns (o: Option<NewOrder>)
    requires r.Valid()
    modifies r
    ensures r.Valid()
    ensures var d := DecodeOrder(into, old(r.Rest()));
            if d.None? then o == None else o == Some(d.value.0) && r.Rest() == d.value.1
  {
    Ranges(0);
    o := None;
    var i := GetInt(r, U32);
    if i.None? { return; }
    var t := r.Get();
    if t.None? { return; }
    var l := GetInt(r, U32);
    if l.None? { return; }
    var f := r.Get();
    if f.None? { return; }
    var p, q := into.picCount, into.stopPicCount;
    if Flag(f.value, 1) {
      var x := GetInt(r, I32);
      if x.None? { return; }
      p := x.value;
    }
    if Flag(f.value, 2) {
      var x := GetInt(r, I32);
      if x.None? { return; }
      q := x.value;
    }
    o := Some(NewOrder(i.value, Flag(f.value, 0), Flag(f.value, 1), Flag(f.value, 2), Flag(f.value, 3),
                       t.value, l.value, p, q));
  }

  method GetRequest(r: Reader, into: Request) returns (m: Option<Request>)
    requires r.Valid()
    modifies r
    ensures r.Valid()
    ensures var d := DecodeRequest(into, old(r.Rest()));
            if d.None? then m == None else m == Some(d.value.0) && r.Rest() == d.value.1
  {
    Ranges(0);
    m := None;
    var k := GetInt(r, U32);
    if k.None? { return; }
    var n := GetInt(r, U64);
    if n.None? { return; }
    var a := GetInt(r, U32);
    if a.None? { return; }
    var i := GetInt(r, U64);
    if i.None? { return; }
    var o := into.newOrder;
    if k.value == NEW_ORDER {
      var d := GetOrder(r, into.newOrder);
      if d.None? { return; }
      o := d.value;
    }
    m := Some(Request(k.value, n.value, a.value, i.value, o));
  }
}
