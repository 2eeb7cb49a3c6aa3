/**
  What travels over the replay connection as bytes: requests, and replies that carry a message or, by
  their status, a refusal.  Both are lawful messages for the framing layer, which therefore gives the
  replay protocol its queue of whole messages.
 */
module ReplayMessages {
  import opened Words
  import opened Messages
  import BinaryCodec
  import Framing
  import StopBit

  // ---- requests ----

  datatype RawRequest = RawRequest(reqId: int, begin: int, end: int) {
    predicate Valid() {
      -0x8000_0000 <= reqId < 0x8000_0000 && 0 <= begin < WORD && 0 <= end < WORD
    }
  }

  type ReplayRequest = r: RawRequest | r.Valid() witness RawRequest(0, 0, 0)

  function EncodeRequest(r: RawRequest): seq<byte> {
    StopBit.Encode(r.reqId) + (StopBit.Encode(r.begin) + StopBit.Encode(r.end))
  }

  function DecodeRequest(s: seq<byte>): Option<(ReplayRequest, seq<byte>)> {
    var i := BinaryCodec.DecodeInt(I32, s);
    if i.None? then None
    else
      var b := BinaryCodec.DecodeInt(U64, i.value.1);
      if b.None? then None
      else
        var e := BinaryCodec.DecodeInt(U64, b.value.1);
        if e.None? then None
        else
          WrapIsInRange(StopBit.Decode(s).value.0);
          WrapIsInRange(StopBit.Decode(i.value.1).value.0);
          WrapIsInRange(StopBit.Decode(b.value.1).value.0);
          Some((RawRequest(i.value.0, b.value.0, e.value.0), e.value.1))
  }

  lemma RequestRoundTrip(r: ReplayRequest, rest: seq<byte>)
    ensures DecodeRequest(EncodeRequest(r) + rest) == Some((r, rest))
  {
    Ranges(r.reqId);
    Ranges(r.begin);
    Ranges(r.end);
    var i, b, e := StopBit.Encode(r.reqId), StopBit.Encode(r.begin), StopBit.Encode(r.end);
    ConcatAssoc(i, b + e, rest);
    ConcatAssoc(b, e, rest);
    FieldRoundTrip(I32, r.reqId, b + (e + rest));
    FieldRoundTrip(U64, r.begin, e + rest);
    FieldRoundTrip(U64, r.end, rest);
  }

  // ---- replies ----

  /** The status says which fields are on the wire: a message at 0, two numbers otherwise. */
  datatype RawReply<M> =
    | RawPayload(reqId: int, payload: M)
    | RawRefusal(reqId: int, status: int, availableBegin: int, availableEnd: int)
  {
    predicate Valid() {
      && -0x8000_0000 <= reqId < 0x8000_0000
      && (RawRefusal? ==>
            && -0x8000_0000 <= status < 0x8000_0000 && status != 0
            && 0 <= availableBegin < WORD && 0 <= availableEnd < WORD)
    }
  }

  type ReplayReply<M> = r: RawReply<M> | r.Valid() witness RawRefusal(0, 1, 0, 0)

  function EncodeReply<M>(c: Framing.Codec<M>, r: RawReply<M>): seq<byte> {
    match r
    case RawPayload(id, m) => StopBit.Encode(id) + (StopBit.Encode(0) + c.enc(m))
    case RawRefusal(id, status, b, e) =>
      StopBit.Encode(id) + (StopBit.Encode(status) + (StopBit.Encode(b) + StopBit.Encode(e)))
  }

  function DecodeReply<M>(c: Framing.Codec<M>, s: seq<byte>): Option<(ReplayReply<M>, seq<byte>)> {
    var i := BinaryCodec.DecodeInt(I32, s);
    if i.None? then None
    else
      WrapIsInRange(StopBit.Decode(s).value.0);
      var t := BinaryCodec.DecodeInt(I32, i.value.1);
      if t.None? then None
      else if t.value.0 == 0 then
        var m := c.dec(t.value.1);
        if m.None? then None else Some((RawPayload(i.value.0, m.value.0), m.value.1))
      else
        var b := BinaryCodec.DecodeInt(U64, t.value.1);
        if b.None? then None
        else
          var e := BinaryCodec.DecodeInt(U64, b.value.1);
          if e.None? then None
          else
            WrapIsInRange(StopBit.Decode(i.value.1).value.0);
            WrapIsInRange(StopBit.Decode(t.value.1).value.0);
            WrapIsInRange(StopBit.Decode(b.value.1).value.0);
            Some((RawRefusal(i.value.0, t.value.0, b.value.0, e.value.0), e.value.1))
  }

  lemma PayloadRoundTrip<M(!new)>(c: Framing.Codec<M>, r: ReplayReply<M>, rest: seq<byte>)
    requires Framing.Lawful(c) && r.RawPayload?
    ensures DecodeReply(c, EncodeReply(c, r) + rest) == Some((r, rest))
  {
    Ranges(r.reqId);
    Ranges(0);
    var i, t, m := StopBit.Encode(r.reqId), StopBit.Encode(0), c.enc(r.payload);
    ConcatAssoc(i, t + m, rest);
    ConcatAssoc(t, m, rest);
    FieldRoundTrip(I32, r.reqId, t + (m + rest));
    FieldRoundTrip(I32, 0, m + rest);
    assert c.dec(m + rest) == Some((r.payload, rest));
  }

  lemma RefusalRoundTrip<M>(c: Framing.Codec<M>, r: ReplayReply<M>, rest: seq<byte>)
    requires r.RawRefusal?
    ensures DecodeReply(c, EncodeReply(c, r) + rest) == Some((r, rest))
  {
    Ranges(r.reqId);
    Ranges(r.status);
    Ranges(r.availableBegin);
    Ranges(r.availableEnd);
    var i, t := StopBit.Encode(r.reqId), StopBit.Encode(r.status);
    var b, e := StopBit.Encode(r.availableBegin), StopBit.Encode(r.availableEnd);
    ConcatAssoc(i, t + (b + e), rest);
    ConcatAssoc(t, b + e, rest);
    ConcatAssoc(b, e, rest);
    FieldRoundTrip(I32, r.reqId, t + (b + (e + rest)));
    FieldRoundTrip(I32, r.status, b + (e + rest));
    FieldRoundTrip(U64, r.availableBegin, e + rest);
    FieldRoundTrip(U64, r.availableEnd, rest);
  }

  // ---- the wire, number by number ----

  /** The next number in the bytes is t, and rest is behind it. */
  predicate Starts(s: seq<byte>, t: int, rest: seq<byte>) {
    StopBit.Decode(s) == Some((t, rest))
  }

  /** A request is its id, then begin, then end. */
  lemma RequestNumbers(r: ReplayRequest) returns (s1: seq<byte>, s2: seq<byte>)
    ensures Starts(EncodeRequest(r), r.reqId, s1) && Starts(s1, r.begin, s2) && Starts(s2, r.end, [])
  {
    s1, s2 := StopBit.Encode(r.begin) + StopBit.Encode(r.end), StopBit.Encode(r.end);
    StopBit.RoundTrip(r.reqId, s1);
    StopBit.RoundTrip(r.begin, s2);
    StopBit.RoundTrip(r.end, []);
    assert s2 + [] == s2;
  }

  /** A reply is its id, then its status, and behind a status of 0 the message, behind any other begin, then end. */
  lemma ReplyNumbers<M>(c: Framing.Codec<M>, r: ReplayReply<M>)
    returns (s1: seq<byte>, s2: seq<byte>, s3: seq<byte>)
    ensures r.RawPayload? ==> Starts(EncodeReply(c, r), r.reqId, s1) && Starts(s1, 0, c.enc(r.payload))
    ensures r.RawRefusal? ==>
              && Starts(EncodeReply(c, r), r.reqId, s1) && Starts(s1, r.status, s2) && r.status != 0
              && Starts(s2, r.availableBegin, s3) && Starts(s3, r.availableEnd, [])
  {
    if r.RawPayload? {
      s1, s2, s3 := StopBit.Encode(0) + c.enc(r.payload), [], [];
      StopBit.RoundTrip(0, c.enc(r.payload));
    } else {
      s3 := StopBit.Encode(r.availableEnd);
      s2 := StopBit.Encode(r.availableBegin) + s3;
      s1 := StopBit.Encode(r.status) + s2;
      StopBit.RoundTrip(r.status, s2);
      StopBit.RoundTrip(r.availableBegin, s3);
      StopBit.RoundTrip(r.availableEnd, []);
      assert s3 + [] == s3;
    }
    StopBit.RoundTrip(r.reqId, s1);
  }

  // ---- as messages of the framing layer ----

  function RequestCodec(): Framing.Codec<ReplayRequest> {
    Framing.Codec((r: ReplayRequest) => EncodeRequest(r), s => DecodeRequest(s))
  }

  function ReplyCodec<M>(c: Framing.Codec<M>): Framing.Codec<ReplayReply<M>> {
    Framing.Codec((r: ReplayReply<M>) => EncodeReply(c, r), s => DecodeReply(c, s))
  }

  lemma RequestSize(r: ReplayRequest)
    ensures |EncodeRequest(r)| <= 25
  {
    NumberLength(I32, r.reqId, 5);
    NumberLength(U64, r.begin, 10);
    NumberLength(U64, r.end, 10);
  }

  lemma ReplySize<M>(c: Framing.Codec<M>, r: ReplayReply<M>)
    ensures |EncodeReply(c, r)| <= if r.RawPayload? then 6 + |c.enc(r.payload)| else 30
  {
    NumberLength(I32, r.reqId, 5);
    StopBit.SmallNumber(0);
    if r.RawRefusal? {
      NumberLength(I32, r.status, 5);
      NumberLength(U64, r.availableBegin, 10);
      NumberLength(U64, r.availableEnd, 10);
    }
  }

  lemma RequestsAreLawful()
    ensures Framing.Lawful(RequestCodec())
  {
    forall r: ReplayRequest, rest: seq<byte>
      ensures RequestCodec().dec(RequestCodec().enc(r) + rest) == Some((r, rest))
    {
      RequestRoundTrip(r, rest);
    }
    forall r: ReplayRequest
      ensures |RequestCodec().enc(r)| < Framing.MAX_MESSAGE
    {
      RequestSize(r);
    }
  }

  /** If the multicast messages are lawful and fit a datagram, so are the replies that carry them. */
  lemma RepliesAreLawful<M(!new)>(c: Framing.Codec<M>)
    requires Framing.Lawful(c) && forall m :: |c.enc(m)| <= 1400
    ensures Framing.Lawful(ReplyCodec(c))
  {
    forall r: ReplayReply<M>, rest: seq<byte>
      ensures ReplyCodec(c).dec(ReplyCodec(c).enc(r) + rest) == Some((r, rest))
    {
      if r.RawPayload? {
        PayloadRoundTrip(c, r, rest);
      } else {
        RefusalRoundTrip(c, r, rest);
      }
    }
    forall r: ReplayReply<M>
      ensures |ReplyCodec(c).enc(r)| < Framing.MAX_MESSAGE
    {
      ReplySize(c, r);
    }
  }

  /** Everything sent has arrived, the connection is open, and there is room to unpack. */
  ghost predicate AllArrived<M>(r: Framing.Link<M>) {
    && |r.unpacked| < r.packed == |r.sent| && r.outbox == r.wire == []
    && r.open && r.taken + Framing.MESSAGES != |r.unpacked|
  }

  /**
    A replay connection is a reliable queue: however its bytes are chopped, the requests a server and
    the replies a client have unpacked are a prefix of those sent to them; once everything sent has
    arrived the next one is unpacked, and so on to the last; and requests, short as they are, never
    make the server close it.
   */
  lemma ReplayConnectionIsQueue<M(!new)>(c: Framing.Codec<M>,
                                         up: seq<Framing.LinkStep<ReplayRequest>>, asked: Framing.Link<ReplayRequest>,
                                         down: seq<Framing.LinkStep<ReplayReply<M>>>,
                                         answered: Framing.Link<ReplayReply<M>>)
    requires Framing.Lawful(c) && forall m :: |c.enc(m)| <= 1400
    requires Framing.LinkReaches(RequestCodec(), Framing.NewLink(), up, asked)
    requires Framing.LinkReaches(ReplyCodec(c), Framing.NewLink(), down, answered)
    ensures asked.unpacked <= asked.sent && answered.unpacked <= answered.sent
    ensures AllArrived(asked) ==>
              && Framing.LinkEnabled(RequestCodec(), asked, Framing.UnpackOrClose)
              && Framing.LinkNext(RequestCodec(), asked, Framing.UnpackOrClose).unpacked
                 == asked.unpacked + [asked.sent[|asked.unpacked|]]
    ensures AllArrived(answered) ==>
              && Framing.LinkEnabled(ReplyCodec(c), answered, Framing.UnpackOrClose)
              && Framing.LinkNext(ReplyCodec(c), answered, Framing.UnpackOrClose).unpacked
                 == answered.unpacked + [answered.sent[|answered.unpacked|]]
    ensures Framing.LinkEnabled(RequestCodec(), asked, Framing.UnpackOrClose) ==>
              Framing.LinkNext(RequestCodec(), asked, Framing.UnpackOrClose).open
  {
    RequestsAreLawful();
    RepliesAreLawful(c);
    Framing.UnpackedIsPrefixOfSent(RequestCodec(), up, asked);
    Framing.UnpackedIsPrefixOfSent(ReplyCodec(c), down, answered);
    if AllArrived(asked) {
      Framing.ArrivedIsDelivered(RequestCodec(), up, asked);
    }
    if AllArrived(answered) {
      Framing.ArrivedIsDelivered(ReplyCodec(c), down, answered);
    }
    if Framing.LinkEnabled(RequestCodec(), asked, Framing.UnpackOrClose) {
      forall r | r in asked.sent
        ensures |RequestCodec().enc(r)| < 64
      {
        RequestSize(r);
      }
      Framing.ShortMessagesNeverClose(RequestCodec(), up, asked);
    }
  }

  /** Messages of at most 57 bytes, such as the request message, never make the client close it either. */
  lemma ShortRepliesNeverClose<M(!new)>(c: Framing.Codec<M>,
                                        steps: seq<Framing.LinkStep<ReplayReply<M>>>, r: Framing.Link<ReplayReply<M>>)
    requires Framing.Lawful(c) && forall m :: |c.enc(m)| <= 57
    requires Framing.LinkReaches(ReplyCodec(c), Framing.NewLink(), steps, r)
    requires Framing.LinkEnabled(ReplyCodec(c), r, Framing.UnpackOrClose)
    ensures Framing.LinkNext(ReplyCodec(c), r, Framing.UnpackOrClose).open
  {
    RepliesAreLawful(c);
    forall reply | reply in r.sent
      ensures |ReplyCodec(c).enc(reply)| < 64
    {
      ReplySize(c, reply);
    }
    Framing.ShortMessagesNeverClose(ReplyCodec(c), steps, r);
  }

  /** A message of 62 bytes or more can: its reply may be cut inside the length prefix. */
  lemma LongReplyCanClose<M(!new)>(c: Framing.Codec<M>, reply: ReplayReply<M>)
    returns (steps: seq<Framing.LinkStep<ReplayReply<M>>>, r: Framing.Link<ReplayReply<M>>)
    requires reply.RawPayload? && 62 <= |c.enc(reply.payload)| <= 1400
    ensures Framing.LinkReaches(ReplyCodec(c), Framing.NewLink(), steps, r) && r.sent == [reply]
    ensures Framing.LinkEnabled(ReplyCodec(c), r, Framing.UnpackOrClose)
    ensures !Framing.LinkNext(ReplyCodec(c), r, Framing.UnpackOrClose).open
  {
    ReplySize(c, reply);
    NumberLength(U64, |EncodeReply(c, reply)|, 10);
    steps, r := Framing.LongMessageCanClose(ReplyCodec(c), reply);
  }

  lemma ReplayedRequestsNeverClose(steps: seq<Framing.LinkStep<ReplayReply<WireRequest>>>,
                                   r: Framing.Link<ReplayReply<WireRequest>>)
    requires Framing.LinkReaches(ReplyCodec(Messages.RequestCodec()), Framing.NewLink(), steps, r)
    requires Framing.LinkEnabled(ReplyCodec(Messages.RequestCodec()), r, Framing.UnpackOrClose)
    ensures Framing.LinkNext(ReplyCodec(Messages.RequestCodec()), r, Framing.UnpackOrClose).open
  {
    RequestCodecIsLawful();
    forall m: WireRequest
      ensures |Messages.RequestCodec().enc(m)| <= 57
    {
      RequestIsShort(m);
    }
    ShortRepliesNeverClose(Messages.RequestCodec(), steps, r);
  }
}
