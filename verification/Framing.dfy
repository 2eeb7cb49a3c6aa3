/**
  Length-prefixed messages over a byte stream: what pack() appends to the outbox and what unpack()
  takes from the inbox, for a message type with any lawful codec.
 */
module Framing {
  import opened Words
  import StopBit

  /** How messages become bytes: what "serializer << msg" writes and "deserializer >> msg" reads. */
  datatype Codec<!M> = Codec(
    enc: M -> seq<byte>,
    dec: seq<byte> -> Option<(M, seq<byte>)>)

  /** Reading back what was written gives the message and leaves what follows; a message has a size_t size. */
  ghost predicate Lawful<M(!new)>(c: Codec<M>) {
    && (forall m, rest :: c.dec(c.enc(m) + rest) == Some((m, rest)))
    && (forall m :: |c.enc(m)| < MAX_MESSAGE)
  }

  const MAX_MESSAGE: nat := 0x8000_0000_0000_0000

  function Frame<M>(c: Codec<M>, m: M): (s: seq<byte>)
    ensures |s| >= 1
  {
    StopBit.Encode(|c.enc(m)|) + c.enc(m)
  }

  function Stream<M>(c: Codec<M>, ms: seq<M>): seq<byte> {
    if ms == [] then [] else Frame(c, ms[0]) + Stream(c, ms[1..])
  }

  lemma {:induction false} StreamConcat<M>(c: Codec<M>, a: seq<M>, b: seq<M>)
    ensures Stream(c, a + b) == Stream(c, a) + Stream(c, b)
    decreases |a|
  {
    if a == [] {
      assert a + b == b;
    } else {
      assert (a + b)[0] == a[0] && (a + b)[1..] == a[1..] + b;
      StreamConcat(c, a[1..], b);
      ConcatAssoc(Frame(c, a[0]), Stream(c, a[1..]), Stream(c, b));
    }
  }

  lemma StreamOne<M>(c: Codec<M>, m: M)
    ensures Stream(c, [m]) == Frame(c, m)
  {
    assert [m][1..] == [];
  }

  /** One attempt to take a message from the front of the inbox. */
  datatype Parsed<M> =
    | NoSize                       // the input ends inside the length prefix
    | Incomplete                   // it ends inside the message
    | BadMessage                   // the message does not decode
    | Parsed(m: M, total: nat)

  function ParseOne<M>(c: Codec<M>, input: seq<byte>): Parsed<M> {
    var d := StopBit.Decode(input);
    if d.None? then NoSize
    else
      StopBit.DecodeConsumes(input);
      var prefix := |input| - |d.value.1|;
      var msgSize := StopBit.SIZE_T.Wrap(d.value.0);
      if msgSize + prefix > |input| then Incomplete
      else
        var b := c.dec(d.value.1);
        if b.None? then BadMessage else Parsed(b.value.0, msgSize + prefix)
  }

  /** Input that starts with a whole frame yields its message and its length. */
  lemma ParsesFrame<M(!new)>(c: Codec<M>, m: M, rest: seq<byte>)
    requires Lawful(c)
    ensures ParseOne(c, Frame(c, m) + rest) == Parsed(m, |Frame(c, m)|)
  {
    var size := |c.enc(m)|;
    ConcatAssoc(StopBit.Encode(size), c.enc(m), rest);
    StopBit.SizeHolds(size);
    StopBit.MachineRoundTrip(StopBit.SIZE_T, size, c.enc(m) + rest);
    assert c.dec(c.enc(m) + rest) == Some((m, rest));
  }

  /** Input that is a proper part of a frame yields nothing, and which failure it is depends on the prefix alone. */
  lemma ParsesNothing<M(!new)>(c: Codec<M>, m: M, input: seq<byte>)
    requires Lawful(c) && |input| < |Frame(c, m)| && input == Frame(c, m)[..|input|]
    ensures if |input| < |StopBit.Encode(|c.enc(m)|)| then ParseOne(c, input) == NoSize
            else ParseOne(c, input) == Incomplete
  {
    var size := |c.enc(m)|;
    var prefix := StopBit.Encode(size);
    StopBit.StopOnlyAtEnd(size);
    if |input| < |prefix| {
      assert input == prefix[..|input|];
      StopBit.DecodeNeedsStop(input);
    } else {
      var body := input[|prefix|..];
      assert input == prefix + body;
      StopBit.SizeHolds(size);
      StopBit.MachineRoundTrip(StopBit.SIZE_T, size, body);
    }
  }

  /**
    The input is the beginning of a stream of frames: it yields the first message exactly when its
    frame is there completely, and never a wrong one.
   */
  lemma ParsePrefix<M(!new)>(c: Codec<M>, input: seq<byte>, ms: seq<M>)
    requires Lawful(c) && input <= Stream(c, ms)
    ensures ms == [] ==> ParseOne(c, input) == NoSize
    ensures ms != [] && |Frame(c, ms[0])| <= |input| ==>
              && ParseOne(c, input) == Parsed(ms[0], |Frame(c, ms[0])|)
              && input[|Frame(c, ms[0])|..] <= Stream(c, ms[1..])
    ensures ms != [] && |input| < |Frame(c, ms[0])| ==>
              && input == Frame(c, ms[0])[..|input|]
              && ParseOne(c, input) == if |input| < |StopBit.Encode(|c.enc(ms[0])|)| then NoSize else Incomplete
  {
    if ms != [] {
      var f, tail := Frame(c, ms[0]), Stream(c, ms[1..]);
      assert f + tail == Stream(c, ms);
      if |f| <= |input| {
        var rest := input[|f|..];
        assert input == f + rest && rest <= tail by {
          assert input[..|f|] == (f + tail)[..|f|] == f;
          assert rest == (f + tail)[|f|..|input|] == tail[..|input| - |f|];
        }
        ParsesFrame(c, ms[0], rest);
      } else {
        assert input == (f + tail)[..|input|] == f[..|input|];
        ParsesNothing(c, ms[0], input);
      }
    }
  }

  // ---- a connection, end to end ----

  /** A sender's queue and outbox, the network between, a receiver's inbox and message inbox. */
  datatype Link<M> = Link(
    sent: seq<M>,          // every message given to async_send
    packed: nat,           // how many of them pack() has taken
    outbox: seq<byte>,
    wire: seq<byte>,
    inbox: seq<byte>,
    unpacked: seq<M>,      // every message put into the receiver's message inbox
    taken: nat,            // how many of those the application has popped
    open: bool)

  const BYTES: nat := 65536     // 16 bits
  const MESSAGES: nat := 1024   // 10 bits

  datatype LinkStep<M> =
    | Send(m: M)
    | PackOne                 // one round of pack()'s loop
    | Transmit(k: nat)        // the kernel takes k bytes
    | Receive(k: nat)         // k bytes arrive: any chopping of the stream
    | UnpackOne               // one round of the loop of iou unpack()
    | UnpackOrClose           // one round of the loop of tcp unpack()
    | Take                    // the application pops a message

  ghost predicate LinkEnabled<M>(c: Codec<M>, s: Link<M>, step: LinkStep<M>) {
    match step
    case Send(_) => |s.sent| - s.packed < MESSAGES
    case PackOne => s.packed < |s.sent| && |s.outbox| + |Frame(c, s.sent[s.packed])| <= BYTES
    case Transmit(k) => k <= |s.outbox|
    case Receive(k) => s.open && k <= |s.wire| && |s.inbox| + k <= BYTES
    case UnpackOne => s.taken + MESSAGES != |s.unpacked|
    case UnpackOrClose => s.open && s.inbox != [] && s.taken + MESSAGES != |s.unpacked|
    case Take => s.taken < |s.unpacked|
  }

  function Accept<M>(s: Link<M>, p: Parsed<M>): Link<M> {
    if p.Parsed? && p.total <= |s.inbox|
    then s.(unpacked := s.unpacked + [p.m], inbox := s.inbox[p.total..])
    else s
  }

  ghost function LinkNext<M>(c: Codec<M>, s: Link<M>, step: LinkStep<M>): Link<M>
    requires LinkEnabled(c, s, step)
  {
    match step
    case Send(m) => s.(sent := s.sent + [m])
    case PackOne => s.(outbox := s.outbox + Frame(c, s.sent[s.packed]), packed := s.packed + 1)
    case Transmit(k) => s.(wire := s.wire + s.outbox[..k], outbox := s.outbox[k..])
    case Receive(k) => s.(inbox := s.inbox + s.wire[..k], wire := s.wire[k..])
    case UnpackOne => Accept(s, ParseOne(c, s.inbox))
    case UnpackOrClose =>
      var p := ParseOne(c, s.inbox);
      if p.NoSize? || p.BadMessage? then s.(open := false) else Accept(s, p)
    case Take => s.(taken := s.taken + 1)
  }

  /** What is unpacked, what is under way and what is queued make up exactly what was sent. */
  ghost predicate LinkInv<M>(c: Codec<M>, s: Link<M>) {
    && |s.unpacked| <= s.packed <= |s.sent|
    && s.unpacked == s.sent[..|s.unpacked|]
    && s.inbox + s.wire + s.outbox == Stream(c, s.sent[|s.unpacked|..s.packed])
    && s.taken <= |s.unpacked|
  }

  lemma InboxIsStreamPrefix<M>(c: Codec<M>, s: Link<M>)
    requires LinkInv(c, s)
    ensures s.inbox <= Stream(c, s.sent[|s.unpacked|..s.packed])
  {
    ConcatAssoc(s.inbox, s.wire, s.outbox);
  }

  lemma AcceptKeeps<M(!new)>(c: Codec<M>, s: Link<M>)
    requires Lawful(c) && LinkInv(c, s)
    ensures LinkInv(c, Accept(s, ParseOne(c, s.inbox)))
    ensures !ParseOne(c, s.inbox).BadMessage?
  {
    var ms := s.sent[|s.unpacked|..s.packed];
    InboxIsStreamPrefix(c, s);
    ParsePrefix(c, s.inbox, ms);
    if ms != [] && |Frame(c, ms[0])| <= |s.inbox| {
      var n := |Frame(c, ms[0])|;
      var t := Accept(s, ParseOne(c, s.inbox));
      SliceSnoc(s.sent, 0, |s.unpacked|);
      assert s.sent[0..|s.unpacked|] == s.unpacked;
      assert ms[1..] == s.sent[|t.unpacked|..s.packed];
      DropFrame(Frame(c, ms[0]), s.inbox, s.wire, s.outbox, Stream(c, ms[1..]));
    }
  }

  lemma DropFrame(f: seq<byte>, inbox: seq<byte>, wire: seq<byte>, outbox: seq<byte>, tail: seq<byte>)
    requires |f| <= |inbox| && inbox + wire + outbox == f + tail
    ensures inbox[|f|..] + wire + outbox == tail
  {
    assert inbox[|f|..] + wire + outbox == (inbox + wire + outbox)[|f|..];
    assert (f + tail)[|f|..] == tail;
  }

  lemma PackKeeps<M>(c: Codec<M>, s: Link<M>)
    requires LinkInv(c, s) && LinkEnabled(c, s, PackOne)
    ensures LinkInv(c, LinkNext(c, s, PackOne))
  {
    var m, u := s.sent[s.packed], |s.unpacked|;
    SliceSnoc(s.sent, u, s.packed);
    StreamConcat(c, s.sent[u..s.packed], [m]);
    StreamOne(c, m);
    ConcatAssoc(s.inbox + s.wire, s.outbox, Frame(c, m));
  }

  lemma MoveBytes(a: seq<byte>, b: seq<byte>, k: nat)
    requires k <= |b|
    ensures (a + b[..k]) + b[k..] == a + b
  {
  }

  lemma SliceOfLonger<M>(s: seq<M>, m: M, from: nat, to: nat)
    requires from <= to <= |s|
    ensures (s + [m])[from..to] == s[from..to]
  {
  }

  lemma LinkStepKeeps<M(!new)>(c: Codec<M>, s: Link<M>, step: LinkStep<M>)
    requires Lawful(c) && LinkInv(c, s) && LinkEnabled(c, s, step)
    ensures LinkInv(c, LinkNext(c, s, step))
  {
    match step
    case Send(m) => SliceOfLonger(s.sent, m, |s.unpacked|, s.packed);
    case PackOne => PackKeeps(c, s);
    case Transmit(k) =>
      ConcatAssoc(s.inbox, s.wire, s.outbox[..k]);
      MoveBytes(s.inbox + s.wire, s.outbox, k);
    case Receive(k) => MoveBytes(s.inbox, s.wire, k);
    case UnpackOne => AcceptKeeps(c, s);
    case UnpackOrClose => AcceptKeeps(c, s);
    case Take =>
  }

  ghost predicate LinkReaches<M>(c: Codec<M>, s: Link<M>, steps: seq<LinkStep<M>>, r: Link<M>)
    decreases |steps|
  {
    if steps == [] then r == s
    else LinkEnabled(c, s, steps[0]) && LinkReaches(c, LinkNext(c, s, steps[0]), steps[1..], r)
  }

  function NewLink<M>(): Link<M> {
    Link([], 0, [], [], [], [], 0, true)
  }

  lemma NewLinkInv<M>(c: Codec<M>)
    ensures LinkInv(c, NewLink())
  {
    assert NewLink<M>().sent[0..0] == [];
  }

  lemma {:induction false} LinkRunKeeps<M(!new)>(c: Codec<M>, s: Link<M>, steps: seq<LinkStep<M>>, r: Link<M>)
    requires Lawful(c) && LinkInv(c, s) && LinkReaches(c, s, steps, r)
    ensures LinkInv(c, r)
    decreases |steps|
  {
    if steps != [] {
      LinkStepKeeps(c, s, steps[0]);
      LinkRunKeeps(c, LinkNext(c, s, steps[0]), steps[1..], r);
    }
  }

  /** However the stream is chopped and the operations interleave, what is unpacked is a prefix of what was sent. */
  lemma UnpackedIsPrefixOfSent<M(!new)>(c: Codec<M>, steps: seq<LinkStep<M>>, r: Link<M>)
    requires Lawful(c) && LinkReaches(c, NewLink(), steps, r)
    ensures r.unpacked <= r.sent
  {
    NewLinkInv(c);
    LinkRunKeeps(c, NewLink(), steps, r);
  }

  /** A frame that has been received completely is delivered by the next round of unpack() that finds room. */
  lemma CompleteFrameIsDelivered<M(!new)>(c: Codec<M>, steps: seq<LinkStep<M>>, r: Link<M>)
    requires Lawful(c) && LinkReaches(c, NewLink(), steps, r)
    requires LinkEnabled(c, r, UnpackOne)
    ensures r.packed <= |r.sent|
    ensures var next := |r.unpacked|;
            LinkNext(c, r, UnpackOne).unpacked
            == if next < r.packed && |Frame(c, r.sent[next])| <= |r.inbox|
               then r.unpacked + [r.sent[next]]
               else r.unpacked
  {
    NewLinkInv(c);
    LinkRunKeeps(c, NewLink(), steps, r);
    InboxIsStreamPrefix(c, r);
    ParsePrefix(c, r.inbox, r.sent[|r.unpacked|..r.packed]);
  }

  /**
    The tcp form closes a connection on which nothing went wrong exactly when what is left of the
    inbox is non-empty and has no stop bit: a length prefix caught half way.
   */
  lemma TcpClosesExactly<M(!new)>(c: Codec<M>, steps: seq<LinkStep<M>>, r: Link<M>)
    requires Lawful(c) && LinkReaches(c, NewLink(), steps, r)
    requires LinkEnabled(c, r, UnpackOrClose)
    ensures !LinkNext(c, r, UnpackOrClose).open <==> !StopBit.HasStop(r.inbox)
  {
    NewLinkInv(c);
    LinkRunKeeps(c, NewLink(), steps, r);
    AcceptKeeps(c, r);
    StopBit.DecodeNeedsStop(r.inbox);
  }

  /** With messages of fewer than 64 bytes the prefix is one byte, and the tcp form never closes. */
  lemma ShortMessagesNeverClose<M(!new)>(c: Codec<M>, steps: seq<LinkStep<M>>, r: Link<M>)
    requires Lawful(c) && LinkReaches(c, NewLink(), steps, r)
    requires LinkEnabled(c, r, UnpackOrClose)
    requires forall m | m in r.sent :: |c.enc(m)| < 64
    ensures LinkNext(c, r, UnpackOrClose).open
  {
    hide ParseOne, LinkReaches, StopBit.Encode;
    NewLinkInv(c);
    LinkRunKeeps(c, NewLink(), steps, r);
    AcceptKeeps(c, r);
    InboxIsStreamPrefix(c, r);
    var ms := r.sent[|r.unpacked|..r.packed];
    ParsePrefix(c, r.inbox, ms);
    assert ms[0] in r.sent;
    StopBit.SmallNumber(|c.enc(ms[0])|);
  }

  /** The first byte of the frame of a longer message is part of its prefix, and has no stop bit. */
  lemma LongFrame<M>(c: Codec<M>, m: M)
    requires 64 <= |c.enc(m)|
    ensures |Frame(c, m)| > 1 && !StopBit.HasStop(Frame(c, m)[..1]) && ParseOne(c, Frame(c, m)[..1]) == NoSize
  {
    var size := |c.enc(m)|;
    StopBit.LongNumber(size);
    StopBit.StopOnlyAtEnd(size);
    assert Frame(c, m)[..1] == [StopBit.Encode(size)[0]];
    StopBit.DecodeNeedsStop(Frame(c, m)[..1]);
  }

  /**
    And only then: whatever the codec, a message of 64 bytes or more that fits the outbox can be cut
    after its first byte, with nothing lost, and the tcp form closes the connection where the iou
    form waits.
   */
  lemma LongMessageCanClose<M(!new)>(c: Codec<M>, m: M) returns (steps: seq<LinkStep<M>>, r: Link<M>)
    requires 64 <= |c.enc(m)| && |Frame(c, m)| <= 65536
    ensures LinkReaches(c, NewLink(), steps, r) && r.sent == [m]
    ensures LinkEnabled(c, r, UnpackOrClose) && !LinkNext(c, r, UnpackOrClose).open
    ensures LinkEnabled(c, r, UnpackOne) && LinkNext(c, r, UnpackOne) == r
  {
    hide Frame, Stream, ParseOne, LinkReaches;
    LongFrame(c, m);
    var f := Frame(c, m);
    var s0 := NewLink<M>();
    var s1 := LinkNext(c, s0, Send(m));
    var s2 := LinkNext(c, s1, PackOne);
    assert s2.outbox == f;
    var s3 := LinkNext(c, s2, Transmit(1));
    assert s3.wire == f[..1];
    r := LinkNext(c, s3, Receive(1));
    assert r.inbox == f[..1];
    steps := LinkNil(c, r);
    steps := LinkCons(c, s3, Receive(1), steps, r);
    steps := LinkCons(c, s2, Transmit(1), steps, r);
    steps := LinkCons(c, s1, PackOne, steps, r);
    steps := LinkCons(c, s0, Send(m), steps, r);
  }

  /**
    A message whose bytes have all arrived is delivered by the next round of either form that finds
    room; in particular the last ones, when nothing is under way any more.
   */
  lemma ArrivedIsDelivered<M(!new)>(c: Codec<M>, steps: seq<LinkStep<M>>, r: Link<M>)
    requires Lawful(c) && LinkReaches(c, NewLink(), steps, r)
    requires |r.unpacked| < r.packed == |r.sent| && r.outbox == r.wire == []
    requires r.open && r.taken + MESSAGES != |r.unpacked|
    ensures LinkEnabled(c, r, UnpackOne) && LinkEnabled(c, r, UnpackOrClose)
    ensures LinkNext(c, r, UnpackOne) == LinkNext(c, r, UnpackOrClose)
    ensures var t := LinkNext(c, r, UnpackOrClose);
            && t.unpacked == r.unpacked + [r.sent[|r.unpacked|]]
            && t.open && t.sent == r.sent && t.packed == r.packed && t.outbox == t.wire == []
  {
    NewLinkInv(c);
    LinkRunKeeps(c, NewLink(), steps, r);
    var ms := r.sent[|r.unpacked|..r.packed];
    assert r.inbox == Stream(c, ms) by {
      assert r.inbox + [] + [] == r.inbox;
    }
    assert Stream(c, ms) == Frame(c, ms[0]) + Stream(c, ms[1..]);
    ParsePrefix(c, r.inbox, ms);
  }

  /** A codec of 64-byte messages, whose length prefix takes two bytes. */
  function BlockCodec(): Codec<byte> {
    Codec((m: byte) => Block(m), (s: seq<byte>) => if |s| < 64 then None else Some((s[0], s[64..])))
  }

  function Block(m: byte): (s: seq<byte>)
    ensures |s| == 64 && s[0] == m
  {
    [m] + seq(63, _ => 0)
  }

  lemma BlockCodecIsLawful()
    ensures Lawful(BlockCodec())
  {
    forall m: byte, rest: seq<byte>
      ensures BlockCodec().dec(BlockCodec().enc(m) + rest) == Some((m, rest))
    {
      assert (Block(m) + rest)[64..] == rest;
    }
  }

  /** A single message of that size, one byte of it arrived. */
  lemma TcpClosesHealthyLink() returns (steps: seq<LinkStep<byte>>, r: Link<byte>)
    ensures Lawful(BlockCodec()) && LinkReaches(BlockCodec(), NewLink(), steps, r)
    ensures LinkEnabled(BlockCodec(), r, UnpackOrClose) && !LinkNext(BlockCodec(), r, UnpackOrClose).open
    ensures LinkEnabled(BlockCodec(), r, UnpackOne) && LinkNext(BlockCodec(), r, UnpackOne) == r
  {
    BlockCodecIsLawful();
    assert StopBit.Pow128(1) == 128;
    StopBit.FitsBounds(64, 2);
    steps, r := LongMessageCanClose(BlockCodec(), 7);
  }

  lemma LinkNil<M>(c: Codec<M>, r: Link<M>) returns (steps: seq<LinkStep<M>>)
    ensures steps == [] && LinkReaches(c, r, steps, r)
  {
    steps := [];
  }

  lemma LinkCons<M>(c: Codec<M>, s: Link<M>, step: LinkStep<M>, rest: seq<LinkStep<M>>, r: Link<M>)
    returns (steps: seq<LinkStep<M>>)
    ensures steps == [step] + rest
    ensures LinkEnabled(c, s, step) && LinkReaches(c, LinkNext(c, s, step), rest, r) ==> LinkReaches(c, s, steps, r)
  {
    steps := [step] + rest;
    assert steps[1..] == rest;
  }
}
