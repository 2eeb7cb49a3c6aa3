/**
  Multicast datagrams as bytes: messages packed into a 1400-byte send buffer, and what a client
  reads back out of one.
 */
module Datagrams {
  import opened Words
  import opened Framing
  import StopBit

  const SEND_BUFFER: nat := 1400

  /** How many messages at the front of a queue fit the room left, each whole. */
  function Fitting<M>(c: Codec<M>, queue: seq<M>, room: int): (n: nat)
    ensures n <= |queue|
  {
    if queue == [] || room < |Frame(c, queue[0])| then 0
    else 1 + Fitting(c, queue[1..], room - |Frame(c, queue[0])|)
  }

  lemma {:induction false} FittingFits<M>(c: Codec<M>, queue: seq<M>, room: int)
    ensures var n := Fitting(c, queue, room);
            && (n > 0 ==> |Stream(c, queue[..n])| <= room)
            && (n < |queue| ==> |Stream(c, queue[..n])| + |Frame(c, queue[n])| > room)
    decreases |queue|
  {
    var n := Fitting(c, queue, room);
    if n == 0 {
      assert queue[..0] == [];
    } else {
      FittingFits(c, queue[1..], room - |Frame(c, queue[0])|);
      assert queue[..n][1..] == queue[1..][..n - 1];
      if n == 1 {
        assert queue[1..][..0] == [];
      }
    }
  }

  // ---- the sending side over any run ----

  datatype Caster<M> = Caster(
    sent: seq<M>,             // every message given to async_send
    queue: seq<M>,            // outbox_msg
    buffer: seq<byte>,        // send_buffer[..send_size]
    aired: seq<seq<byte>>)    // every datagram sendto took

  datatype CastStep<M> = Post(m: M) | PackBuffer | WriteTaken | WriteRefused

  function CastNext<M>(c: Codec<M>, s: Caster<M>, step: CastStep<M>): Caster<M> {
    match step
    case Post(m) => s.(sent := s.sent + [m], queue := s.queue + [m])
    case PackBuffer =>
      if s.buffer != [] then s
      else
        var n := Fitting(c, s.queue, SEND_BUFFER);
        s.(buffer := Stream(c, s.queue[..n]), queue := s.queue[n..])
    case WriteTaken => if s.buffer == [] then s else s.(aired := s.aired + [s.buffer], buffer := [])
    case WriteRefused => s
  }

  function CastRun<M>(c: Codec<M>, s: Caster<M>, steps: seq<CastStep<M>>): Caster<M>
    decreases |steps|
  {
    if steps == [] then s else CastRun(c, CastNext(c, s, steps[0]), steps[1..])
  }

  function Flatten<M>(runs: seq<seq<M>>): seq<M> {
    if runs == [] then [] else Flatten(runs[..|runs| - 1]) + runs[|runs| - 1]
  }

  /** The datagrams carry these runs of messages, and the buffer this one. */
  ghost predicate Carries<M>(c: Codec<M>, s: Caster<M>, runs: seq<seq<M>>, pending: seq<M>) {
    && |runs| == |s.aired|
    && (forall d | 0 <= d < |runs| ::
          runs[d] != [] && s.aired[d] == Stream(c, runs[d]) && |s.aired[d]| <= SEND_BUFFER)
    && s.buffer == Stream(c, pending) && |s.buffer| <= SEND_BUFFER
    && Flatten(runs) + pending + s.queue == s.sent
  }

  lemma StreamEmpty<M>(c: Codec<M>, ms: seq<M>)
    ensures Stream(c, ms) == [] <==> ms == []
  {
  }

  lemma CastStepKeeps<M>(c: Codec<M>, s: Caster<M>, step: CastStep<M>, runs: seq<seq<M>>, pending: seq<M>)
    returns (runs': seq<seq<M>>, pending': seq<M>)
    requires Carries(c, s, runs, pending)
    ensures Carries(c, CastNext(c, s, step), runs', pending')
  {
    runs', pending' := runs, pending;
    StreamEmpty(c, pending);
    match step
    case Post(m) =>
      ConcatAssoc(Flatten(runs) + pending, s.queue, [m]);
    case PackBuffer =>
      if s.buffer == [] {
        var n := Fitting(c, s.queue, SEND_BUFFER);
        FittingFits(c, s.queue, SEND_BUFFER);
        pending' := s.queue[..n];
        assert s.queue == s.queue[..n] + s.queue[n..];
        assert Flatten(runs) + [] == Flatten(runs);
        ConcatAssoc(Flatten(runs), s.queue[..n], s.queue[n..]);
      }
    case WriteTaken =>
      if s.buffer != [] {
        runs', pending' := runs + [pending], [];
        assert runs'[..|runs|] == runs;
        assert Flatten(runs') == Flatten(runs) + pending;
        assert Flatten(runs') + [] == Flatten(runs');
      }
    case WriteRefused =>
  }

  lemma {:induction false} CastRunKeeps<M>(c: Codec<M>, s: Caster<M>, steps: seq<CastStep<M>>,
                                           runs: seq<seq<M>>, pending: seq<M>)
    returns (runs': seq<seq<M>>, pending': seq<M>)
    requires Carries(c, s, runs, pending)
    ensures Carries(c, CastRun(c, s, steps), runs', pending')
    decreases |steps|
  {
    if steps == [] {
      runs', pending' := runs, pending;
    } else {
      runs', pending' := CastStepKeeps(c, s, steps[0], runs, pending);
      runs', pending' := CastRunKeeps(c, CastNext(c, s, steps[0]), steps[1..], runs', pending');
    }
  }

  /**
    After any sequence of posts, packs and writes: each datagram is at most 1400 bytes and carries a
    non-empty run of messages, and those runs, what is buffered and what is queued make up, in order,
    exactly what was posted.
   */
  lemma DatagramsCarryEverything<M>(c: Codec<M>, steps: seq<CastStep<M>>)
    returns (runs: seq<seq<M>>, pending: seq<M>)
    ensures var r := CastRun(c, Caster([], [], [], []), steps);
            && |runs| == |r.aired|
            && (forall d | 0 <= d < |runs| ::
                  runs[d] != [] && r.aired[d] == Stream(c, runs[d]) && |r.aired[d]| <= 1400)
            && r.buffer == Stream(c, pending) && |r.buffer| <= 1400
            && Flatten(runs) + pending + r.queue == r.sent
  {
    runs, pending := CastRunKeeps(c, Caster([], [], [], []), steps, [], []);
  }

  /**
    With an empty buffer and a message waiting, pack() makes progress exactly when the first frame fits
    a buffer; and it stops only when no message is left or the next frame does not fit any more.
   */
  lemma PackProgress<M>(c: Codec<M>, s: Caster<M>)
    requires s.buffer == [] && s.queue != []
    ensures var t := CastNext(c, s, PackBuffer);
            && (t.buffer != [] <==> |Frame(c, s.queue[0])| <= 1400)
            && (t.queue == [] || |t.buffer| + |Frame(c, t.queue[0])| > 1400)
  {
    FittingFits(c, s.queue, SEND_BUFFER);
    StreamEmpty(c, s.queue[..Fitting(c, s.queue, SEND_BUFFER)]);
  }

  /** A first message that does not fit is never sent, and nothing queued after it is either. */
  lemma {:induction false} OversizedBlocks<M>(c: Codec<M>, s: Caster<M>, steps: seq<CastStep<M>>)
    requires s.buffer == [] && s.queue != [] && |Frame(c, s.queue[0])| > 1400
    ensures CastRun(c, s, steps).aired == s.aired && s.queue <= CastRun(c, s, steps).queue
    decreases |steps|
  {
    if steps != [] {
      var t := CastNext(c, s, steps[0]);
      assert t.queue == s.queue || (steps[0].Post? && t.queue == s.queue + [steps[0].m]);
      OversizedBlocks(c, t, steps[1..]);
    }
  }

  // ---- the sending object ----

  /** Part-way through pack(): n messages are in the buffer, and as many more will go in as still fit. */
  ghost predicate Packing<M>(c: Codec<M>, queue: seq<M>, n: nat, buffered: seq<byte>, outbox: seq<M>) {
    && n <= |queue| && outbox == queue[n..]
    && buffered == Stream(c, queue[..n])
    && Fitting(c, queue, SEND_BUFFER) == n + Fitting(c, outbox, SEND_BUFFER - |buffered|)
  }

  lemma PackingStep<M>(c: Codec<M>, queue: seq<M>, n: nat, buffered: seq<byte>, outbox: seq<M>)
    requires Packing(c, queue, n, buffered, outbox)
    requires outbox != [] && |Frame(c, outbox[0])| <= SEND_BUFFER - |buffered|
    ensures Packing(c, queue, n + 1, buffered + Frame(c, outbox[0]), outbox[1..])
  {
    StreamConcat(c, queue[..n], [outbox[0]]);
    StreamOne(c, outbox[0]);
    assert queue[..n + 1] == queue[..n] + [outbox[0]];
  }

  lemma PackingDone<M>(c: Codec<M>, queue: seq<M>, n: nat, buffered: seq<byte>, outbox: seq<M>)
    requires Packing(c, queue, n, buffered, outbox)
    requires outbox == [] || |Frame(c, outbox[0])| > SEND_BUFFER - |buffered|
    ensures buffered == Stream(c, queue[..Fitting(c, queue, SEND_BUFFER)])
    ensures outbox == queue[Fitting(c, queue, SEND_BUFFER)..]
  {
  }

  class MulticastServer<M> {
    const codec: Codec<M>
    const sendBuffer: array<byte>
    var sendSize: nat
    var outboxMsg: seq<M>

    ghost predicate Valid()
      reads this
    {
      sendBuffer.Length == SEND_BUFFER && sendSize <= SEND_BUFFER
    }

    ghost function Buffered(): seq<byte>
      requires Valid()
      reads this, sendBuffer
    {
      sendBuffer[..sendSize]
    }

    constructor (c: Codec<M>)
      ensures Valid() && fresh(sendBuffer) && codec == c && Buffered() == [] && outboxMsg == []
    {
      codec := c;
      sendBuffer := new byte[SEND_BUFFER];
      sendSize := 0;
      outboxMsg := [];
    }

    method AsyncSend(m: M)
      requires Valid()
      modifies this`outboxMsg
      ensures Valid() && outboxMsg == old(outboxMsg) + [m]
    {
      outboxMsg := outboxMsg + [m];
    }

    /** ptr_writer into the free end of the buffer. */
    method Put(bytes: seq<byte>)
      requires Valid() && sendSize + |bytes| <= SEND_BUFFER
      modifies sendBuffer, this`sendSize
      ensures Valid() && Buffered() == old(Buffered()) + bytes
    {
      ghost var before := Buffered();
      var i := 0;
      while i < |bytes|
        invariant i <= |bytes| && sendSize == old(sendSize)
        invariant sendBuffer[..sendSize + i] == before + bytes[..i]
      {
        sendBuffer[sendSize + i] := bytes[i];
        assert sendBuffer[..sendSize + i] == before + bytes[..i];
        assert sendBuffer[..sendSize + i + 1] == sendBuffer[..sendSize + i] + [bytes[i]];
        i := i + 1;
      }
      sendSize := sendSize + |bytes|;
      assert bytes[..i] == bytes;
    }

    /** One turn of the loop: the next message goes into the buffer if all of its frame fits. */
    method PackNext() returns (fits: bool)
      requires Valid() && outboxMsg != [] && |codec.enc(outboxMsg[0])| < MAX_MESSAGE
      modifies this`sendSize, this`outboxMsg, sendBuffer
      ensures Valid() && fits == (|old(Buffered())| + |Frame(codec, old(outboxMsg[0]))| <= 1400)
      ensures outboxMsg == if fits then old(outboxMsg)[1..] else old(outboxMsg)
      ensures Buffered() == old(Buffered()) + if fits then Frame(codec, old(outboxMsg[0])) else []
    {
      var buf := new byte[StopBit.BUFFER];
      var body := codec.enc(outboxMsg[0]);
      StopBit.SizeHolds(|body|);
      var k := StopBit.Serialize(StopBit.SIZE_T, |body|, buf);
      ghost var frame := Frame(codec, outboxMsg[0]);
      assert buf[..k] + body == frame;
      fits := SEND_BUFFER - sendSize >= |body| + k;
      if fits {
        Put(buf[..k] + body);
        outboxMsg := outboxMsg[1..];
      } else {
        assert Buffered() + [] == Buffered();
      }
    }

    /** pack(): nothing while the buffer is in use; otherwise whole messages, as many as fit. */
    method Pack() returns (ghost n: nat)
      requires Valid() && forall m | m in outboxMsg :: |codec.enc(m)| < MAX_MESSAGE
      modifies this`sendSize, this`outboxMsg, sendBuffer
      ensures Valid()
      ensures var s := old(Caster([], outboxMsg, Buffered(), []));
              Buffered() == CastNext(codec, s, PackBuffer).buffer
              && outboxMsg == CastNext(codec, s, PackBuffer).queue
      ensures n <= |old(outboxMsg)| && outboxMsg == old(outboxMsg)[n..]
      ensures old(Buffered()) != [] ==> n == 0 && Buffered() == old(Buffered())
      ensures old(Buffered()) == [] ==>
                && Buffered() == Stream(codec, old(outboxMsg)[..n])
                && (outboxMsg == [] || |Buffered()| + |Frame(codec, outboxMsg[0])| > 1400)
    {
      n := 0;
      if sendSize != 0 {
        return;
      }
      ghost var queue := outboxMsg;
      assert queue[..0] == [] && queue[0..] == queue;
      assert Packing(codec, queue, n, Buffered(), outboxMsg);
      hide Packing, Fitting, Frame, Stream;
      while outboxMsg != []
        invariant Valid() && Packing(codec, queue, n, Buffered(), outboxMsg)
        invariant forall m | m in outboxMsg :: |codec.enc(m)| < MAX_MESSAGE
        decreases |outboxMsg|
      {
        ghost var buffered, outbox := Buffered(), outboxMsg;
        var fits := PackNext();
        if !fits {
          break;
        }
        PackingStep(codec, queue, n, buffered, outbox);
        n := n + 1;
      }
      PackingDone(codec, queue, n, Buffered(), outboxMsg);
    }

    /** write(): sendto either takes the whole buffer or, for now, nothing. */
    method Write(taken: bool) returns (datagram: Option<seq<byte>>)
      requires Valid()
      modifies this`sendSize
      ensures Valid()
      ensures if old(Buffered()) != [] && taken
              then datagram == Some(old(Buffered())) && Buffered() == []
              else datagram == None && Buffered() == old(Buffered())
    {
      if sendSize == 0 || !taken {
        return None;
      }
      datagram := Some(sendBuffer[..sendSize]);
      sendSize := 0;
    }
  }

  // ---- the receiving side ----

  /** A received datagram: its bytes, and the end points of its run once they have been looked up. */
  class FrameData<M(!new)> {
    const codec: Codec<M>
    const seqOf: M -> nat
    var data: seq<byte>
    var firstSeq: Option<nat>
    var lastSeq: Option<nat>
    ghost var run: seq<M>

    ghost predicate Valid()
      reads this
    {
      && Lawful(codec) && run != [] && data == Stream(codec, run)
      && (firstSeq.Some? ==> firstSeq.value == seqOf(run[0]))
      && (lastSeq.Some? ==> lastSeq.value == seqOf(run[|run| - 1]))
    }

    constructor (c: Codec<M>, s: M -> nat, bytes: seq<byte>, ghost ms: seq<M>)
      requires Lawful(c) && ms != [] && bytes == Stream(c, ms)
      ensures Valid() && run == ms && codec == c && seqOf == s && data == bytes
    {
      codec, seqOf, data, run := c, s, bytes, ms;
      firstSeq, lastSeq := None, None;
    }

    method GetFirstSeq() returns (r: nat)
      requires Valid()
      modifies this`firstSeq
      ensures Valid() && r == seqOf(run[0])
    {
      if firstSeq.Some? {
        return firstSeq.value;
      }
      var p := ParseOne(codec, data);
      ParsesFrame(codec, run[0], Stream(codec, run[1..]));
      firstSeq := Some(seqOf(p.m));
      r := firstSeq.value;
    }

    /** Skip from prefix to prefix, remembering the last one; then read the message there. */
    method GetLastSeq() returns (r: nat)
      requires Valid()
      modifies this`lastSeq
      ensures Valid() && r == seqOf(run[|run| - 1])
    {
      if lastSeq.Some? {
        return lastSeq.value;
      }
      var at, checkpoint := 0, 0;
      ghost var k := 0;
      assert run[0..] == run;
      while at < |data|
        invariant 0 <= checkpoint <= at <= |data| && k <= |run|
        invariant data[at..] == Stream(codec, run[k..])
        invariant k > 0 ==> data[checkpoint..] == Stream(codec, run[k - 1..])
        invariant at > 0 ==> k > 0
        decreases |data| - at
      {
        checkpoint := at;
        ghost var here := data[at..];
        StreamEmpty(codec, run[k..]);
        assert run[k..][1..] == run[k + 1..];
        ghost var size, tail := |codec.enc(run[k])|, Stream(codec, run[k + 1..]);
        FrameParts(codec, run[k], tail);
        var d := StopBit.Decode(data[at..]);
        var prefix := |data[at..]| - |d.value.1|;
        var msgSize := StopBit.SIZE_T.Wrap(d.value.0);
        at := at + prefix + msgSize;
        assert data[at..] == here[prefix + msgSize..] == tail;
        k := k + 1;
      }
      StreamEmpty(codec, run[k..]);
      assert k == |run| && run[k - 1..] == [run[k - 1]];
      StreamOne(codec, run[k - 1]);
      ParsesFrame(codec, run[k - 1], []);
      assert Frame(codec, run[k - 1]) + [] == Frame(codec, run[k - 1]);
      var p := ParseOne(codec, data[checkpoint..]);
      lastSeq := Some(seqOf(p.m));
      r := lastSeq.value;
    }

    /** The copying loop of the client's unpack(): count messages, each behind its prefix. */
    method Messages(count: nat) returns (ms: seq<M>)
      requires Valid() && count <= |run|
      ensures ms == run[..count]
    {
      ms := [];
      var at, i := 0, 0;
      assert run[0..] == run;
      while i < count
        invariant i <= count && ms == run[..i]
        invariant at <= |data| && data[at..] == Stream(codec, run[i..])
      {
        ghost var here := data[at..];
        assert run[i..][1..] == run[i + 1..];
        ParsesFrame(codec, run[i], Stream(codec, run[i + 1..]));
        var p := ParseOne(codec, data[at..]);
        ms := ms + [p.m];
        at := at + p.total;
        assert data[at..] == here[p.total..];
        i := i + 1;
      }
    }
  }

  /** The prefix of a frame followed by anything: its size and what lies behind it. */
  lemma FrameParts<M(!new)>(c: Codec<M>, m: M, tail: seq<byte>)
    requires Lawful(c)
    ensures var input := Frame(c, m) + tail; var d := StopBit.Decode(input);
            && StopBit.SIZE_T.Known() && d.Some? && |d.value.1| <= |input|
            && StopBit.SIZE_T.Wrap(d.value.0) == |c.enc(m)|
            && |input| - |d.value.1| + |c.enc(m)| == |Frame(c, m)|
            && input[|Frame(c, m)|..] == tail
  {
    var size := |c.enc(m)|;
    ConcatAssoc(StopBit.Encode(size), c.enc(m), tail);
    StopBit.SizeHolds(size);
    StopBit.MachineRoundTrip(StopBit.SIZE_T, size, c.enc(m) + tail);
  }
}
