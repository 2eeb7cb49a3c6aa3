/** The message peer: ring buffers of bytes, queues of messages, and the loops between them. */
module MsgPeers {
  import opened Words
  import opened RingBuffers
  import opened Framing
  import opened StretchRaces
  import opened WriteLoops
  import StopBit

  /** deserialize<T> from a reader at the front of its input; None when the input ends before the stop bit. */
  method ReadInteger(ty: StopBit.IntType, reader: RingReader<byte>) returns (r: Option<int>)
    requires ty.Known()
    requires reader.Valid() && reader.readCount == 0 && reader.max == reader.base.Size()
    modifies reader
    ensures reader.Valid()
    ensures var d := StopBit.Decode(reader.base.Contents());
            if d.None? then r.None?
            else r == Some(ty.Wrap(d.value.0))
                 && reader.readCount <= reader.base.Size()
                 && d.value.1 == reader.base.Contents()[reader.readCount..]
  {
    hide Ring.At, Ring.SlotOf, Ring.Contents, RingBuffers.Read, StopBit.NoStop, StopBit.Scan, StopBit.HasStop;
    ghost var input := reader.base.Contents();
    StopBit.NoStopYet(input);
    var v := reader.Get();
    if v.None? {
      return None;
    }
    var result := ty.SignFill(v.value);
    ghost var n := 0;
    while v.value < 128
      invariant reader.Valid() && reader.readCount == n + 1 <= |input|
      invariant v == Some(input[n]) && StopBit.NoStop(input, n)
      invariant result == StopBit.Machine(ty, input, n)
      decreases |input| - n
    {
      StopBit.NoStopSnoc(input, n);
      result := ty.Shift(result, v.value);
      v := reader.Get();
      if v.None? {
        return None;
      }
      n := n + 1;
    }
    StopBit.MachineReads(ty, input, n);
    r := Some(ty.Shift(result, v.value));
  }

  /**
    How async_write() ended: with everything written; because the descriptor was closed, the outbox
    having been full when it was last looked at, with m bytes taken since; or on a back_stretch()
    whose length underflowed, the outbox as it was at the first read of front_, with j bytes taken
    before the second read and k before the third.
   */
  datatype Stop =
    | Done
    | Closed(ring: Ring<byte>, m: nat)
    | Underflowed(ring: Ring<byte>, j: nat, k: nat)

  class MsgPeer<M(!new)> {
    const codec: Codec<M>
    const outbox: RingBuffer<byte>
    const inbox: RingBuffer<byte>
    var outboxMsg: seq<M>
    var inboxMsg: seq<M>
    var open: bool
    /** The ring's thread, somewhere in write_loop(). */
    var writer: Writer
    /** All the writes the kernel has completed. */
    ghost var sends: seq<Transfer<byte>>

    ghost predicate Valid()
      reads this, outbox, outbox.data, inbox, inbox.data
    {
      && outbox != inbox && outbox.data != inbox.data
      && outbox.Valid() && inbox.Valid()
      && |outboxMsg| <= MESSAGES && |inboxMsg| <= MESSAGES
      && Holds(outbox.State(), writer)
      && AllValid(sends) && outbox.front_ == |Gone(sends)| % WORD
    }

    constructor (c: Codec<M>)
      ensures Valid() && fresh(outbox) && fresh(inbox) && fresh(outbox.data) && fresh(inbox.data)
      ensures codec == c && open
      ensures outbox.Contents() == [] && inbox.Contents() == [] && outboxMsg == [] && inboxMsg == []
      ensures outbox.bits == inbox.bits == 16 && writer == Idle && sends == []
    {
      codec := c;
      outbox := new RingBuffer<byte>(16);
      inbox := new RingBuffer<byte>(16);
      outboxMsg, inboxMsg, open, writer, sends := [], [], true, Idle, [];
    }

    method AsyncSend(m: M)
      requires Valid() && |outboxMsg| < MESSAGES
      modifies this`outboxMsg
      ensures Valid() && outboxMsg == old(outboxMsg) + [m]
    {
      outboxMsg := outboxMsg + [m];
    }

    /** The kernel stores arriving bytes in the two back stretches, then rcvd(count) publishes them. */
    method Rcvd(bytes: seq<byte>)
      requires Valid() && |bytes| <= inbox.FreeSize()
      modifies inbox.data, inbox`back_
      ensures Valid() && inbox.Contents() == old(inbox.Contents()) + bytes
      ensures outbox.Contents() == old(outbox.Contents())
    {
      Append(inbox, bytes, |bytes|);
    }

    /** sent(count): the kernel has taken count bytes of what it was handed. */
    method Sent(count: nat)
      requires Valid() && writer.Submitted? && !Overruns(outbox.State(), writer.s1)
      requires count <= writer.s1.len + writer.s2.len
      modifies this`writer, this`sends, outbox`front_
      ensures Valid() && writer == Idle && Taken(old(outbox.State()), old(sends), outbox.State(), sends, count)
      ensures sends == old(sends) + [Transfer(old(outbox.State()), old(writer).s1, old(writer).s2, count)]
    {
      hide Ring.At, Ring.SlotOf, Ring.Contents;
      ghost var send := Transfer(outbox.State(), writer.s1, writer.s2, count);
      SlotsInside(send);
      GoneSnoc(sends, send);
      CounterSteps(|Gone(sends)|, count);
      outbox.State().CapacityBounds();
      outbox.AdvanceFront(count);
      sends := sends + [send];
      writer := Idle;
    }

    /** The next read of back_ in write_loop(); neither call can find the outbox empty. */
    method ReadOn()
      requires Valid()
      modifies this`writer
      ensures Valid() && writer == ReadBack(outbox.State(), old(writer))
    {
      ReadKeeps(outbox.State(), writer);
      hide Ring.SlotOf;
      var b, f := outbox.Slot(outbox.back_), outbox.Slot(outbox.front_);
      match writer
      case Idle =>
        if !outbox.Empty() {
          writer := Started;
        }
      case Started =>
        assert !outbox.Empty();
        writer := First;
      case First => writer := if b > f then Ahead else Held(Stretch(f, outbox.capacity - f));
      case Ahead => writer := Held(Stretch(f, outbox.Size()));
      case Held(s1) =>
        assert !outbox.Empty();
        writer := Second(s1);
      case Second(s1) => writer := if b > f then Submitted(s1, Stretch(b, 0)) else Behind(s1);
      case Behind(s1) => writer := Submitted(s1, Stretch(0, b));
      case Submitted(s1, s2) =>
    }

    /**
      Whatever the ring's thread does next: a read of back_, no new round of it on a closed descriptor;
      or the kernel takes as much as it likes of what it was handed, and sent() tells.  There is no
      further step once the kernel is handed a stretch that leaves the array.
     */
    method LoopStep() returns (ghost n: nat)
      requires Valid()
      modifies this`writer, this`sends, outbox`front_
      ensures Valid() && Taken(old(outbox.State()), old(sends), outbox.State(), sends, n)
    {
      n := 0;
      outbox.State().CapacityBounds();
      if !writer.Submitted? {
        if open || !writer.Idle? {
          ReadOn();
        }
      } else if writer.s1.start + writer.s1.len <= outbox.capacity {
        var count: nat :| count <= writer.s1.len + writer.s2.len;
        n := count;
        Sent(count);
      }
    }

    /** Any number of its steps. */
    method LoopSteps() returns (ghost n: nat)
      requires Valid()
      modifies this`writer, this`sends, outbox`front_
      ensures Valid() && Taken(old(outbox.State()), old(sends), outbox.State(), sends, n)
    {
      hide Ring.Valid, Ring.Contents, Ring.Size, Released, Holds, AllValid, Gone, Wire, Taken;
      var steps: nat :| 0 <= steps;
      n := 0;
      TakenNothing(outbox.State(), sends);
      for i := 0 to steps
        invariant Valid() && Taken(old(outbox.State()), old(sends), outbox.State(), sends, n)
      {
        ghost var mid, between := outbox.State(), sends;
        ghost var m := LoopStep();
        TakenMore(old(outbox.State()), old(sends), n, mid, between, m, outbox.State(), sends);
        n := n + m;
      }
    }

    /**
      The wait of async_write: it ends with room, or with the descriptor found closed after the outbox
      was found full.
     */
    method AwaitRoom() returns (isOpen: bool, ghost stop: Stop, ghost n: nat)
      requires Valid()
      modifies this`open, this`writer, this`sends, outbox`front_
      ensures Valid() && Taken(old(outbox.State()), old(sends), outbox.State(), sends, n)
      ensures isOpen ==> outbox.FreeSize() > 0 && stop == Done
      ensures !isOpen ==> Stopped(stop, |Gone(old(sends))|) && stop.Closed?
    {
      hide Ring.At, Ring.SlotOf, Ring.Contents, Ring.Size, Released, Holds, AllValid, Gone, Wire, Taken, Since,
        Ring.Capacity, Ring.Shaped;
      ghost var was, before := outbox.State(), sends;
      n := LoopSteps();
      isOpen, stop := !outbox.Full(), Done;
      ghost var ring, between := outbox.State(), sends;
      assert isOpen <==> ring.Size() < ring.Capacity();
      ghost var m := LoopSteps();
      TakenAdds(was, before, ring, between, n);
      TakenAdds(ring, between, outbox.State(), sends, m);
      TakenMore(was, before, n, ring, between, m, outbox.State(), sends);
      n := n + m;
      if !isOpen {
        open := false;
        stop := Closed(ring, m);
        TakenSince(ring, between, m, outbox.State(), sends, |Gone(before)|);
      }
    }

    /** back_stretch(): j bytes are taken between its first two reads of front_ and k between the last two. */
    method RacingStretch() returns (start: nat, len: nat, ghost j: nat, ghost k: nat)
      requires Valid()
      modifies this`writer, this`sends, outbox`front_
      ensures Valid() && Taken(old(outbox.State()), old(sends), outbox.State(), sends, j + k)
      ensures Stretch(start, len) == BackStretchSeen(old(outbox.State()), j, k)
    {
      hide Ring.At, Ring.SlotOf, Ring.Contents, Holds, AllValid, Gone, Wire, Taken;
      j, k := 0, 0;
      start := outbox.Slot(outbox.back_);
      ghost var ring, before := outbox.State(), sends;
      TakenNothing(ring, before);
      ring.CapacityBounds();
      if outbox.back_ == WrapAdd(outbox.front_, outbox.capacity) {
        return start, 0, j, k;
      }
      j := LoopSteps();
      TakenAdds(ring, before, outbox.State(), sends, j);
      ReleasedFront(ring, j);
      if start >= outbox.Slot(outbox.front_) {
        return start, outbox.capacity - start, j, k;
      }
      ghost var mid, between := outbox.State(), sends;
      k := LoopSteps();
      TakenMore(ring, before, j, mid, between, k, outbox.State(), sends);
      TakenAdds(ring, before, outbox.State(), sends, j + k);
      ReleasedFront(ring, j + k);
      len := WrapSub(outbox.Slot(outbox.front_), start);
    }

    /** Why bytes were left unwritten, read off the outbox. */
    ghost predicate Stopped(stop: Stop, from: nat)
      reads this, outbox, outbox.data
    {
      match stop
      case Done => true
      case Closed(ring, m) =>
        !open && Since(ring, m, outbox.State(), sends, from) && ring.Size() == ring.Capacity()
      case Underflowed(ring, j, k) =>
        Since(ring, j + k, outbox.State(), sends, from) && FrontWraps(ring, j, k)
    }

    /** memcpy into the stretch, and advance_back, the ring's thread going on meanwhile. */
    method CopyAndPublish(bytes: seq<byte>, start: nat, len: nat) returns (n: nat)
      requires Valid() && FreeRun(outbox.State(), Stretch(start, len))
      modifies this`writer, this`sends, outbox.data, outbox`back_, outbox`front_
      ensures Valid() && n == Min(|bytes|, len) && old(sends) <= sends
      ensures Gone(sends) + outbox.Contents() == old(Gone(sends) + outbox.Contents()) + bytes[..n]
      ensures n == 0 ==> outbox.Size() <= old(outbox.Size())
    {
      hide Ring.At, Ring.SlotOf, Ring.Contents, Ring.Size, Ring.Valid, Released, Holds, AllValid, Gone, Wire,
        Taken, FreeRun, Ring.Pending;
      n := CopyIn(outbox, bytes, start, len);
      ghost var filled, between := outbox.State(), sends;
      GrowthKeeps(old(outbox.State()), filled, writer);
      ghost var took := LoopSteps();
      TakenAdds(filled, between, outbox.State(), sends, took);
      ReleaseKeepsPending(filled, took, n);
      ghost var ring := outbox.State();
      outbox.AdvanceBack(n);
      GrowthKeeps(ring, outbox.State(), writer);
    }

    /** One turn of the loop of async_write(). */
    method WriteSome(bytes: seq<byte>) returns (n: nat, goesOn: bool, ghost stop: Stop)
      requires Valid() && bytes != []
      modifies this`open, this`writer, this`sends, outbox.data, outbox`back_, outbox`front_
      ensures Valid() && n <= |bytes| && old(sends) <= sends
      ensures Gone(sends) + outbox.Contents() == old(Gone(sends) + outbox.Contents()) + bytes[..n]
      ensures goesOn ==> stop == Done && (n > 0 || outbox.Size() < old(outbox.Size()))
      ensures !goesOn ==> stop != Done && n == 0 && Stopped(stop, |Gone(old(sends))|)
    {
      hide Ring.At, Ring.SlotOf, Ring.Contents, Ring.Size, Ring.Valid, Released, Holds, AllValid, Gone, Wire,
        Taken, Since, FrontWraps, BackStretchSeen, FreeRun;
      n := 0;
      ghost var took;
      goesOn, stop, took := AwaitRoom();
      TakenAdds(old(outbox.State()), old(sends), outbox.State(), sends, took);
      if !goesOn {
        return;
      }
      var start, len;
      ghost var j, k;
      ghost var ring, between := outbox.State(), sends;
      start, len, j, k := RacingStretch();
      TakenAdds(ring, between, outbox.State(), sends, j + k);
      BackStretchRaces(ring, j, k);
      SeenLength(ring, j, k);
      if len > outbox.capacity {
        goesOn, stop := false, Underflowed(ring, j, k);
        TakenSince(ring, between, j + k, outbox.State(), sends, |Gone(old(sends))|);
        return;
      }
      n := CopyAndPublish(bytes, start, len);
    }

    /**
      async_write(): bytes go into the outbox piece by piece, as far as its first free stretch reaches
      each time, while the ring's thread goes on.  What has left the outbox and what is in it make up,
      in order, what was there and what was written; what went out is what left it, unless some write
      skipped slots.  All of it is written unless the descriptor is found closed and the outbox full,
      or the front passes the end of the array while the stretch is being read: then its length
      underflows, and the copy would leave the array.
     */
    method AsyncWrite(bytes: seq<byte>) returns (n: nat, ghost stop: Stop)
      requires Valid()
      modifies this`open, this`writer, this`sends, outbox.data, outbox`back_, outbox`front_
      ensures Valid() && n <= |bytes| && old(sends) <= sends
      ensures Gone(sends) + outbox.Contents() == old(Gone(sends) + outbox.Contents()) + bytes[..n]
      ensures (forall x | x in sends :: !x.Skips()) ==>
                Wire(sends) + outbox.Contents() == old(Wire(sends) + outbox.Contents()) + bytes[..n]
      ensures (n == |bytes| <==> stop == Done) && Stopped(stop, old(|Gone(sends)|))
    {
      hide Ring.At, Ring.SlotOf, Ring.Contents, Ring.Size, Ring.Valid, Released, Holds, AllValid, Gone, Wire,
        FrontWraps, BackStretchSeen;
      n, stop := 0, Done;
      while n < |bytes|
        invariant Valid() && n <= |bytes| && stop == Done && old(sends) <= sends
        invariant Gone(sends) + outbox.Contents() == old(Gone(sends) + outbox.Contents()) + bytes[..n]
        decreases |bytes| - n, outbox.Size()
      {
        var written, goesOn;
        GoneGrows(old(sends), sends);
        written, goesOn, stop := WriteSome(bytes[n..]);
        SliceTwice(old(Gone(sends) + outbox.Contents()), bytes, n, written);
        n := n + written;
        if !goesOn {
          break;
        }
      }
      if forall x | x in sends :: !x.Skips() {
        WireIsGone(sends);
        WireIsGone(old(sends));
      }
    }

    /** One turn of pack(): the next message is framed into the outbox if all of its frame fits. */
    method PackNext() returns (fits: bool)
      requires Valid() && outboxMsg != [] && |codec.enc(outboxMsg[0])| < MAX_MESSAGE
      modifies this`outboxMsg, outbox.data, outbox`back_
      ensures Valid() && fits == (|Frame(codec, old(outboxMsg[0]))| <= old(outbox.FreeSize()))
      ensures outboxMsg == if fits then old(outboxMsg)[1..] else old(outboxMsg)
      ensures outbox.Contents() == old(outbox.Contents()) + if fits then Frame(codec, old(outboxMsg[0])) else []
      ensures !fits ==> outbox.FreeSize() == old(outbox.FreeSize())
      ensures inbox.Contents() == old(inbox.Contents())
    {
      var buf := new byte[StopBit.BUFFER];
      var body := codec.enc(outboxMsg[0]);
      StopBit.SizeHolds(|body|);
      var k := StopBit.Serialize(StopBit.SIZE_T, |body|, buf);
      var totalSize := |body| + k;
      ghost var frame := Frame(codec, outboxMsg[0]);
      assert buf[..k] + body == frame;
      fits := outbox.FreeSize() >= totalSize;
      if fits {
        ghost var ring := outbox.State();
        Append(outbox, buf[..k] + body, totalSize);
        GrowthKeeps(ring, outbox.State(), writer);
        outboxMsg := outboxMsg[1..];
      }
    }

    /**
      pack(): messages move to the outbox, whole frames at a time, until none is left or the next
      frame does not fit.
     */
    method Pack() returns (ghost n: nat)
      requires Valid()
      requires forall m | m in outboxMsg :: |codec.enc(m)| < MAX_MESSAGE
      modifies this`outboxMsg, outbox.data, outbox`back_
      ensures Valid() && n <= |old(outboxMsg)| && outboxMsg == old(outboxMsg)[n..]
      ensures outbox.Contents() == old(outbox.Contents()) + Stream(codec, old(outboxMsg)[..n])
      ensures outboxMsg == [] || outbox.FreeSize() < |Frame(codec, outboxMsg[0])|
      ensures inbox.Contents() == old(inbox.Contents())
    {
      n := 0;
      while outboxMsg != []
        invariant Valid() && n <= |old(outboxMsg)| && outboxMsg == old(outboxMsg)[n..]
        invariant outbox.Contents() == old(outbox.Contents()) + Stream(codec, old(outboxMsg)[..n])
        invariant inbox.Contents() == old(inbox.Contents())
        decreases |outboxMsg|
      {
        assert outboxMsg[0] in old(outboxMsg);
        ghost var m := outboxMsg[0];
        var fits := PackNext();
        if !fits {
          break;
        }
        StreamSnoc(codec, old(outbox.Contents()), old(outboxMsg)[..n], m);
        assert old(outboxMsg)[..n + 1] == old(outboxMsg)[..n] + [m];
        n := n + 1;
      }
    }

    /** The bytes behind the prefix, pulled from the same reader. */
    method ReadRest(reader: RingReader<byte>) returns (rest: seq<byte>)
      requires reader.Valid() && reader.max == reader.base.Size() && reader.readCount <= reader.base.Size()
      modifies reader
      ensures rest == reader.base.Contents()[old(reader.readCount)..]
    {
      hide Ring.At, Ring.SlotOf, Ring.Contents, RingBuffers.Read;
      ghost var input, start := reader.base.Contents(), reader.readCount;
      rest := [];
      while true
        invariant reader.Valid() && start <= reader.readCount <= |input|
        invariant rest == input[start..reader.readCount]
        decreases |input| - reader.readCount
      {
        var v := reader.Get();
        if v.None? {
          break;
        }
        SliceSnoc(input, start, reader.readCount - 1);
        rest := rest + [v.value];
      }
    }

    /** One look at the front of the inbox. */
    method TryParse() returns (p: Parsed<M>)
      requires Valid()
      ensures p == ParseOne(codec, inbox.Contents())
    {
      var reader := new RingReader<byte>(inbox, inbox.Size());
      ghost var input := inbox.Contents();
      StopBit.SizeHolds(0);
      var size := ReadInteger(StopBit.SIZE_T, reader);
      if size.None? {
        return NoSize;
      }
      var totalSize := size.value + reader.readCount;
      if totalSize > inbox.Size() {
        return Incomplete;
      }
      var rest := ReadRest(reader);
      var b := codec.dec(rest);
      return if b.None? then BadMessage else Parsed(b.value.0, totalSize);
    }

    /** One round of either loop of unpack(): a parsed message moves to the message inbox and its bytes leave. */
    method Round(ghost coming: seq<M>, ghost n: nat) returns (p: Parsed<M>, ghost next: nat)
      requires Valid() && |inboxMsg| < MESSAGES
      requires Lawful(codec) && n <= |coming| && inbox.Contents() <= Stream(codec, coming[n..])
      modifies this`inboxMsg, inbox`front_
      ensures Valid() && next <= |coming|
      ensures inbox.Contents() <= Stream(codec, coming[next..])
      ensures Stream(codec, coming[..n]) + old(inbox.Contents()) == Stream(codec, coming[..next]) + inbox.Contents()
      ensures outbox.Contents() == old(outbox.Contents())
      ensures p.Parsed? ==>
                && next == n + 1 && coming[..next] == coming[..n] + [coming[n]]
                && inboxMsg == old(inboxMsg) + [coming[n]]
                && inbox.Size() < old(inbox.Size())
      ensures !p.Parsed? ==>
                && next == n && inboxMsg == old(inboxMsg) && inbox.Contents() == old(inbox.Contents())
                && (n == |coming| || inbox.Size() < |Frame(codec, coming[n])|)
                && (p.NoSize? <==> !StopBit.HasStop(inbox.Contents())) && !p.BadMessage?
    {
      p := TryParse();
      next := n;
      ghost var input := inbox.Contents();
      ParsePrefix(codec, input, coming[n..]);
      StopBit.DecodeNeedsStop(input);
      if p.Parsed? {
        FrontFrame(codec, input, coming, n);
        next := n + 1;
        inboxMsg := inboxMsg + [p.m];
        inbox.AdvanceFront(p.total);
      }
    }

    /** What n rounds have moved from the inbox to the message inbox. */
    ghost predicate Moved(coming: seq<M>, n: nat, bytes: seq<byte>, msgs: seq<M>)
      reads this, inbox, inbox.data
    {
      && inbox.Valid() && n <= |coming|
      && inboxMsg == msgs + coming[..n]
      && bytes == Stream(codec, coming[..n]) + inbox.Contents()
      && inbox.Contents() <= Stream(codec, coming[n..])
    }

    lemma NothingMoved(coming: seq<M>)
      requires inbox.Valid() && inbox.Contents() <= Stream(codec, coming)
      ensures Moved(coming, 0, inbox.Contents(), inboxMsg)
    {
      assert coming[0..] == coming;
    }

    /**
      unpack() of the iou peer, on input that is the beginning of a stream of frames: it delivers
      messages of that stream, in order, and stops only for want of room or of a complete frame.
     */
    method Unpack(ghost coming: seq<M>) returns (ghost n: nat)
      requires Valid() && Lawful(codec) && inbox.Contents() <= Stream(codec, coming)
      modifies this`inboxMsg, inbox`front_
      ensures Valid() && Moved(coming, n, old(inbox.Contents()), old(inboxMsg))
      ensures |inboxMsg| == 1024 || n == |coming| || inbox.Size() < |Frame(codec, coming[n])|
      ensures outbox.Contents() == old(outbox.Contents())
    {
      hide Ring.At, Ring.SlotOf, Ring.Contents, Stream, Frame, StopBit.HasStop;
      n := 0;
      NothingMoved(coming);
      while |inboxMsg| != MESSAGES
        invariant Valid() && Moved(coming, n, old(inbox.Contents()), old(inboxMsg))
        invariant outbox.Contents() == old(outbox.Contents())
        decreases inbox.Size()
      {
        var p;
        p, n := Round(coming, n);
        if !p.Parsed? {
          break;
        }
      }
    }

    /** unpack() of the tcp socket: the same, but a length prefix that cannot be read closes the connection. */
    method UnpackOrClose(ghost coming: seq<M>) returns (ghost n: nat)
      requires Valid() && open && Lawful(codec) && inbox.Contents() <= Stream(codec, coming)
      modifies this`inboxMsg, this`open, inbox`front_
      ensures Valid() && Moved(coming, n, old(inbox.Contents()), old(inboxMsg))
      ensures |inboxMsg| == 1024 || n == |coming| || inbox.Size() < |Frame(codec, coming[n])|
      ensures !open <==> |inboxMsg| < 1024 && inbox.Contents() != [] && !StopBit.HasStop(inbox.Contents())
    {
      hide Ring.At, Ring.SlotOf, Ring.Contents, Stream, Frame, StopBit.HasStop;
      n := 0;
      NothingMoved(coming);
      while |inboxMsg| != MESSAGES && !inbox.Empty()
        invariant Valid() && open && Moved(coming, n, old(inbox.Contents()), old(inboxMsg))
        decreases inbox.Size()
      {
        var p;
        p, n := Round(coming, n);
        if p.NoSize? || p.BadMessage? {
          open := false;
          break;
        }
        if p.Incomplete? {
          break;
        }
      }
    }
  }

  /** Stretches, a writer over them, and advance_back: the bytes become part of the contents. */
  method Append(rb: RingBuffer<byte>, bytes: seq<byte>, max: nat)
    requires rb.Valid() && |bytes| <= rb.FreeSize() && |bytes| <= max
    modifies rb.data, rb`back_
    ensures rb.Valid() && rb.Contents() == old(rb.Contents()) + bytes
  {
    var writer := new RingWriter<byte>(rb, max);
    ghost var base := rb.State();
    var i := 0;
    while i < |bytes|
      invariant i <= |bytes| && writer.Valid() && writer.rb == rb && writer.base == base && writer.max == max
      invariant writer.written == bytes[..i] && fresh(writer)
      invariant rb.back_ == old(rb.back_)
    {
      var ok := writer.Put(bytes[i]);
      assert bytes[..i + 1] == bytes[..i] + [bytes[i]];
      i := i + 1;
    }
    assert bytes[..i] == bytes;
    FillWrites(base, bytes);
    rb.AdvanceBack(writer.writtenCount);
  }

  lemma SliceTwice(a: seq<byte>, s: seq<byte>, n: nat, k: nat)
    requires n + k <= |s|
    ensures (a + s[..n]) + s[n..][..k] == a + s[..n + k]
  {
  }

  /** A free-running counter is what has been counted, on 64 bits. */
  lemma CounterSteps(g: nat, n: word)
    ensures WrapAdd(g % WORD, n) == (g + n) % WORD
  {
    var q := g / WORD;
    if g % WORD + n < WORD {
      RemainderUnique(g + n, WORD, q, g % WORD + n);
    } else {
      RemainderUnique(g + n, WORD, q + 1, g % WORD + n - WORD);
    }
  }

  /** memcpy into a free stretch. */
  method CopyIn(rb: RingBuffer<byte>, bytes: seq<byte>, start: nat, len: nat) returns (n: nat)
    requires rb.Valid() && FreeRun(rb.State(), Stretch(start, len))
    modifies rb.data
    ensures n == Min(|bytes|, len) <= rb.FreeSize() && Filled(old(rb.State()), rb.State(), bytes[..n])
  {
    hide Ring.At, Ring.SlotOf, Ring.Contents, Filled;
    ghost var base := rb.State();
    n := Min(|bytes|, len);
    var i := 0;
    assert bytes[..0] == [];
    while i < n
      invariant i <= n && rb.State() == base.Fill(bytes[..i])
    {
      assert SlotsIn(Stretch(start, len))[i] == FreeSlots(base)[i];
      FillSnoc(base, bytes[..i], bytes[i]);
      assert bytes[..i + 1] == bytes[..i] + [bytes[i]];
      rb.data[start + i] := bytes[i];
      i := i + 1;
    }
    FillWrites(base, bytes[..n]);
  }

  lemma StreamSnoc<M>(c: Codec<M>, before: seq<byte>, packed: seq<M>, m: M)
    ensures before + Stream(c, packed + [m]) == (before + Stream(c, packed)) + Frame(c, m)
  {
    StreamConcat(c, packed, [m]);
    StreamOne(c, m);
    ConcatAssoc(before, Stream(c, packed), Frame(c, m));
  }

  /** Taking the first frame off the inbox, on values. */
  lemma FrontFrame<M>(c: Codec<M>, input: seq<byte>, coming: seq<M>, n: nat)
    requires n < |coming| && input <= Stream(c, coming[n..]) && |Frame(c, coming[n])| <= |input|
    ensures var rest := input[|Frame(c, coming[n])|..];
            && rest <= Stream(c, coming[n + 1..])
            && Stream(c, coming[..n]) + input == Stream(c, coming[..n + 1]) + rest
    ensures coming[..n + 1] == coming[..n] + [coming[n]]
  {
    var f := Frame(c, coming[n]);
    var tail := Stream(c, coming[n + 1..]);
    var rest := input[|f|..];
    assert coming[n..][1..] == coming[n + 1..];
    assert Stream(c, coming[n..]) == f + tail;
    assert input == f + rest && rest <= tail by {
      assert input[..|f|] == (f + tail)[..|f|] == f;
      assert rest == (f + tail)[|f|..|input|] == tail[..|input| - |f|];
    }
    assert coming[..n + 1] == coming[..n] + [coming[n]];
    StreamConcat(c, coming[..n], [coming[n]]);
    StreamOne(c, coming[n]);
    ConcatAssoc(Stream(c, coming[..n]), f, rest);
  }
}
