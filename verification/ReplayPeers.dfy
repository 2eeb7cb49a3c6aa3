/**
  The two ends of the replay protocol as the objects they are, updating their fields in the loops
  of the source.  The functions of module ReplayProtocol are their specifications.
 */
module ReplayPeers {
  import opened Words
  import opened ReplayProtocol
  import opened ReplaySystem

  /** udpmr_client_msg.  The application pops from inboxMsg; what it has popped is kept in a ghost field. */
  class ReplayClient {
    var nextOrderedSeq: nat
    var nextExpectedSeq: nat
    var buffers: seq<seq<Msg>>
    var replies: seq<Reply>        // inbox of the replay connection
    var requests: seq<Request>     // outbox of the replay connection
    var inboxMsg: seq<Msg>
    var inboxBack: nat             // the inbox's back counter: how many messages were ever put in
    var tcpReqId: nat
    var good: bool
    ghost var popped: seq<Msg>

    ghost function State(): Client
      reads this
    {
      Client(nextOrderedSeq, nextExpectedSeq, buffers, replies, popped + inboxMsg, |popped|, tcpReqId, good)
    }

    ghost predicate Valid()
      reads this
    {
      && |inboxMsg| <= INBOX
      && inboxBack == |popped| + |inboxMsg|
      && |buffers| <= BUFFERS
      && forall j | 0 <= j < |buffers| :: IsRun(buffers[j])
    }

    constructor ()
      ensures Valid() && State() == FRESH_CLIENT && requests == []
    {
      nextOrderedSeq, nextExpectedSeq := 0, 0;
      buffers, replies, requests, inboxMsg, popped := [], [], [], [], [];
      tcpReqId, good, inboxBack := 0, true, 0;
    }

    method RequestReplay(begin: nat, end: nat)
      modifies this`tcpReqId, this`requests
      ensures tcpReqId == old(tcpReqId) + 1
      ensures requests == old(requests) + [Request(tcpReqId, begin, end)]
    {
      tcpReqId := tcpReqId + 1;
      requests := requests + [Request(tcpReqId, begin, end)];
    }

    /** read() once the socket has a datagram to give. */
    method Read(f: seq<Msg>) returns (consumed: bool)
      requires Valid() && IsRun(f)
      modifies this
      ensures Valid()
      ensures consumed == (|old(buffers)| < 1024)
      ensures if consumed
              then State() == ReadFrame(old(State()), f).0
                   && requests == old(requests) + ReadFrame(old(State()), f).1
              else State() == old(State()) && requests == old(requests)
    {
      if |buffers| == BUFFERS {
        return false;
      }
      consumed := true;
      if Last(f) < nextExpectedSeq {
        return;
      }
      var seqNo := First(f);
      if nextExpectedSeq <= seqNo {
        if nextExpectedSeq < seqNo {
          RequestReplay(nextExpectedSeq, seqNo);
        }
        nextExpectedSeq := Last(f);
        nextExpectedSeq := nextExpectedSeq + 1;
        buffers := buffers + [f];
      }
    }

    /** The application pops some messages, as it may at any moment; at least so many if it is waited for. */
    method Pops(atLeast: nat, ghost start: Client, ghost trace: seq<Micro>) returns (ghost longer: seq<Micro>)
      requires Valid() && MicroRun(start, trace, State()) && atLeast <= |inboxMsg|
      modifies this`inboxMsg, this`popped
      ensures Valid() && |inboxMsg| + atLeast <= old(|inboxMsg|)
      ensures State() == old(State()).(taken := State().taken) && old(State()).taken <= State().taken
      ensures MicroRun(start, longer, State())
    {
      var n: nat :| atLeast <= n <= |inboxMsg|;
      MicroRunSnoc(start, trace, State(), Take(n));
      popped := popped + inboxMsg[..n];
      inboxMsg := inboxMsg[n..];
      longer := trace + [Take(n)];
      assert State() == MicroStep(old(State()), Take(n)) by {
        assert popped + inboxMsg == old(popped + inboxMsg);
      }
    }

    /** push_back's wait for room. */
    method AwaitRoom(ghost start: Client, ghost trace: seq<Micro>) returns (ghost longer: seq<Micro>)
      requires Valid() && MicroRun(start, trace, State())
      modifies this`inboxMsg, this`popped
      ensures Valid() && |inboxMsg| < INBOX
      ensures State() == old(State()).(taken := State().taken) && old(State()).taken <= State().taken
      ensures MicroRun(start, longer, State())
    {
      longer := Pops(if |inboxMsg| == INBOX then 1 else 0, start, trace);
    }

    /** One message moves from the replay connection to the inbox. */
    method PushReply(ghost start: Client, ghost trace: seq<Micro>) returns (ghost longer: seq<Micro>)
      requires Valid() && MicroRun(start, trace, State()) && HeadIsNext(State())
      modifies this`inboxMsg, this`popped, this`inboxBack, this`nextOrderedSeq, this`replies
      ensures Valid() && MicroRun(start, longer, State())
      ensures nextOrderedSeq == old(nextOrderedSeq) + 1 && inboxBack == old(inboxBack) + 1
      ensures replies == old(replies)[1..]
    {
      longer := AwaitRoom(start, trace);
      ghost var before := State();
      MicroRunSnoc(start, longer, before, Drain);
      inboxMsg := inboxMsg + [replies[0].msg];
      inboxBack := inboxBack + 1;
      nextOrderedSeq := nextOrderedSeq + 1;
      replies := replies[1..];
      longer := longer + [Drain];
      assert State() == DrainOne(before);
    }

    /** One look at the first reply, after some pops. */
    method LookAtReply(ghost start: Client, ghost trace: seq<Micro>) returns (goesOn: bool, ghost longer: seq<Micro>)
      requires Valid() && MicroRun(start, trace, State()) && replies != []
      modifies this
      ensures Valid() && MicroRun(start, longer, State())
      ensures buffers == old(buffers) && nextExpectedSeq == old(nextExpectedSeq) && requests == old(requests)
      ensures nextOrderedSeq - old(nextOrderedSeq) == inboxBack - old(inboxBack) >= 0
      ensures nextOrderedSeq == old(nextOrderedSeq) ==> State().Room() >= old(State()).Room()
      ensures HeadIsNext(old(State())) ==> old(nextOrderedSeq) < nextOrderedSeq
      ensures goesOn ==> |replies| < old(|replies|)
      ensures !goesOn ==> replies != [] && ((replies[0].Refusal? && !good)
                            || (replies[0].Payload? && nextOrderedSeq < replies[0].msg.seqNo))
    {
      hide MicroRun;
      goesOn := true;
      var reply := replies[0];
      longer := Pops(0, start, trace);
      if reply.Refusal? {
        MicroRunSnoc(start, longer, State(), Drain);
        good, goesOn := false, false;
        longer := longer + [Drain];
      } else if reply.msg.seqNo == nextOrderedSeq {
        longer := PushReply(start, longer);
      } else if reply.msg.seqNo < nextOrderedSeq {
        MicroRunSnoc(start, longer, State(), Drain);
        replies := replies[1..];
        longer := longer + [Drain];
      } else {
        goesOn := false;
      }
    }

    /** The first loop of unpack(): messages from the replay connection, as far as they are next. */
    method DrainReplies(ghost start: Client, ghost trace: seq<Micro>) returns (ghost longer: seq<Micro>)
      requires Valid() && MicroRun(start, trace, State())
      modifies this
      ensures Valid() && MicroRun(start, longer, State())
      ensures buffers == old(buffers) && nextExpectedSeq == old(nextExpectedSeq) && requests == old(requests)
      ensures nextOrderedSeq - old(nextOrderedSeq) == inboxBack - old(inboxBack) >= 0
      ensures nextOrderedSeq == old(nextOrderedSeq) ==> State().Room() >= old(State()).Room()
      ensures HeadIsNext(old(State())) ==> old(nextOrderedSeq) < nextOrderedSeq
      ensures || replies == [] || (replies[0].Refusal? && !good)
              || (replies[0].Payload? && nextOrderedSeq < replies[0].msg.seqNo)
    {
      hide MicroRun;
      longer := trace;
      while replies != []
        invariant Valid() && MicroRun(start, longer, State())
        invariant buffers == old(buffers) && nextExpectedSeq == old(nextExpectedSeq) && requests == old(requests)
        invariant nextOrderedSeq - old(nextOrderedSeq) == inboxBack - old(inboxBack) >= 0
        invariant nextOrderedSeq == old(nextOrderedSeq) ==> State().Room() >= old(State()).Room()
        invariant HeadIsNext(old(State())) ==> old(nextOrderedSeq) < nextOrderedSeq || State() == old(State())
        decreases |replies|
      {
        var goesOn;
        goesOn, longer := LookAtReply(start, longer);
        if !goesOn {
          break;
        }
      }
    }

    /** The messages of frame j, one by one, into the inbox, while the application pops. */
    method CopyFrame(ghost start: Client, ghost trace: seq<Micro>, j: nat) returns (ghost longer: seq<Micro>)
      requires Valid() && MicroRun(start, trace, State()) && j < |buffers| && FrameFits(State(), j)
      modifies this`inboxMsg, this`popped, this`inboxBack, this`nextOrderedSeq
      ensures Valid() && MicroRun(start, longer, State())
      ensures old(nextOrderedSeq) < nextOrderedSeq
      ensures nextOrderedSeq - old(nextOrderedSeq) == inboxBack - old(inboxBack)
    {
      var f := buffers[j];
      var msgCount := Last(f) - First(f) + 1;
      ghost var before := State();
      var i := 0;
      assert f[..0] == [];
      while i < msgCount
        invariant i <= msgCount && popped + inboxMsg == before.inbox + f[..i]
        invariant inboxBack == |popped| + |inboxMsg| && |inboxMsg| + msgCount - i <= INBOX
        invariant before.taken <= |popped| && nextOrderedSeq == before.nextOrdered
      {
        var n: nat :| n <= |inboxMsg|;
        PushStep(popped, inboxMsg, n, before.inbox, f, i);
        popped := popped + inboxMsg[..n];
        inboxMsg := inboxMsg[n..] + [f[i]];
        inboxBack := inboxBack + 1;
        i := i + 1;
      }
      nextOrderedSeq := nextOrderedSeq + msgCount;
      MicroRunSnoc(start, trace, before, Deliver(j));
      ghost var took := Take(|popped| - before.taken);
      MicroRunSnoc(start, trace + [Deliver(j)], DeliverFrame(before, j), took);
      longer := trace + [Deliver(j)] + [took];
    }

    /** The second loop of unpack(): every buffered frame that is next and fits. */
    method DeliverFrames(ghost start: Client, ghost trace: seq<Micro>) returns (ghost longer: seq<Micro>)
      requires Valid() && MicroRun(start, trace, State())
      modifies this
      ensures Valid() && MicroRun(start, longer, State())
      ensures buffers == old(buffers) && nextExpectedSeq == old(nextExpectedSeq) && requests == old(requests)
      ensures nextOrderedSeq - old(nextOrderedSeq) == inboxBack - old(inboxBack) >= 0
      ensures FrameIsNext(old(State())) ==> old(nextOrderedSeq) < nextOrderedSeq
    {
      longer := trace;
      var j := 0;
      while j < |buffers|
        invariant j <= |buffers| && Valid() && MicroRun(start, longer, State())
        invariant buffers == old(buffers) && nextExpectedSeq == old(nextExpectedSeq) && requests == old(requests)
        invariant nextOrderedSeq - old(nextOrderedSeq) == inboxBack - old(inboxBack) >= 0
        invariant nextOrderedSeq == old(nextOrderedSeq) ==>
                    && State().Room() >= old(State()).Room()
                    && forall k | 0 <= k < j :: First(buffers[k]) != nextOrderedSeq
      {
        longer := Pops(0, start, longer);
        var f := buffers[j];
        if First(f) == nextOrderedSeq {
          var msgCount := Last(f) - First(f) + 1;
          if INBOX - |inboxMsg| < msgCount {
            break;
          }
          longer := CopyFrame(start, longer, j);
        }
        j := j + 1;
      }
    }

    /** The third loop of unpack(): frames that are behind leave the buffer. */
    method DropFrames(ghost start: Client, ghost trace: seq<Micro>) returns (ghost longer: seq<Micro>)
      requires Valid() && MicroRun(start, trace, State())
      modifies this`buffers, this`inboxMsg, this`popped
      ensures Valid() && MicroRun(start, longer, State())
      ensures buffers == [] || nextOrderedSeq <= First(buffers[0])
    {
      longer := trace;
      while buffers != []
        invariant Valid() && MicroRun(start, longer, State())
        decreases |buffers|
      {
        longer := Pops(0, start, longer);
        if First(buffers[0]) < nextOrderedSeq {
          MicroRunSnoc(start, longer, State(), DropFront);
          buffers := buffers[1..];
          longer := longer + [DropFront];
        } else {
          break;
        }
      }
    }

    /**
      unpack(), after the replay connection has delivered some more replies.  Whatever the
      application pops meanwhile, before any step of any of the loops, the outcome is one the small
      steps of the system can reach; and if the next item is at hand and fits, something is delivered.
     */
    method Unpack(arrived: seq<Reply>) returns (some: bool, ghost trace: seq<Micro>)
      requires Valid()
      modifies this
      ensures Valid()
      ensures MicroRun(old(State()).(replies := old(replies) + arrived), trace, State())
      ensures nextExpectedSeq == old(nextExpectedSeq) && requests == old(requests)
      ensures old(nextOrderedSeq) <= nextOrderedSeq
      ensures Ready(old(State()).(replies := old(replies) + arrived)) ==> old(nextOrderedSeq) < nextOrderedSeq
      ensures some == (old(nextOrderedSeq) < nextOrderedSeq)
      ensures old(|inboxMsg|) < 4096 ==> buffers == [] || nextOrderedSeq <= First(buffers[0])
    {
      replies := replies + arrived;
      ghost var start := State();
      trace := [];
      var initialPosition := inboxBack;
      if |inboxMsg| == INBOX {
        return false, trace;
      }
      trace := DrainReplies(start, trace);
      ghost var drained := State();
      if drained.nextOrdered == start.nextOrdered && FrameIsNext(start) {
        ghost var j :| 0 <= j < |buffers| && FrameFits(start, j) &&
          forall k | 0 <= k < j :: buffers[k] != [] && First(buffers[k]) != start.nextOrdered;
        assert FrameFits(drained, j);
      }
      trace := DeliverFrames(start, trace);
      some := inboxBack != initialPosition;
      trace := DropFrames(start, trace);
    }

    /**
      unpack() of a client in the system, whatever is still on its way to it: with room in the inbox,
      every frame that is wholly delivered leaves the buffer and every other stays.  So a client that
      has caught up has an empty buffer, and its next read() takes its datagram.
     */
    method UnpackInSystem(ghost v: Server, ghost x: Session) returns (some: bool, ghost y: Session)
      requires Valid() && ServerInv(v) && SessionInv(v, x) && x.client == State() && |inboxMsg| < 4096
      modifies this
      ensures Valid() && y == x.(client := State()) && SessionInv(v, y)
      ensures old(nextOrderedSeq) <= nextOrderedSeq && nextExpectedSeq == old(nextExpectedSeq)
      ensures some == (old(nextOrderedSeq) < nextOrderedSeq)
      ensures Ready(old(State())) ==> some
      ensures forall j | 0 <= j < |buffers| :: nextOrderedSeq <= First(buffers[j])
      ensures forall f :: f in buffers <==> f in old(buffers) && f != [] && nextOrderedSeq <= First(f)
      ensures nextOrderedSeq == nextExpectedSeq ==> buffers == []
      ensures Arrived(v, old(State())) && x == Session(old(State()), [], []) ==> Arrived(v, State())
    {
      ghost var c := State();
      ghost var trace;
      some, trace := Unpack([]);
      assert c.(replies := c.replies + []) == c;
      y := x.(client := State());
      RunKeepsSession(v, x, trace, State());
      RunKeepsUndelivered(v, x, trace, State());
      FrontThenAll(v, State());
      if Arrived(v, c) {
        RunKeepsArrived(v, c, trace, State());
      }
    }

    /**
      Once everything asked for has arrived unrefused, calling unpack() again and again, with an
      application that pops enough for the next item to fit, reaches nextExpectedSeq; and what was
      put into the inbox by then is everything published below it.  No frame is left in the buffer.
     */
    method CatchUp(ghost v: Server)
      requires Valid() && Arrived(v, State())
      modifies this
      ensures Valid() && Arrived(v, State())
      ensures nextOrderedSeq == nextExpectedSeq == old(nextExpectedSeq) <= |v.log|
      ensures popped + inboxMsg == v.log[..nextExpectedSeq]
      ensures old(nextOrderedSeq) < nextOrderedSeq ==> buffers == []
    {
      while nextOrderedSeq < nextExpectedSeq
        invariant Valid() && Arrived(v, State()) && nextExpectedSeq == old(nextExpectedSeq)
        invariant old(nextOrderedSeq) <= nextOrderedSeq
        invariant old(nextOrderedSeq) < nextOrderedSeq && nextOrderedSeq == nextExpectedSeq ==> buffers == []
        decreases nextExpectedSeq - nextOrderedSeq
      {
        ghost var c := State();
        var room := RoomNeeded(v);
        var free := INBOX - |inboxMsg|;
        ghost var trace := Pops(if free < room then room - free else 0, c, []);
        RunKeepsArrived(v, c, trace, State());
        ghost var d := State();
        ArrivedMeansReady(v, Session(d, [], []));
        var some;
        ghost var y;
        some, y := UnpackInSystem(v, Session(d, [], []));
      }
    }

    /** One message, or the whole of the frame that is next. */
    method RoomNeeded(ghost v: Server) returns (room: nat)
      requires Valid() && Arrived(v, State())
      ensures 1 <= room <= INBOX
      ensures forall j | 0 <= j < |buffers| && First(buffers[j]) == nextOrderedSeq ::
                Last(buffers[j]) - First(buffers[j]) + 1 <= room
      ensures room == 1 || exists j :: 0 <= j < |buffers| && First(buffers[j]) == nextOrderedSeq
                                       && room == Last(buffers[j]) - First(buffers[j]) + 1
    {
      hide Arrived;
      room := 1;
      var j := 0;
      while j < |buffers|
        invariant j <= |buffers| && 1 <= room <= INBOX
        invariant forall k | 0 <= k < j && First(buffers[k]) == nextOrderedSeq ::
                    Last(buffers[k]) - First(buffers[k]) + 1 <= room
        invariant room == 1 || exists k :: 0 <= k < j && First(buffers[k]) == nextOrderedSeq
                                           && room == Last(buffers[k]) - First(buffers[k]) + 1
      {
        ArrivedRun(v, State(), j);
        var count := Last(buffers[j]) - First(buffers[j]) + 1;
        if First(buffers[j]) == nextOrderedSeq && room < count {
          room := count;
        }
        j := j + 1;
      }
    }
  }

  lemma PushStep(popped: seq<Msg>, inbox: seq<Msg>, n: nat, before: seq<Msg>, f: seq<Msg>, i: nat)
    requires n <= |inbox| && i < |f| && popped + inbox == before + f[..i]
    ensures (popped + inbox[..n]) + (inbox[n..] + [f[i]]) == before + f[..i + 1]
  {
    assert (popped + inbox[..n]) + (inbox[n..] + [f[i]]) == (popped + inbox) + [f[i]];
    assert f[..i + 1] == f[..i] + [f[i]];
  }

  /** Everything the client asked for has arrived, and nothing was refused. */
  ghost predicate Arrived(v: Server, c: Client) {
    var x := Session(c, [], []);
    ServerInv(v) && SessionInv(v, x) && Replayable(v, x)
  }

  lemma ArrivedRun(v: Server, c: Client, j: nat)
    requires Arrived(v, c) && j < |c.buffers|
    ensures IsRun(c.buffers[j]) && 1 <= Last(c.buffers[j]) - First(c.buffers[j]) + 1 <= INBOX
  {
    GenuineIsRun(v, c.buffers[j]);
  }

  lemma {:induction false} RunKeepsArrived(v: Server, c: Client, ms: seq<Micro>, e: Client)
    requires Arrived(v, c) && MicroRun(c, ms, e)
    ensures Arrived(v, e) && e.nextExpected == c.nextExpected
    decreases |ms|
  {
    if ms != [] {
      MicroKeeps(v, Session(c, [], []), ms[0]);
      RunKeepsArrived(v, MicroStep(c, ms[0]), ms[1..], e);
    }
  }

  lemma {:induction false} RunKeepsSession(v: Server, x: Session, ms: seq<Micro>, e: Client)
    requires ServerInv(v) && SessionInv(v, x) && MicroRun(x.client, ms, e)
    ensures SessionInv(v, x.(client := e))
    decreases |ms|
  {
    if ms == [] {
      assert x.(client := e) == x;
    } else {
      MicroKeeps(v, x, ms[0]);
      var y := x.(client := MicroStep(x.client, ms[0]));
      RunKeepsSession(v, y, ms[1..], e);
      assert y.(client := e) == x.(client := e);
    }
  }

  /** Frames come into the buffer by read() alone, and leave it only when they are delivered. */
  lemma {:induction false} RunKeepsUndelivered(v: Server, x: Session, ms: seq<Micro>, e: Client)
    requires ServerInv(v) && SessionInv(v, x) && MicroRun(x.client, ms, e)
    ensures x.client.nextOrdered <= e.nextOrdered
    ensures forall f :: f in e.buffers ==> f in x.client.buffers
    ensures forall f | f in x.client.buffers && f != [] && e.nextOrdered <= First(f) :: f in e.buffers
    decreases |ms|
  {
    if ms != [] {
      var c := x.client;
      var y := x.(client := MicroStep(c, ms[0]));
      MicroKeeps(v, x, ms[0]);
      RunKeepsUndelivered(v, y, ms[1..], e);
      if ms[0].DropFront? {
        assert c.buffers == [c.buffers[0]] + y.client.buffers;
      } else {
        assert y.client.buffers == c.buffers;
      }
    }
  }

  /** The frames are in order, so if the first is not delivered none is. */
  lemma FrontThenAll(v: Server, c: Client)
    requires ClientInv(v, c) && (c.buffers == [] || (c.buffers[0] != [] && c.nextOrdered <= First(c.buffers[0])))
    ensures forall j | 0 <= j < |c.buffers| :: c.buffers[j] != [] && c.nextOrdered <= First(c.buffers[j])
    ensures c.nextOrdered == c.nextExpected ==> c.buffers == []
  {
    if c.buffers != [] {
      forall j | 0 <= j < |c.buffers|
        ensures c.buffers[j] != [] && c.nextOrdered <= First(c.buffers[j])
      {
        assert Genuine(v.log, c.buffers[j]);
        if j > 0 {
          assert End(c.buffers[0]) <= First(c.buffers[j]);
        }
      }
      assert End(c.buffers[0]) <= c.nextExpected;
    }
  }

  ghost predicate HeadIsNext(c: Client) {
    c.replies != [] && c.replies[0].Payload? && c.replies[0].msg.seqNo == c.nextOrdered
  }

  ghost predicate FrameFits(c: Client, j: nat)
    requires j < |c.buffers|
  {
    var f := c.buffers[j];
    IsRun(f) && First(f) == c.nextOrdered && Last(f) - First(f) + 1 <= c.Room()
  }

  /** The first buffered frame that starts at the next number fits the inbox. */
  ghost predicate FrameIsNext(c: Client) {
    exists j :: 0 <= j < |c.buffers| && FrameFits(c, j) &&
      forall k | 0 <= k < j :: c.buffers[k] != [] && First(c.buffers[k]) != c.nextOrdered
  }

  /** The next item is at hand and the inbox has room for it. */
  ghost predicate Ready(c: Client) {
    0 < c.Room() && (HeadIsNext(c) || FrameIsNext(c))
  }

  /**
    In a reachable state where something is missing, everything asked for has arrived unrefused,
    and the inbox has room for the next item, unpack() delivers something.
   */
  lemma ArrivedMeansReady(v: Server, x: Session)
    requires ServerInv(v) && SessionInv(v, x) && Replayable(v, x)
    requires x.requests == [] && x.wire == [] && x.client.nextOrdered < x.client.nextExpected
    requires 0 < x.client.Room()
    requires forall j | 0 <= j < |x.client.buffers| && NextFrame(x.client, j) ::
               Last(x.client.buffers[j]) - First(x.client.buffers[j]) + 1 <= x.client.Room()
    ensures Ready(x.client)
  {
    var c := x.client;
    NextIsAtHand(v, x);
    if !HeadIsNext(c) {
      var j :| 0 <= j < |c.buffers| && NextFrame(c, j);
      assert FrameFits(c, j);
      forall k | 0 <= k < j
        ensures c.buffers[k] != [] && First(c.buffers[k]) != c.nextOrdered
      {
        assert c.buffers[k] != [] && End(c.buffers[k]) <= First(c.buffers[j]);
      }
    }
  }

  /** What a client object's unpack() does is a run of the system: its outcome is a reachable state. */
  lemma {:induction false} UnpackIsSystemRun(s: State, i: nat, ms: seq<Micro>, c: Client) returns (steps: seq<Step>)
    requires i < |s.sessions| && MicroRun(s.sessions[i].client, ms, c)
    ensures Reaches(s, steps, s.(sessions := s.sessions[i := s.sessions[i].(client := c)]))
    decreases |ms|
  {
    if ms == [] {
      steps := [];
      assert s.sessions[i := s.sessions[i].(client := c)] == s.sessions;
    } else {
      var step := Unpacking(i, ms[0]);
      var t := Next(s, step);
      var rest := UnpackIsSystemRun(t, i, ms[1..], c);
      steps := [step] + rest;
      assert steps[1..] == rest;
      assert t.sessions[i := t.sessions[i].(client := c)] == s.sessions[i := s.sessions[i].(client := c)];
    }
  }

  lemma HandOne(v: Server)
    requires ServerInv(v)
    ensures v.front <= v.sent <= |v.log|
    ensures v.sent < |v.log| ==> ServerInv(v.(sent := v.sent + 1))
  {
  }

  /** udpmr_server_msg: the replay log, the position up to which it is handed on, and the multicast queue. */
  class ReplayServer {
    const capacity: nat
    var outboxMsg: seq<Msg>       // the ring's contents
    var frontPos: nat             // the ring's front counter
    var sentIt: nat               // an iterator: a counter of the same kind
    var multicast: seq<Msg>       // outbox of the multicast server
    ghost var trimmed: seq<Msg>   // what advance_front has released

    ghost function Log(): seq<Msg>
      reads this
    {
      trimmed + outboxMsg
    }

    /** As seen by the replay protocol, before anything queued for multicast is packed. */
    ghost function Snapshot(): Server
      reads this
    {
      Server(capacity, Log(), frontPos, sentIt, if |multicast| <= sentIt then sentIt - |multicast| else 0, [], [])
    }

    ghost predicate Valid()
      reads this
    {
      && ServerInv(Snapshot())
      && frontPos == |trimmed|
      && |multicast| <= sentIt && |multicast| <= QUEUE
      && multicast == Log()[sentIt - |multicast|..sentIt]
    }

    constructor (sizeInBits: nat)
      ensures Valid() && Log() == [] && multicast == [] && capacity == Pow2(sizeInBits)
    {
      capacity := Pow2(sizeInBits);
      outboxMsg, multicast, trimmed := [], [], [];
      frontPos, sentIt := 0, 0;
    }

    /** async_send, with messages numbered as the protocol assumes. */
    method AsyncSend(msg: Msg)
      requires Valid() && |outboxMsg| < capacity
      requires msg.seqNo == |Log()|
      modifies this`outboxMsg
      ensures Valid() && Log() == old(Log()) + [msg]
    {
      ghost var v := Snapshot();
      PublishKeeps(v, msg.body);
      assert v.sent <= |v.log|;
      hide ServerInv;
      outboxMsg := outboxMsg + [msg];
      assert Log() == old(Log()) + [msg];
      assert Snapshot() == PublishOne(v, msg.body);
      assert Log()[sentIt - |multicast|..sentIt] == old(Log())[sentIt - |multicast|..sentIt];
    }

    /** The loop of pack(): hand messages on until none is left or the queue is full. */
    method Hand()
      requires Valid()
      modifies this`sentIt, this`multicast
      ensures Valid()
      ensures old(sentIt) <= sentIt && multicast == old(multicast) + Log()[old(sentIt)..sentIt]
      ensures sentIt == |Log()| || |multicast| == 1024
    {
      hide ServerInv;
      HandOne(Snapshot());
      while sentIt < frontPos + |outboxMsg| && |multicast| != QUEUE
        invariant Valid() && old(sentIt) <= sentIt && frontPos <= sentIt <= |Log()|
        invariant multicast == old(multicast) + Log()[old(sentIt)..sentIt]
        decreases frontPos + |outboxMsg| - sentIt
      {
        HandOne(Snapshot());
        SliceSnoc(Log(), sentIt - |multicast|, sentIt);
        SliceSnoc(Log(), old(sentIt), sentIt);
        multicast := multicast + [outboxMsg[sentIt - frontPos]];
        sentIt := sentIt + 1;
      }
    }

    /** The body of unpack() for one connection that has a request waiting. */
    method ServeNext(waiting: seq<Request>) returns (rest: seq<Request>, answer: seq<Reply>)
      requires Valid() && waiting != []
      requires !(frontPos <= waiting[0].end < waiting[0].begin < |Log()|)
      ensures Answerable(Snapshot(), waiting[0])
      ensures answer == Answer(Snapshot(), waiting[0]) && rest == waiting[1..]
    {
      var req := waiting[0];
      ghost var v := Snapshot();
      AnswerIs(v, req);
      assert outboxMsg != [] ==> v.log[v.front] == outboxMsg[0] && v.log[|v.log| - 1] == outboxMsg[|outboxMsg| - 1];
      if Old(req.begin) || Old(req.end) {
        answer := [Refusal(req, 2, req.end, req.end)];
      } else if New(req.begin) || New(req.end) {
        answer := [Refusal(req, 1, req.begin, req.begin)];
      } else {
        var it := frontPos + (req.begin - outboxMsg[0].seqNo);
        var end := frontPos + (req.end - outboxMsg[0].seqNo);
        answer := CopyOut(req.reqId, it, end);
      }
      rest := waiting[1..];
    }

    /** The messages between two positions of the log, each as a reply. */
    method CopyOut(reqId: nat, from: nat, end: nat) returns (answer: seq<Reply>)
      requires Valid() && frontPos <= from <= end <= |Log()|
      ensures answer == Payloads(reqId, Log()[from..end])
    {
      var it := from;
      answer := [];
      while it != end
        invariant from <= it <= end
        invariant answer == Payloads(reqId, Log()[from..it])
        decreases end - it
      {
        SliceSnoc(Log(), from, it);
        answer := answer + [Payload(reqId, outboxMsg[it - frontPos])];
        it := it + 1;
      }
    }

    predicate Old(seqNo: nat)
      reads this
    {
      outboxMsg == [] || seqNo < outboxMsg[0].seqNo
    }

    predicate New(seqNo: nat)
      reads this
    {
      outboxMsg == [] || outboxMsg[|outboxMsg| - 1].seqNo < seqNo
    }

    /** The end of unpack(): release a fixed share of the log once it is almost full and that share is handed on. */
    method Trim()
      requires Valid()
      modifies this`outboxMsg, this`frontPos, this`trimmed
      ensures Valid() && Log() == old(Log())
      ensures frontPos == old(frontPos) +
              (if capacity - old(|outboxMsg|) < capacity / 1024 && old(frontPos) + capacity / 1024 <= sentIt
               then capacity / 1024 else 0)
      ensures frontPos <= sentIt
      ensures |outboxMsg| == old(|outboxMsg|) - (frontPos - old(frontPos))
      ensures sentIt == |Log()| ==> capacity - |outboxMsg| >= capacity / 1024
    {
      if capacity - |outboxMsg| < capacity / TRIM_FRACTION {
        if frontPos + capacity / TRIM_FRACTION <= sentIt {
          ghost var v := Snapshot();
          TrimKeeps(v);
          var n := capacity / TRIM_FRACTION;
          trimmed := trimmed + outboxMsg[..n];
          outboxMsg := outboxMsg[n..];
          frontPos := frontPos + n;
          assert Log() == old(Log());
          assert Snapshot() == v.(front := v.front + Chunk(v));
        }
      }
    }
  }
}
