/** What replay cannot do: clients that come late, messages lost at the end, and a message handed on in two steps. */
module ReplayLimits {
  import opened Words
  import opened ReplayProtocol
  import opened ReplaySystem

  // ---- a client that needs something already trimmed ----

  /** The first thing on the replay path is a refusal, or a request for something that is trimmed. */
  predicate HeadIsLost(v: Server, x: Session) {
    if x.client.replies != [] then x.client.replies[0].Refusal?
    else if x.wire != [] then x.wire[0].Refusal?
    else x.requests != [] && x.requests[0].begin < v.front
  }

  /** And it stands for the very message the client is to deliver next. */
  predicate Stuck(v: Server, x: Session) {
    HeadIsLost(v, x) && Pending(x) != [] && Pending(x)[0] == x.client.nextOrdered
  }

  lemma StuckMicro(v: Server, x: Session, m: Micro)
    requires ServerInv(v) && SessionInv(v, x) && Stuck(v, x) && MicroEnabled(x.client, m)
    ensures Stuck(v, x.(client := MicroStep(x.client, m)))
    ensures MicroStep(x.client, m).nextOrdered == x.client.nextOrdered
  {
    var c, e := x.client, MicroStep(x.client, m);
    assert Pending(x)[0] in Pending(x);
    match m
    case Drain => assert e == c.(good := false);
    case Deliver(j) =>
      GenuineIsRun(v, c.buffers[j]);
      assert InUndelivered(c, j, c.nextOrdered);
      assert false;
    case DropFront =>
    case Take(n) =>
  }

  lemma StuckServe(v: Server, x: Session)
    requires ServerInv(v) && SessionInv(v, x) && Stuck(v, x) && x.requests != [] && Answerable(v, x.requests[0])
    ensures Stuck(v, ServeOne(v, x))
  {
    var r, answer := x.requests[0], Answer(v, x.requests[0]);
    assert r in x.requests;
    AnswerNumbers(v, r);
    ServeKeepsPending(x, ServeOne(v, x), answer);
  }

  lemma StuckSession(s: State, step: Step, i: nat)
    requires Inv(s) && Enabled(s, step) && i < |s.sessions| && Stuck(s.server, s.sessions[i])
    requires step.Serve? || step.Arrive? || step.ReadDatagram? || step.Unpacking?
    ensures |Next(s, step).sessions| == |s.sessions| && Stuck(s.server, Next(s, step).sessions[i])
    ensures Next(s, step).sessions[i].client.nextOrdered == s.sessions[i].client.nextOrdered
  {
    var v, x := s.server, s.sessions[i];
    match step
    case Serve(k) =>
      if k == i {
        StuckServe(v, x);
      }
    case Arrive(k) =>
      if k == i {
        ArriveKeepsPending(x);
      }
    case ReadDatagram(k, d) =>
      if k == i {
        StuckRead(v, x, v.aired[d]);
      }
    case Unpacking(k, m) =>
      if k == i {
        StuckMicro(v, x, m);
      }
  }

  lemma StuckRead(v: Server, x: Session, f: seq<Msg>)
    requires ServerInv(v) && PathInv(v, x) && Genuine(v.log, f) && IsRun(f) && Stuck(v, x)
    ensures Stuck(v, ReadOne(x, f)) && ReadOne(x, f).client.nextOrdered == x.client.nextOrdered
  {
    hide ServerInv, PathInv, Genuine, Pending;
    if x.client.nextExpected <= First(f) {
      ReadAsks(v, x, f);
    } else {
      assert ReadOne(x, f) == x;
    }
  }

  lemma StuckStep(s: State, step: Step, i: nat)
    requires Inv(s) && Enabled(s, step) && i < |s.sessions| && Stuck(s.server, s.sessions[i])
    ensures var t := Next(s, step);
            && i < |t.sessions| && Stuck(t.server, t.sessions[i])
            && t.sessions[i].client.nextOrdered == s.sessions[i].client.nextOrdered
  {
    if step.Serve? || step.Arrive? || step.ReadDatagram? || step.Unpacking? {
      StuckSession(s, step, i);
    } else {
      assert s.server.front <= Next(s, step).server.front;
      assert Next(s, step).sessions[i] == s.sessions[i];
    }
  }

  /** Then nothing that ever happens delivers another message to it. */
  lemma {:induction false} StuckForever(s: State, steps: seq<Step>, r: State, i: nat)
    requires Inv(s) && Reaches(s, steps, r) && i < |s.sessions| && Stuck(s.server, s.sessions[i])
    ensures i < |r.sessions| && Stuck(r.server, r.sessions[i])
    ensures r.sessions[i].client.nextOrdered == s.sessions[i].client.nextOrdered
    decreases |steps|
  {
    if steps != [] {
      StuckStep(s, steps[0], i);
      StepKeeps(s, steps[0]);
      StuckForever(Next(s, steps[0]), steps[1..], r, i);
    }
  }

  lemma FirstGapIsStuck(v: Server, f: seq<Msg>)
    requires IsRun(f) && 0 < First(f) && 0 < v.front
    ensures var y := ReadOne(Session(FRESH_CLIENT, [], []), f);
            Stuck(v, y) && y.client.nextOrdered == 0 && y.requests == [Request(1, 0, First(f))]
  {
    var q := Request(1, 0, First(f));
    var y := ReadOne(Session(FRESH_CLIENT, [], []), f);
    assert y.requests == [] + [q] == [q] && y.client.replies == [] && y.wire == [];
    RequestNumbersSnoc([], q);
    RangeFacts(0, First(f));
    assert Pending(y)[0] == Range(0, First(f))[0];
  }

  /**
    A client that joins once something is trimmed: unless the first datagram it reads begins with
    message 0, it asks for messages from 0 on, is refused, and never delivers anything.
   */
  lemma LateJoinerIsLost(capacity: nat, steps: seq<Step>, s: State, i: nat, d: nat, later: seq<Step>, r: State)
    requires Reaches(Initial(capacity), steps, s) && i < |s.sessions|
    requires s.sessions[i] == Session(FRESH_CLIENT, [], []) && 0 < s.server.front
    requires Enabled(s, ReadDatagram(i, d)) && 0 < First(s.server.aired[d])
    requires Reaches(Next(s, ReadDatagram(i, d)), later, r)
    ensures Next(s, ReadDatagram(i, d)).sessions[i].requests == [Request(1, 0, First(s.server.aired[d]))]
    ensures i < |r.sessions| && r.sessions[i].client.inbox == []
  {
    ReachableInv(capacity, steps, s);
    hide Inv, ServerInv, SessionInv, Stuck, Reaches, ReadOne;
    var t := Next(s, ReadDatagram(i, d));
    StepKeeps(s, ReadDatagram(i, d));
    FirstGapIsStuck(s.server, s.server.aired[d]);
    StuckForever(t, later, r, i);
    RunKeeps(t, later, r);
    InboxIsPrefix(r, i);
  }

  lemma InboxIsPrefix(s: State, i: nat)
    requires Inv(s) && i < |s.sessions|
    ensures |s.sessions[i].client.inbox| == s.sessions[i].client.nextOrdered
  {
  }

  // ---- messages lost at the end ----

  /** What a client expects next; nothing yet if it has not joined. */
  function Expected(s: State, i: nat): nat {
    if i < |s.sessions| then s.sessions[i].client.nextExpected else 0
  }

  /** How far the datagrams reach that client i reads in a run, or n if none reaches further. */
  ghost function Furthest(s: State, steps: seq<Step>, r: State, i: nat, n: nat): nat
    requires Reaches(s, steps, r)
    decreases |steps|
  {
    if steps == [] then n
    else
      var m := if steps[0].ReadDatagram? && steps[0].i == i then Last(s.server.aired[steps[0].d]) + 1 else 0;
      Furthest(Next(s, steps[0]), steps[1..], r, i, if n < m then m else n)
  }

  lemma ExpectedStep(s: State, step: Step, i: nat)
    requires Inv(s) && Enabled(s, step)
    ensures |s.sessions| <= |Next(s, step).sessions|
    ensures step.ReadDatagram? && step.i == i ==>
              var end := Last(s.server.aired[step.d]) + 1;
              Expected(Next(s, step), i) == if Expected(s, i) < end then end else Expected(s, i)
    ensures !(step.ReadDatagram? && step.i == i) ==> Expected(Next(s, step), i) == Expected(s, i)
  {
    if step.ReadDatagram? && step.i == i {
      BehindOrBeyond(s.server, s.sessions[i].client, step.d);
    }
  }

  lemma {:induction false} ExpectedIsFurthest(s: State, steps: seq<Step>, r: State, i: nat)
    requires Inv(s) && Reaches(s, steps, r)
    ensures Expected(r, i) == Furthest(s, steps, r, i, Expected(s, i))
    decreases |steps|
  {
    if steps != [] {
      ExpectedStep(s, steps[0], i);
      StepKeeps(s, steps[0]);
      ExpectedIsFurthest(Next(s, steps[0]), steps[1..], r, i);
    }
  }

  lemma {:induction false} RequestsArePending(rs: seq<Request>, q: Request)
    requires q in rs && q.begin < q.end
    ensures q.end - 1 in RequestNumbers(rs)
  {
    if rs[0] == q {
      RangeFacts(q.begin, q.end);
    } else {
      RequestsArePending(rs[1..], q);
    }
  }

  /** No request reaches beyond the furthest datagram read: what is lost behind it is not asked for. */
  lemma TailIsNotAskedFor(capacity: nat, steps: seq<Step>, r: State, i: nat, q: Request)
    requires Reaches(Initial(capacity), steps, r) && i < |r.sessions| && q in r.sessions[i].requests
    ensures q.end <= Furthest(Initial(capacity), steps, r, i, 0)
  {
    InitialInv(capacity);
    ReachableInv(capacity, steps, r);
    ExpectedIsFurthest(Initial(capacity), steps, r, i);
    var x := r.sessions[i];
    RequestsArePending(x.requests, q);
    assert q.end - 1 in Pending(x);
  }

  /** Nothing is on the replay path any more, and every buffered frame is delivered. */
  predicate Settled(x: Session) {
    && x.requests == [] && x.wire == [] && x.client.replies == []
    && forall j | 0 <= j < |x.client.buffers| ::
         x.client.buffers[j] != [] ==> First(x.client.buffers[j]) < x.client.nextOrdered
  }

  lemma SettledIsCaughtUp(v: Server, x: Session)
    requires SessionInv(v, x) && Settled(x)
    ensures x.client.nextOrdered == x.client.nextExpected
  {
    assert Pending(x) == [];
    assert !Buffered(x.client, x.client.nextOrdered);
  }

  /** Once all is served and unpacked, the inbox ends exactly where the furthest datagram read does. */
  lemma InboxEndsAtFurthest(capacity: nat, steps: seq<Step>, r: State, i: nat)
    requires Reaches(Initial(capacity), steps, r) && i < |r.sessions| && Settled(r.sessions[i])
    ensures var end := Furthest(Initial(capacity), steps, r, i, 0);
            end <= |r.server.log| && r.sessions[i].client.inbox == r.server.log[..end]
  {
    InitialInv(capacity);
    ReachableInv(capacity, steps, r);
    hide SessionInv, Settled, Furthest, Reaches, ServerInv;
    ExpectedIsFurthest(Initial(capacity), steps, r, i);
    SettledIsCaughtUp(r.server, r.sessions[i]);
    InboxIsPublishedPrefix(capacity, steps, r, i);
  }

  // ---- "push_back(*sent_it++)" in two steps ----

  /** What the slot of message n holds: the newest message published into it. */
  function SlotHolds(log: seq<Msg>, n: nat, capacity: nat): Msg
    requires n < |log| && 0 < capacity
    decreases |log| - n
  {
    if n + capacity < |log| then SlotHolds(log, n + capacity, capacity) else log[n]
  }

  /** Steps of other threads than the one that hands on, packs and airs. */
  predicate Elsewhere(steps: seq<Step>) {
    forall step | step in steps :: !step.Hand? && !step.Pack? && !step.Air?
  }

  lemma {:induction false} SentStays(s: State, steps: seq<Step>, r: State)
    requires Reaches(s, steps, r) && Elsewhere(steps)
    ensures r.server.sent == s.server.sent && r.server.capacity == s.server.capacity && s.server.log <= r.server.log
    decreases |steps|
  {
    if steps != [] {
      assert steps[0] in steps;
      assert forall step | step in steps[1..] :: step in steps;
      assert s.server.log <= Next(s, steps[0]).server.log;
      SentStays(Next(s, steps[0]), steps[1..], r);
    }
  }

  /**
    sent_it moves first and the message it pointed to is copied after.  Whatever the other threads do
    in between, what is copied is that message if and only if no message was published into its slot;
    and if one was, everything up to that message had been trimmed in between.
   */
  lemma HandCopiesExactly(capacity: nat, before: seq<Step>, s: State, steps: seq<Step>, r: State)
    requires Reaches(Initial(capacity), before, s) && Enabled(s, Hand)
    requires Reaches(Next(s, Hand), steps, r) && Elsewhere(steps)
    ensures var n := s.server.sent;
            && n < |s.server.log| && n < |r.server.log| && 0 < r.server.capacity
            && (SlotHolds(r.server.log, n, r.server.capacity) == s.server.log[n]
                <==> |r.server.log| <= n + r.server.capacity)
            && (n + r.server.capacity < |r.server.log| ==> s.server.front <= n < r.server.front)
  {
    ReachableInv(capacity, before, s);
    StepKeeps(s, Hand);
    SentStays(Next(s, Hand), steps, r);
    RunKeeps(Next(s, Hand), steps, r);
    var log, n := r.server.log, s.server.sent;
    if n + r.server.capacity < |log| {
      assert log[n].seqNo == n;
      SlotHoldsLater(log, n + r.server.capacity, r.server.capacity);
    }
  }

  lemma {:induction false} SlotHoldsLater(log: seq<Msg>, n: nat, capacity: nat)
    requires n < |log| && 0 < capacity && forall k | 0 <= k < |log| :: log[k].seqNo == k
    ensures n <= SlotHolds(log, n, capacity).seqNo
    decreases |log| - n
  {
    if n + capacity < |log| {
      SlotHoldsLater(log, n + capacity, capacity);
    }
  }

  /** A server that has published n messages and done nothing else. */
  function JustPublished(capacity: nat, n: nat): State {
    State(Server(capacity, seq(n, (i: nat) => Msg(i, [])), 0, 0, 0, [], []), [])
  }

  lemma {:induction false} PublishRun(capacity: nat, n: nat, m: nat) returns (steps: seq<Step>)
    requires n + m <= capacity
    ensures Reaches(JustPublished(capacity, n), steps, JustPublished(capacity, n + m))
    decreases m
  {
    if m == 0 {
      steps := [];
    } else {
      assert Next(JustPublished(capacity, n), Publish([])) == JustPublished(capacity, n + 1);
      var rest := PublishRun(capacity, n + 1, m - 1);
      steps := [Publish([])] + rest;
      ReachesCons(JustPublished(capacity, n), Publish([]), rest, JustPublished(capacity, n + m));
    }
  }

  /** The witness: a full log of 1024, the first message in hand, one trim and one more publication. */
  lemma HandCanCopyAnother() returns (before: seq<Step>, s: State, r: State)
    ensures Reaches(Initial(1024), before, s) && Enabled(s, Hand)
    ensures Reaches(Next(s, Hand), [Trim, Publish([])], r) && Elsewhere([Trim, Publish([])])
    ensures s.server.sent == 0 && SlotHolds(r.server.log, 0, 1024).seqNo == 1024
  {
    s := JustPublished(1024, 1024);
    before := PublishRun(1024, 0, 1024);
    assert Initial(1024) == JustPublished(1024, 0);
    var t := Next(Next(s, Hand), Trim);
    r := Next(t, Publish([]));
    ReachesCons(t, Publish([]), [], r);
    ReachesCons(Next(s, Hand), Trim, [Publish([])], r);
    assert [Trim] + [Publish([])] == [Trim, Publish([])];
    assert r.server.log[1024].seqNo == 1024;
  }
}
