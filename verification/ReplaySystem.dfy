/**
  The whole system: one publisher, a network that loses, repeats and reorders datagrams, and any
  number of clients, each with its own reliable first-in first-out replay connection.
 */
module ReplaySystem {
  import opened Words
  import opened ReplayProtocol

  datatype Session = Session(
    client: Client,
    requests: seq<Request>,   // on their way to the server
    wire: seq<Reply>)         // on their way to the client

  datatype State = State(server: Server, sessions: seq<Session>)

  datatype Step =
    | Publish(body: seq<byte>)
    | Hand                          // one message from the log to the multicast queue
    | Pack(k: nat)                  // k queued messages into the empty send buffer
    | Air                           // sendto takes the buffer
    | Trim
    | Join                          // a client connects
    | Serve(i: nat)                 // the server answers the first request of session i
    | Arrive(i: nat)                // a reply reaches client i
    | ReadDatagram(i: nat, d: nat)  // client i reads a copy of the d-th datagram: any one, any number of times
    | Unpacking(i: nat, m: Micro)   // a piece of client i's unpack, or a pop by its application

  /** The guards of the source; waiting loops are guards too. */
  predicate Enabled(s: State, step: Step) {
    var v := s.server;
    match step
    case Publish(_) => |v.log| - v.front < v.capacity
    case Hand => v.sent < |v.log| && v.sent - v.packed < QUEUE
    case Pack(k) => v.buffer == [] && k <= DATAGRAM_BYTES && v.packed + k <= v.sent && v.packed + k <= |v.log|
    case Air => v.buffer != []
    case Trim => TrimDue(v)
    case Join => true
    case Serve(i) => i < |s.sessions| && s.sessions[i].requests != [] && Answerable(v, s.sessions[i].requests[0])
    case Arrive(i) => i < |s.sessions| && s.sessions[i].wire != [] && |s.sessions[i].client.replies| < REPLIES
    case ReadDatagram(i, d) =>
      && i < |s.sessions| && d < |v.aired| && IsRun(v.aired[d])
      && s.sessions[i].client.good && |s.sessions[i].client.buffers| < BUFFERS
    case Unpacking(i, m) => i < |s.sessions| && MicroEnabled(s.sessions[i].client, m)
  }

  function PublishOne(v: Server, body: seq<byte>): Server {
    v.(log := v.log + [Msg(|v.log|, body)])
  }

  function PackSome(v: Server, k: nat): Server
    requires v.packed + k <= |v.log|
  {
    v.(buffer := v.log[v.packed..v.packed + k], packed := v.packed + k)
  }

  function AirBuffer(v: Server): Server {
    v.(aired := v.aired + [v.buffer], buffer := [])
  }

  function ServeOne(v: Server, x: Session): Session
    requires x.requests != [] && Answerable(v, x.requests[0])
  {
    x.(requests := x.requests[1..], wire := x.wire + Answer(v, x.requests[0]))
  }

  function ArriveOne(x: Session): Session
    requires x.wire != []
  {
    x.(wire := x.wire[1..], client := x.client.(replies := x.client.replies + [x.wire[0]]))
  }

  function ReadOne(x: Session, f: seq<Msg>): Session
    requires IsRun(f)
  {
    var (c, asked) := ReadFrame(x.client, f);
    x.(client := c, requests := x.requests + asked)
  }

  function Next(s: State, step: Step): State
    requires Enabled(s, step)
  {
    var v := s.server;
    match step
    case Publish(body) => s.(server := PublishOne(v, body))
    case Hand => s.(server := v.(sent := v.sent + 1))
    case Pack(k) => s.(server := PackSome(v, k))
    case Air => s.(server := AirBuffer(v))
    case Trim => s.(server := v.(front := v.front + Chunk(v)))
    case Join => s.(sessions := s.sessions + [Session(FRESH_CLIENT, [], [])])
    case Serve(i) => s.(sessions := s.sessions[i := ServeOne(v, s.sessions[i])])
    case Arrive(i) => s.(sessions := s.sessions[i := ArriveOne(s.sessions[i])])
    case ReadDatagram(i, d) => s.(sessions := s.sessions[i := ReadOne(s.sessions[i], v.aired[d])])
    case Unpacking(i, m) =>
      s.(sessions := s.sessions[i := s.sessions[i].(client := MicroStep(s.sessions[i].client, m))])
  }

  function Initial(capacity: nat): State {
    State(Server(capacity, [], 0, 0, 0, [], []), [])
  }

  ghost predicate Reaches(s: State, steps: seq<Step>, r: State)
    decreases |steps|
  {
    if steps == [] then r == s
    else Enabled(s, steps[0]) && Reaches(Next(s, steps[0]), steps[1..], r)
  }

  // ---- numbers on the replay path ----

  /** b, b + 1, ..., e - 1 */
  function Range(b: nat, e: nat): seq<nat>
    decreases e - b
  {
    if b >= e then [] else [b] + Range(b + 1, e)
  }

  lemma {:induction false} RangeFacts(b: nat, e: nat)
    requires b <= e
    ensures |Range(b, e)| == e - b
    ensures forall i | 0 <= i < e - b :: Range(b, e)[i] == b + i
    ensures forall n :: n in Range(b, e) <==> b <= n < e
    decreases e - b
  {
    if b < e {
      RangeFacts(b + 1, e);
    }
  }

  predicate Proper(r: Request) {
    r.begin < r.end
  }

  /** The sequence numbers a reply stands for; a refusal stands for everything its request asked for. */
  function NumbersOf(p: Reply): seq<nat> {
    if p.Payload? then [p.msg.seqNo] else Range(p.request.begin, p.request.end)
  }

  function ReplyNumbers(ps: seq<Reply>): seq<nat> {
    if ps == [] then [] else NumbersOf(ps[0]) + ReplyNumbers(ps[1..])
  }

  function RequestNumbers(rs: seq<Request>): seq<nat> {
    if rs == [] then [] else Range(rs[0].begin, rs[0].end) + RequestNumbers(rs[1..])
  }

  lemma {:induction false} ReplyNumbersConcat(a: seq<Reply>, b: seq<Reply>)
    ensures ReplyNumbers(a + b) == ReplyNumbers(a) + ReplyNumbers(b)
    decreases |a|
  {
    if a == [] {
      assert a + b == b;
    } else {
      assert (a + b)[0] == a[0] && (a + b)[1..] == a[1..] + b;
      ReplyNumbersConcat(a[1..], b);
      ConcatAssoc(NumbersOf(a[0]), ReplyNumbers(a[1..]), ReplyNumbers(b));
    }
  }

  lemma {:induction false} RequestNumbersSnoc(rs: seq<Request>, r: Request)
    ensures RequestNumbers(rs + [r]) == RequestNumbers(rs) + Range(r.begin, r.end)
    decreases |rs|
  {
    if rs == [] {
      assert [r][1..] == [];
    } else {
      assert (rs + [r])[0] == rs[0] && (rs + [r])[1..] == rs[1..] + [r];
      RequestNumbersSnoc(rs[1..], r);
      ConcatAssoc(Range(rs[0].begin, rs[0].end), RequestNumbers(rs[1..]), Range(r.begin, r.end));
    }
  }

  lemma {:induction false} PayloadNumbers(reqId: nat, msgs: seq<Msg>, b: nat)
    requires forall k | 0 <= k < |msgs| :: msgs[k].seqNo == b + k
    ensures ReplyNumbers(Payloads(reqId, msgs)) == Range(b, b + |msgs|)
    decreases |msgs|
  {
    if msgs != [] {
      PayloadNumbers(reqId, msgs[1..], b + 1);
      assert Payloads(reqId, msgs)[1..] == Payloads(reqId, msgs[1..]);
    }
  }

  // ---- the invariant ----

  function End(f: seq<Msg>): nat
    requires f != []
  {
    First(f) + |f|
  }

  /** A frame holds exactly the published messages its numbers say. */
  predicate Genuine(log: seq<Msg>, f: seq<Msg>) {
    f != [] && End(f) <= |log| && f == log[First(f)..End(f)]
  }

  /** The log is numbered from 0, and what is in the ring is empty only if nothing was ever published. */
  predicate Numbered(v: Server) {
    && (forall n | 0 <= n < |v.log| :: v.log[n].seqNo == n)
    && v.front <= |v.log| && (v.log != [] ==> v.front < |v.log|)
  }

  predicate ServerInv(v: Server) {
    && Numbered(v)
    && v.front <= v.sent <= |v.log| <= v.front + v.capacity
    && v.packed <= v.sent
    && |v.buffer| <= v.packed && v.buffer == v.log[v.packed - |v.buffer|..v.packed]
    && |v.buffer| <= DATAGRAM_BYTES
    && (forall d | 0 <= d < |v.aired| ::
          Genuine(v.log, v.aired[d]) && End(v.aired[d]) <= v.AiredEnd() && |v.aired[d]| <= DATAGRAM_BYTES)
    && (forall d, e | 0 <= d < e < |v.aired| ::
          v.aired[d] != [] && v.aired[e] != [] && End(v.aired[d]) <= First(v.aired[e]))
  }

  /** The numbers still to come over the replay connection, in the order they will. */
  function Pending(x: Session): seq<nat> {
    ReplyNumbers(x.client.replies) + ReplyNumbers(x.wire) + RequestNumbers(x.requests)
  }

  /** The number n is in a buffered frame that is not yet delivered. */
  predicate Buffered(c: Client, n: nat) {
    exists j :: 0 <= j < |c.buffers| && InUndelivered(c, j, n)
  }

  predicate InUndelivered(c: Client, j: nat, n: nat)
    requires j < |c.buffers|
  {
    c.buffers[j] != [] && c.nextOrdered <= First(c.buffers[j]) <= n < End(c.buffers[j])
  }

  predicate FramesInv(v: Server, c: Client) {
    && (forall j | 0 <= j < |c.buffers| ::
          && Genuine(v.log, c.buffers[j])
          && |c.buffers[j]| <= DATAGRAM_BYTES
          && End(c.buffers[j]) <= c.nextExpected
          && (End(c.buffers[j]) <= c.nextOrdered || c.nextOrdered <= First(c.buffers[j])))
    && (forall j, k | 0 <= j < k < |c.buffers| ::
          c.buffers[j] != [] && c.buffers[k] != [] && End(c.buffers[j]) <= First(c.buffers[k]))
  }

  predicate Increasing(ns: seq<nat>) {
    forall i, j | 0 <= i < j < |ns| :: ns[i] < ns[j]
  }

  /** Between what is delivered and what is expected, every number is on its way exactly once. */
  predicate Partition(c: Client, pending: seq<nat>) {
    && Increasing(pending)
    && (forall n :: n in pending ==> c.nextOrdered <= n < c.nextExpected && !Buffered(c, n))
    && (forall n :: c.nextOrdered <= n < c.nextExpected ==> n in pending || Buffered(c, n))
  }

  /** A client asks only for numbers below one that is published. */
  predicate RequestsInv(v: Server, x: Session) {
    forall r | r in x.requests :: Proper(r) && r.end < |v.log|
  }

  predicate Authentic(v: Server, p: Reply) {
    p.Payload? ==> p.msg.seqNo < |v.log| && p.msg == v.log[p.msg.seqNo]
  }

  predicate ClientInv(v: Server, c: Client) {
    && c.nextOrdered <= c.nextExpected <= v.AiredEnd() <= |v.log|
    && c.inbox == v.log[..c.nextOrdered]
    && c.taken <= |c.inbox| <= c.taken + INBOX
    && (forall d | 0 <= d < |v.aired| ::
          v.aired[d] != [] && (End(v.aired[d]) <= c.nextExpected || c.nextExpected <= First(v.aired[d])))
    && FramesInv(v, c)
  }

  predicate PathInv(v: Server, x: Session) {
    && RequestsInv(v, x)
    && (forall p | p in x.client.replies :: Authentic(v, p))
    && (forall p | p in x.wire :: Authentic(v, p))
  }

  predicate SessionInv(v: Server, x: Session) {
    ClientInv(v, x.client) && PathInv(v, x) && Partition(x.client, Pending(x))
  }

  predicate Inv(s: State) {
    ServerInv(s.server) && forall i | 0 <= i < |s.sessions| :: SessionInv(s.server, s.sessions[i])
  }

  // ---- the server's own steps keep it ----

  lemma GenuineIsRun(v: Server, f: seq<Msg>)
    requires ServerInv(v) && Genuine(v.log, f)
    ensures IsRun(f) && Last(f) + 1 == End(f)
    ensures forall k | 0 <= k < |f| :: f[k] == v.log[First(f) + k]
  {
    assert forall k | 0 <= k < |f| :: f[k] == v.log[First(f) + k];
  }

  lemma GenuineGrows(log: seq<Msg>, longer: seq<Msg>, f: seq<Msg>)
    requires log <= longer && Genuine(log, f)
    ensures Genuine(longer, f)
  {
    assert longer[..|log|] == log;
    assert longer[First(f)..End(f)] == log[First(f)..End(f)];
  }

  /** What one server state may become without disturbing a client. */
  predicate Grows(v: Server, w: Server) {
    && v.log <= w.log
    && v.AiredEnd() <= w.AiredEnd() <= |w.log|
    && v.aired <= w.aired
    && (forall d | |v.aired| <= d < |w.aired| :: w.aired[d] != [] && v.AiredEnd() <= First(w.aired[d]))
  }

  lemma PublishKeeps(v: Server, body: seq<byte>)
    requires ServerInv(v) && |v.log| - v.front < v.capacity
    ensures ServerInv(PublishOne(v, body)) && Grows(v, PublishOne(v, body))
  {
    var w := PublishOne(v, body);
    forall d | 0 <= d < |v.aired|
      ensures Genuine(w.log, v.aired[d])
    {
      GenuineGrows(v.log, w.log, v.aired[d]);
    }
    assert w.log[v.packed - |v.buffer|..v.packed] == v.log[v.packed - |v.buffer|..v.packed];
  }

  lemma PackKeeps(v: Server, k: nat)
    requires ServerInv(v) && v.buffer == [] && k <= DATAGRAM_BYTES && v.packed + k <= v.sent
    ensures ServerInv(PackSome(v, k)) && Grows(v, PackSome(v, k))
  {
  }

  lemma AirKeeps(v: Server)
    requires ServerInv(v) && v.buffer != []
    ensures ServerInv(AirBuffer(v)) && Grows(v, AirBuffer(v))
  {
    var w := AirBuffer(v);
    assert First(v.buffer) == v.AiredEnd();
    assert Genuine(w.log, v.buffer);
  }

  /** Trimming keeps everything that is not yet handed to multicast, and leaves the log non-empty. */
  lemma TrimKeeps(v: Server)
    requires ServerInv(v) && TrimDue(v)
    ensures ServerInv(v.(front := v.front + Chunk(v))) && Grows(v, v.(front := v.front + Chunk(v)))
    ensures v.front + Chunk(v) < |v.log|
  {
    assert 2 * Chunk(v) <= v.capacity;
  }

  /** The messages reach a client unchanged, whatever the server does meanwhile. */
  lemma GrowthKeepsSession(v: Server, w: Server, x: Session)
    requires ServerInv(v) && SessionInv(v, x) && Grows(v, w)
    ensures SessionInv(w, x)
  {
    var c := x.client;
    forall j | 0 <= j < |c.buffers|
      ensures Genuine(w.log, c.buffers[j])
    {
      GenuineGrows(v.log, w.log, c.buffers[j]);
    }
    assert w.log[..c.nextOrdered] == v.log[..c.nextOrdered];
    forall d | 0 <= d < |w.aired|
      ensures w.aired[d] != [] && (End(w.aired[d]) <= c.nextExpected || c.nextExpected <= First(w.aired[d]))
    {
      if d < |v.aired| {
        assert w.aired[d] == v.aired[d];
      }
    }
  }

  // ---- the replay connection ----

  /** "for ( ; it != end ; ++it)": what the copying loop sends, or None if it runs past the end of the log. */
  function CopyFrom(v: Server, reqId: nat, it: nat, end: int): Option<seq<Reply>>
    requires it <= |v.log|
    decreases |v.log| - it
  {
    if it == end then Some([])
    else if it == |v.log| then None
    else
      var rest := CopyFrom(v, reqId, it + 1, end);
      if rest.None? then None else Some([Payload(reqId, v.log[it])] + rest.value)
  }

  lemma PayloadsCons(v: Server, reqId: nat, it: nat, end: nat)
    requires it < end <= |v.log|
    ensures Payloads(reqId, v.log[it..end]) == [Payload(reqId, v.log[it])] + Payloads(reqId, v.log[it + 1..end])
  {
  }

  lemma {:induction false} CopyFromIs(v: Server, reqId: nat, it: nat, end: int)
    requires it <= |v.log| && end <= |v.log|
    ensures CopyFrom(v, reqId, it, end) == if end < it then None else Some(Payloads(reqId, v.log[it..end]))
    decreases |v.log| - it
  {
    if it != end && it != |v.log| {
      CopyFromIs(v, reqId, it + 1, end);
      if it < end {
        PayloadsCons(v, reqId, it, end);
      }
    }
  }

  /** unpack() of the server on one request: the two tests, and the loop. */
  function Served(v: Server, r: Request): Option<seq<Reply>>
    requires Numbered(v)
  {
    if TooOld(v, r.begin) || TooOld(v, r.end) then Some([Refusal(r, 2, r.end, r.end)])
    else if TooNew(v, r.begin) || TooNew(v, r.end) then Some([Refusal(r, 1, r.begin, r.begin)])
    else CopyFrom(v, r.reqId, PositionOf(v, r.begin), PositionOf(v, r.end))
  }

  /** The loop leaves the log exactly on a request with both ends in the log the wrong way round. */
  lemma AnswerableExactly(v: Server, r: Request)
    requires Numbered(v)
    ensures Answerable(v, r) <==> Served(v, r).Some?
    ensures Answerable(v, r) <==> !(v.front <= r.end < r.begin < |v.log|)
    ensures Answerable(v, r) ==> Served(v, r).value == Answer(v, r)
  {
    assert v.log == [] ==> v.front == |v.log|;
    if v.front <= r.begin < |v.log| && v.front <= r.end < |v.log| {
      CopyFromIs(v, r.reqId, r.begin, r.end);
    }
  }

  /**
    A request is answered by one refusal, because an end of it is trimmed or not yet published, or by
    exactly the messages it asks for, in order, or the loop runs past the log.
   */
  lemma AnswerIsRefusalOrMessages(v: Server, r: Request)
    requires Numbered(v)
    ensures Served(v, r) ==
            if v.log == [] || r.begin < v.front || r.end < v.front then Some([Refusal(r, 2, r.end, r.end)])
            else if |v.log| <= r.begin || |v.log| <= r.end then Some([Refusal(r, 1, r.begin, r.begin)])
            else if r.end < r.begin then None
            else Some(Payloads(r.reqId, v.log[r.begin..r.end]))
  {
    assert v.log == [] ==> v.front == |v.log|;
    if v.front <= r.begin < |v.log| && v.front <= r.end < |v.log| {
      CopyFromIs(v, r.reqId, r.begin, r.end);
    }
  }

  lemma AnswerIs(v: Server, r: Request)
    requires Numbered(v) && !(v.front <= r.end < r.begin < |v.log|)
    ensures Answerable(v, r)
    ensures Answer(v, r) ==
            if v.log == [] || r.begin < v.front || r.end < v.front then [Refusal(r, 2, r.end, r.end)]
            else if |v.log| <= r.begin || |v.log| <= r.end then [Refusal(r, 1, r.begin, r.begin)]
            else Payloads(r.reqId, v.log[r.begin..r.end])
  {
    AnswerableExactly(v, r);
    AnswerIsRefusalOrMessages(v, r);
  }

  lemma AnswerNumbers(v: Server, r: Request)
    requires ServerInv(v) && Proper(r) && r.end < |v.log|
    ensures Answerable(v, r)
    ensures ReplyNumbers(Answer(v, r)) == Range(r.begin, r.end)
    ensures forall p | p in Answer(v, r) :: Authentic(v, p)
  {
    AnswerIs(v, r);
    if v.front <= r.begin {
      PayloadNumbers(r.reqId, v.log[r.begin..r.end], r.begin);
    } else {
      var a := Answer(v, r);
      assert a == [a[0]] && a[1..] == [];
    }
  }

  /** The numbers asked for move from the requests to the wire. */
  lemma ServeKeepsPending(x: Session, y: Session, answer: seq<Reply>)
    requires x.requests != [] && y == x.(requests := x.requests[1..], wire := x.wire + answer)
    requires ReplyNumbers(answer) == Range(x.requests[0].begin, x.requests[0].end)
    ensures Pending(y) == Pending(x)
  {
    var a, b := ReplyNumbers(x.client.replies), ReplyNumbers(x.wire);
    var c, d := ReplyNumbers(answer), RequestNumbers(y.requests);
    ReplyNumbersConcat(x.wire, answer);
    ConcatAssoc(a, b, c);
    ConcatAssoc(a + b, c, d);
  }

  lemma ServeKeeps(v: Server, x: Session)
    requires ServerInv(v) && SessionInv(v, x) && x.requests != []
    ensures Answerable(v, x.requests[0]) && SessionInv(v, ServeOne(v, x))
  {
    var r := x.requests[0];
    assert r in x.requests;
    AnswerNumbers(v, r);
    var y, answer := ServeOne(v, x), Answer(v, r);
    hide Answer, ServerInv;
    ServeKeepsPending(x, y, answer);
    assert PathInv(v, y) by {
      forall p | p in y.wire
        ensures Authentic(v, p)
      {
        assert p in x.wire || p in answer;
      }
      assert forall q | q in y.requests :: q in x.requests;
    }
  }

  /** Only nextOrdered and the frames matter to what is buffered. */
  lemma SameFrames(c: Client, e: Client)
    requires c.buffers == e.buffers && c.nextOrdered == e.nextOrdered
    ensures forall n: nat :: Buffered(c, n) <==> Buffered(e, n)
  {
    forall n: nat
      ensures Buffered(c, n) <==> Buffered(e, n)
    {
      if Buffered(c, n) {
        var j :| 0 <= j < |c.buffers| && InUndelivered(c, j, n);
        assert InUndelivered(e, j, n);
      }
      if Buffered(e, n) {
        var j :| 0 <= j < |e.buffers| && InUndelivered(e, j, n);
        assert InUndelivered(c, j, n);
      }
    }
  }

  lemma SamePartition(v: Server, c: Client, e: Client, pending: seq<nat>)
    requires ClientInv(v, c) && Partition(c, pending)
    requires e == c.(replies := e.replies, good := e.good, taken := e.taken)
    requires e.taken <= |e.inbox| <= e.taken + INBOX
    ensures ClientInv(v, e) && Partition(e, pending)
  {
    SameFrames(c, e);
  }

  lemma ArriveKeepsPending(x: Session)
    requires x.wire != []
    ensures Pending(ArriveOne(x)) == Pending(x)
  {
    var p := x.wire[0];
    ReplyNumbersConcat(x.client.replies, [p]);
    SingleNumbers(p);
    ConcatAssoc(ReplyNumbers(x.client.replies), NumbersOf(p), ReplyNumbers(x.wire[1..]));
  }

  lemma SingleNumbers(p: Reply)
    ensures ReplyNumbers([p]) == NumbersOf(p)
  {
    assert [p][1..] == [];
  }

  lemma ArriveKeeps(v: Server, x: Session)
    requires SessionInv(v, x) && x.wire != []
    ensures SessionInv(v, ArriveOne(x))
  {
    var y := ArriveOne(x);
    ArriveKeepsPending(x);
    SamePartition(v, x.client, y.client, Pending(x));
    forall p | p in y.client.replies
      ensures Authentic(v, p)
    {
      assert p in x.client.replies || p == x.wire[0];
      assert x.wire[0] in x.wire;
    }
  }

  // ---- reading a datagram ----

  /** Every datagram is wholly behind what is expected or wholly at or beyond it. */
  lemma BehindOrBeyond(v: Server, c: Client, d: nat)
    requires ServerInv(v) && ClientInv(v, c) && d < |v.aired|
    ensures IsRun(v.aired[d])
    ensures Last(v.aired[d]) < c.nextExpected || c.nextExpected <= First(v.aired[d])
  {
    GenuineIsRun(v, v.aired[d]);
  }

  lemma BufferedAppend(c: Client, e: Client, f: seq<Msg>)
    requires f != [] && e.buffers == c.buffers + [f] && e.nextOrdered == c.nextOrdered <= First(f)
    ensures forall n: nat :: Buffered(e, n) <==> Buffered(c, n) || First(f) <= n < End(f)
  {
    forall n: nat
      ensures Buffered(e, n) <==> Buffered(c, n) || First(f) <= n < End(f)
    {
      if Buffered(c, n) {
        var j :| 0 <= j < |c.buffers| && InUndelivered(c, j, n);
        assert InUndelivered(e, j, n);
      }
      if First(f) <= n < End(f) {
        assert InUndelivered(e, |c.buffers|, n);
      }
      if Buffered(e, n) {
        var j :| 0 <= j < |e.buffers| && InUndelivered(e, j, n);
        if j < |c.buffers| {
          assert InUndelivered(c, j, n);
        }
      }
    }
  }

  lemma ReadKeepsClient(v: Server, c: Client, d: nat)
    requires ServerInv(v) && ClientInv(v, c) && d < |v.aired|
    requires IsRun(v.aired[d])
    ensures ClientInv(v, ReadFrame(c, v.aired[d]).0)
  {
    var f := v.aired[d];
    GenuineIsRun(v, f);
    var e := ReadFrame(c, f).0;
    if c.nextExpected <= First(f) {
      assert e.nextExpected == End(f) && e.buffers == c.buffers + [f];
      forall i | 0 <= i < |v.aired|
        ensures v.aired[i] != [] && (End(v.aired[i]) <= e.nextExpected || e.nextExpected <= First(v.aired[i]))
      {
        assert v.aired[d] == f;
      }
    }
  }

  lemma ReadKeepsPartition(v: Server, c: Client, pending: seq<nat>, f: seq<Msg>)
    requires ClientInv(v, c) && Partition(c, pending)
    requires IsRun(f) && c.nextExpected <= First(f)
    ensures Partition(ReadFrame(c, f).0, pending + Range(c.nextExpected, First(f)))
  {
    var e := ReadFrame(c, f).0;
    RangeFacts(c.nextExpected, First(f));
    assert End(f) == Last(f) + 1;
    BufferedAppend(c, e, f);
    assert forall i | 0 <= i < |pending| :: pending[i] in pending;
    BufferedBelow(v, c);
  }

  lemma BufferedBelow(v: Server, c: Client)
    requires ClientInv(v, c)
    ensures forall n: nat :: Buffered(c, n) ==> c.nextOrdered <= n < c.nextExpected
  {
  }

  lemma ReadAsks(v: Server, x: Session, f: seq<Msg>)
    requires ServerInv(v) && PathInv(v, x) && Genuine(v.log, f) && IsRun(f)
    requires x.client.nextExpected <= First(f)
    ensures PathInv(v, ReadOne(x, f))
    ensures Pending(ReadOne(x, f)) == Pending(x) + Range(x.client.nextExpected, First(f))
  {
    var c, y := x.client, ReadOne(x, f);
    if c.nextExpected < First(f) {
      var r := Request(c.lastReqId + 1, c.nextExpected, First(f));
      assert y.requests == x.requests + [r];
      RequestNumbersSnoc(x.requests, r);
      ConcatAssoc(ReplyNumbers(c.replies) + ReplyNumbers(x.wire), RequestNumbers(x.requests), Range(r.begin, r.end));
    } else {
      assert y.requests == x.requests + [] == x.requests;
    }
  }

  lemma ReadKeeps(v: Server, x: Session, d: nat)
    requires ServerInv(v) && SessionInv(v, x) && d < |v.aired|
    requires IsRun(v.aired[d])
    ensures SessionInv(v, ReadOne(x, v.aired[d]))
  {
    var f, c, y := v.aired[d], x.client, ReadOne(x, v.aired[d]);
    BehindOrBeyond(v, c, d);
    if c.nextExpected <= First(f) {
      ReadKeepsClient(v, c, d);
      ReadAsks(v, x, f);
      ReadKeepsPartition(v, c, Pending(x), f);
    } else {
      assert y == x;
    }
  }

  // ---- unpacking ----

  lemma PendingHead(x: Session)
    requires x.client.replies != [] && x.client.replies[0].Payload?
    ensures Pending(x) == [x.client.replies[0].msg.seqNo]
                          + Pending(x.(client := x.client.(replies := x.client.replies[1..])))
  {
    assert x.client.replies[0] in x.client.replies;
  }

  /** A replayed message is never behind what is delivered: the "obsolete" branch is never taken. */
  lemma NeverObsolete(v: Server, x: Session)
    requires SessionInv(v, x) && x.client.replies != [] && x.client.replies[0].Payload?
    ensures x.client.nextOrdered <= x.client.replies[0].msg.seqNo
    ensures x.client.replies[0].msg.seqNo < |v.log|
    ensures x.client.replies[0].msg == v.log[x.client.replies[0].msg.seqNo]
  {
    PendingHead(x);
    assert Pending(x)[0] in Pending(x);
    assert x.client.replies[0] in x.client.replies;
  }

  /** Delivering the number at the head of the replay path. */
  lemma DrainKeepsPartition(v: Server, c: Client, pending: seq<nat>, e: Client)
    requires ClientInv(v, c) && Partition(c, pending)
    requires pending != [] && pending[0] == c.nextOrdered
    requires e.buffers == c.buffers && e.nextOrdered == c.nextOrdered + 1 && e.nextExpected == c.nextExpected
    ensures Partition(e, pending[1..])
    ensures FramesInv(v, e) && e.nextOrdered <= e.nextExpected
  {
    assert pending[0] in pending && !Buffered(c, c.nextOrdered);
    forall j | 0 <= j < |c.buffers|
      ensures End(c.buffers[j]) <= e.nextOrdered || e.nextOrdered <= First(c.buffers[j])
    {
      assert !InUndelivered(c, j, c.nextOrdered);
    }
    forall n: nat
      ensures Buffered(e, n) <==> Buffered(c, n) && n != c.nextOrdered
    {
      if Buffered(c, n) {
        var j :| 0 <= j < |c.buffers| && InUndelivered(c, j, n);
        assert !InUndelivered(c, j, c.nextOrdered);
        assert InUndelivered(e, j, n);
      }
      if Buffered(e, n) {
        var j :| 0 <= j < |e.buffers| && InUndelivered(e, j, n);
        assert InUndelivered(c, j, n);
      }
    }
    assert pending == [pending[0]] + pending[1..];
    assert forall n :: n in pending <==> n == c.nextOrdered || n in pending[1..];
    assert forall i | 0 <= i < |pending| - 1 :: pending[1..][i] == pending[i + 1];
  }

  lemma DrainDelivers(v: Server, x: Session)
    requires ServerInv(v) && SessionInv(v, x) && MicroEnabled(x.client, Drain)
    requires x.client.replies[0].Payload? && x.client.replies[0].msg.seqNo == x.client.nextOrdered
    ensures SessionInv(v, x.(client := DrainOne(x.client)))
  {
    hide Partition, FramesInv, ReplyNumbers, RequestNumbers;
    var c, e := x.client, DrainOne(x.client);
    var m := c.replies[0].msg;
    NeverObsolete(v, x);
    PendingHead(x);
    assert PathInv(v, x.(client := e)) && Pending(x.(client := e)) == Pending(x)[1..];
    DrainKeepsPartition(v, c, Pending(x), e);
    assert v.log[..e.nextOrdered] == v.log[..c.nextOrdered] + [m];
  }

  lemma DrainKeeps(v: Server, x: Session)
    requires ServerInv(v) && SessionInv(v, x) && MicroEnabled(x.client, Drain)
    ensures SessionInv(v, x.(client := DrainOne(x.client)))
  {
    var c, e := x.client, DrainOne(x.client);
    if c.replies[0].Refusal? {
      SamePartition(v, c, e, Pending(x));
    } else {
      NeverObsolete(v, x);
      if c.replies[0].msg.seqNo == c.nextOrdered {
        DrainDelivers(v, x);
      } else {
        assert x.(client := e) == x;
      }
    }
  }

  /** Delivering frame j: everything before it is delivered already, everything after it is not. */
  lemma DeliverKeepsPartition(v: Server, c: Client, pending: seq<nat>, j: nat, e: Client)
    requires ServerInv(v) && ClientInv(v, c) && Partition(c, pending)
    requires j < |c.buffers| && First(c.buffers[j]) == c.nextOrdered
    requires e.buffers == c.buffers && e.nextOrdered == End(c.buffers[j]) && e.nextExpected == c.nextExpected
    ensures Partition(e, pending) && FramesInv(v, e)
  {
    var f := c.buffers[j];
    forall k | 0 <= k < |c.buffers|
      ensures End(c.buffers[k]) <= e.nextOrdered || e.nextOrdered <= First(c.buffers[k])
    {
    }
    forall n: nat
      ensures Buffered(e, n) <==> Buffered(c, n) && e.nextOrdered <= n
    {
      if Buffered(c, n) && e.nextOrdered <= n {
        var k :| 0 <= k < |c.buffers| && InUndelivered(c, k, n);
        assert InUndelivered(e, k, n);
      }
      if Buffered(e, n) {
        var k :| 0 <= k < |e.buffers| && InUndelivered(e, k, n);
        assert InUndelivered(c, k, n);
      }
    }
    forall n: nat | First(f) <= n < End(f)
      ensures Buffered(c, n)
    {
      assert InUndelivered(c, j, n);
    }
  }

  lemma DeliverIs(v: Server, c: Client, j: nat)
    requires ServerInv(v) && c.nextOrdered <= |v.log| && c.inbox == v.log[..c.nextOrdered]
    requires j < |c.buffers| && Genuine(v.log, c.buffers[j]) && First(c.buffers[j]) == c.nextOrdered
    ensures IsRun(c.buffers[j])
    ensures DeliverFrame(c, j) == c.(inbox := v.log[..End(c.buffers[j])], nextOrdered := End(c.buffers[j]))
  {
    var f := c.buffers[j];
    GenuineIsRun(v, f);
    assert f[..|f|] == f;
    SliceSplit(v.log, c.nextOrdered, End(f));
  }

  lemma DeliverKeeps(v: Server, x: Session, j: nat)
    requires ServerInv(v) && SessionInv(v, x) && MicroEnabled(x.client, Deliver(j))
    ensures SessionInv(v, x.(client := DeliverFrame(x.client, j)))
  {
    var c, e := x.client, DeliverFrame(x.client, j);
    assert Genuine(v.log, c.buffers[j]);
    DeliverIs(v, c, j);
    GenuineIsRun(v, c.buffers[j]);
    DeliverKeepsPartition(v, c, Pending(x), j, e);
    assert |e.inbox| == |c.inbox| + |c.buffers[j]|;
    assert ClientInv(v, e);
    assert Pending(x.(client := e)) == Pending(x);
  }

  /** A frame is popped only when all of it is delivered. */
  lemma DropLosesNothing(v: Server, c: Client)
    requires ClientInv(v, c) && MicroEnabled(c, DropFront)
    ensures forall k | 0 <= k < |c.buffers[0]| :: c.buffers[0][k] in c.inbox
    ensures forall n: nat :: Buffered(c.(buffers := c.buffers[1..]), n) <==> Buffered(c, n)
  {
    var f, e := c.buffers[0], c.(buffers := c.buffers[1..]);
    forall k | 0 <= k < |f|
      ensures f[k] in c.inbox
    {
      assert f[k] == c.inbox[First(f) + k];
    }
    forall n: nat
      ensures Buffered(e, n) <==> Buffered(c, n)
    {
      if Buffered(c, n) {
        var j :| 0 <= j < |c.buffers| && InUndelivered(c, j, n);
        assert InUndelivered(e, j - 1, n);
      }
      if Buffered(e, n) {
        var j :| 0 <= j < |e.buffers| && InUndelivered(e, j, n);
        assert InUndelivered(c, j + 1, n);
      }
    }
  }

  lemma DropKeeps(v: Server, x: Session)
    requires SessionInv(v, x) && MicroEnabled(x.client, DropFront)
    ensures SessionInv(v, x.(client := MicroStep(x.client, DropFront)))
  {
    var c := x.client;
    var e := c.(buffers := c.buffers[1..]);
    DropKeepsFrames(v, c, e);
    assert ClientInv(v, e);
    DropLosesNothing(v, c);
    assert Partition(e, Pending(x));
    assert Pending(x.(client := e)) == Pending(x);
  }

  lemma DropKeepsFrames(v: Server, c: Client, e: Client)
    requires FramesInv(v, c) && c.buffers != [] && e == c.(buffers := c.buffers[1..])
    ensures FramesInv(v, e)
  {
    assert forall j | 0 <= j < |e.buffers| :: e.buffers[j] == c.buffers[j + 1];
  }

  lemma MicroKeeps(v: Server, x: Session, m: Micro)
    requires ServerInv(v) && SessionInv(v, x) && MicroEnabled(x.client, m)
    ensures SessionInv(v, x.(client := MicroStep(x.client, m)))
  {
    match m
    case Drain => DrainKeeps(v, x);
    case Deliver(j) => DeliverKeeps(v, x, j);
    case DropFront => DropKeeps(v, x);
    case Take(n) => SamePartition(v, x.client, MicroStep(x.client, m), Pending(x));
  }

  // ---- every run ----

  lemma InitialInv(capacity: nat)
    ensures Inv(Initial(capacity))
  {
  }

  lemma ServerStepKeeps(s: State, step: Step)
    requires Inv(s) && Enabled(s, step)
    requires step.Publish? || step.Hand? || step.Pack? || step.Air? || step.Trim?
    ensures Inv(Next(s, step))
  {
    var v, w := s.server, Next(s, step).server;
    assert ServerInv(w) && Grows(v, w) by {
      match step
      case Publish(body) => PublishKeeps(v, body);
      case Hand =>
      case Pack(k) => PackKeeps(v, k);
      case Air => AirKeeps(v);
      case Trim => TrimKeeps(v);
    }
    forall i | 0 <= i < |s.sessions|
      ensures SessionInv(w, s.sessions[i])
    {
      GrowthKeepsSession(v, w, s.sessions[i]);
    }
  }

  lemma JoinKeeps(s: State)
    requires Inv(s)
    ensures Inv(Next(s, Join))
  {
    var x := Session(FRESH_CLIENT, [], []);
    assert Pending(x) == [];
    assert SessionInv(s.server, x);
  }

  lemma SessionStepKeeps(s: State, step: Step)
    requires Inv(s) && Enabled(s, step)
    requires step.Serve? || step.Arrive? || step.ReadDatagram? || step.Unpacking?
    ensures Inv(Next(s, step))
  {
    var v := s.server;
    match step
    case Serve(i) => ServeKeeps(v, s.sessions[i]);
    case Arrive(i) => ArriveKeeps(v, s.sessions[i]);
    case ReadDatagram(i, d) => ReadKeeps(v, s.sessions[i], d);
    case Unpacking(i, m) => MicroKeeps(v, s.sessions[i], m);
  }

  lemma StepKeeps(s: State, step: Step)
    requires Inv(s) && Enabled(s, step)
    ensures Inv(Next(s, step))
  {
    if step.Join? {
      JoinKeeps(s);
    } else if step.Serve? || step.Arrive? || step.ReadDatagram? || step.Unpacking? {
      SessionStepKeeps(s, step);
    } else {
      ServerStepKeeps(s, step);
    }
  }

  lemma {:induction false} RunKeeps(s: State, steps: seq<Step>, r: State)
    requires Inv(s) && Reaches(s, steps, r)
    ensures Inv(r)
    decreases |steps|
  {
    if steps != [] {
      StepKeeps(s, steps[0]);
      RunKeeps(Next(s, steps[0]), steps[1..], r);
    }
  }

  lemma ReachableInv(capacity: nat, steps: seq<Step>, r: State)
    requires Reaches(Initial(capacity), steps, r)
    ensures Inv(r)
  {
    InitialInv(capacity);
    RunKeeps(Initial(capacity), steps, r);
  }

  // ---- safety ----

  /**
    In every reachable state, what a client has put into its inbox is exactly the first
    nextOrdered messages published: in order, without a gap, without a duplicate.
   */
  lemma InboxIsPublishedPrefix(capacity: nat, steps: seq<Step>, r: State, i: nat)
    requires Reaches(Initial(capacity), steps, r) && i < |r.sessions|
    ensures var c, log := r.sessions[i].client, r.server.log;
            && c.nextOrdered <= |log|
            && c.inbox == log[..c.nextOrdered]
            && forall n | 0 <= n < |log| :: log[n].seqNo == n
  {
    ReachableInv(capacity, steps, r);
  }

  /**
    In every reachable state, every number between nextOrdered and nextExpected is either on the
    replay path, once, in increasing order, or in exactly one buffered frame; never both.
   */
  lemma NothingForgotten(capacity: nat, steps: seq<Step>, r: State, i: nat)
    requires Reaches(Initial(capacity), steps, r) && i < |r.sessions|
    ensures var x := r.sessions[i]; var c, pending := x.client, Pending(x);
            && Increasing(pending)
            && (forall n: nat :: c.nextOrdered <= n < c.nextExpected <==> n in pending || Buffered(c, n))
            && (forall n: nat :: !(n in pending && Buffered(c, n)))
            && (forall j, k | 0 <= j < k < |c.buffers| ::
                  c.buffers[j] != [] && c.buffers[k] != [] && End(c.buffers[j]) <= First(c.buffers[k]))
  {
    ReachableInv(capacity, steps, r);
    BufferedBelow(r.server, r.sessions[i].client);
  }

  /** In every reachable state a frame that is popped is in the inbox from end to end. */
  lemma PoppedFramesAreDelivered(capacity: nat, steps: seq<Step>, r: State, i: nat)
    requires Reaches(Initial(capacity), steps, r) && i < |r.sessions|
    requires MicroEnabled(r.sessions[i].client, DropFront)
    ensures var c := r.sessions[i].client;
            forall k | 0 <= k < |c.buffers[0]| :: c.buffers[0][k] in c.inbox
  {
    ReachableInv(capacity, steps, r);
    DropLosesNothing(r.server, r.sessions[i].client);
  }

  /**
    In every reachable state no datagram ever aired straddles what a client expects: one that is not
    wholly behind is buffered, whole.
   */
  lemma NoStraddle(capacity: nat, steps: seq<Step>, r: State, i: nat, d: nat)
    requires Reaches(Initial(capacity), steps, r) && i < |r.sessions| && d < |r.server.aired|
    ensures IsRun(r.server.aired[d])
    ensures var c, f := r.sessions[i].client, r.server.aired[d];
            && (Last(f) < c.nextExpected || c.nextExpected <= First(f))
            && (c.nextExpected <= Last(f) ==> ReadFrame(c, f).0.buffers == c.buffers + [f])
  {
    ReachableInv(capacity, steps, r);
    BehindOrBeyond(r.server, r.sessions[i].client, d);
  }

  /** The replay log: front <= sent_it <= back, within the capacity, and no trim empties it. */
  lemma ServerLog(capacity: nat, steps: seq<Step>, r: State)
    requires Reaches(Initial(capacity), steps, r)
    ensures r.server.front <= r.server.sent <= |r.server.log| <= r.server.front + r.server.capacity
    ensures Enabled(r, Trim) ==> Next(r, Trim).server.front < |r.server.log|
  {
    ReachableInv(capacity, steps, r);
    if TrimDue(r.server) {
      TrimKeeps(r.server);
    }
  }

  /** What no step takes back: publishing, handing on and trimming only go forward. */
  predicate Onward(v: Server, w: Server) {
    v.log <= w.log && v.front <= w.front && v.sent <= w.sent
  }

  lemma {:induction false} RunGoesOnward(s: State, steps: seq<Step>, r: State)
    requires Reaches(s, steps, r)
    ensures Onward(s.server, r.server)
    decreases |steps|
  {
    if steps != [] {
      assert Onward(s.server, Next(s, steps[0]).server);
      RunGoesOnward(Next(s, steps[0]), steps[1..], r);
    }
  }

  /**
    A message published at some point of a run keeps its place in the log whatever follows; while it
    is not handed to multicast it is in the ring, and if it is trimmed it was handed on before.
   */
  lemma TrimmedOnlyAfterHanded(capacity: nat, steps: seq<Step>, r: State, later: seq<Step>, t: State, n: nat)
    requires Reaches(Initial(capacity), steps, r) && Reaches(r, later, t) && n < |r.server.log|
    ensures n < |t.server.log| && t.server.log[n] == r.server.log[n]
    ensures t.server.sent <= n ==> t.server.front <= n && r.server.sent <= n
    ensures n < t.server.front ==> n < t.server.sent
  {
    ReachableInv(capacity, steps, r);
    RunKeeps(r, later, t);
    RunGoesOnward(r, later, t);
  }

  /** Every request in flight is answerable, never too new, and refused exactly when its start is trimmed. */
  lemma RefusedOnlyWhenTrimmed(capacity: nat, steps: seq<Step>, r: State, i: nat, q: Request)
    requires Reaches(Initial(capacity), steps, r) && i < |r.sessions| && q in r.sessions[i].requests
    ensures Enabled(r, Serve(i)) && Answerable(r.server, q)
    ensures q.begin < q.end < |r.server.log|
    ensures Answer(r.server, q) ==
            if r.server.front <= q.begin then Payloads(q.reqId, r.server.log[q.begin..q.end])
            else [Refusal(q, 2, q.end, q.end)]
  {
    ReachableInv(capacity, steps, r);
    AnswerIs(r.server, q);
    var first := r.sessions[i].requests[0];
    assert first in r.sessions[i].requests;
    AnswerIs(r.server, first);
  }

  /** The guards that rule out malformed datagrams never block: every datagram on the air is a run. */
  lemma EveryDatagramIsRun(capacity: nat, steps: seq<Step>, r: State, d: nat)
    requires Reaches(Initial(capacity), steps, r) && d < |r.server.aired|
    ensures IsRun(r.server.aired[d]) && |r.server.aired[d]| <= 1400
    ensures Last(r.server.aired[d]) < |r.server.log|
  {
    ReachableInv(capacity, steps, r);
    GenuineIsRun(r.server, r.server.aired[d]);
  }

  // ---- progress ----

  /** Nothing on the replay path is refused, or will be if it is served now. */
  predicate Replayable(v: Server, x: Session) {
    && (forall p | p in x.client.replies :: p.Payload?)
    && (forall p | p in x.wire :: p.Payload?)
    && (forall r | r in x.requests :: v.front <= r.begin)
  }

  /** The item holding the next number to deliver is at hand: the first reply, or a buffered frame. */
  predicate AtHand(c: Client) {
    || (c.replies != [] && c.replies[0].Payload? && c.replies[0].msg.seqNo == c.nextOrdered)
    || exists j :: 0 <= j < |c.buffers| && NextFrame(c, j)
  }

  predicate NextFrame(c: Client, j: nat)
    requires j < |c.buffers|
  {
    IsRun(c.buffers[j]) && First(c.buffers[j]) == c.nextOrdered
  }

  /** While something is missing and every reply has arrived, the next number is at hand. */
  lemma NextIsAtHand(v: Server, x: Session)
    requires ServerInv(v) && SessionInv(v, x) && Replayable(v, x)
    requires x.client.nextOrdered < x.client.nextExpected
    ensures || AtHand(x.client)
            || (x.client.replies == [] && x.wire != [])
            || (x.client.replies == [] && x.wire == [] && x.requests != [])
  {
    var c, o := x.client, x.client.nextOrdered;
    if Buffered(c, o) {
      var j :| 0 <= j < |c.buffers| && InUndelivered(c, j, o);
      GenuineIsRun(v, c.buffers[j]);
      assert NextFrame(c, j);
    } else {
      var pending := Pending(x);
      assert o in pending;
      var k :| 0 <= k < |pending| && pending[k] == o;
      assert pending[0] in pending;
      assert k == 0;
      if c.replies != [] {
        assert c.replies[0] in c.replies;
        PendingHead(x);
      }
    }
  }

  /** An application that has popped everything leaves room for any frame. */
  lemma TakeAllMakesRoom(v: Server, c: Client, j: nat)
    requires ServerInv(v) && ClientInv(v, c) && c.taken == |c.inbox|
    requires j < |c.buffers| && NextFrame(c, j)
    ensures MicroEnabled(c, Deliver(j))
    ensures DeliverFrame(c, j).nextOrdered > c.nextOrdered
  {
    GenuineIsRun(v, c.buffers[j]);
  }

  /** One step that brings session i nearer to having everything it expects. */
  lemma StepForward(s: State, i: nat) returns (step: Step)
    requires Inv(s) && i < |s.sessions| && Replayable(s.server, s.sessions[i])
    requires var c := s.sessions[i].client; c.taken == |c.inbox| && c.nextOrdered < c.nextExpected
    ensures Enabled(s, step)
    ensures var t := Next(s, step);
            && t.server == s.server && |t.sessions| == |s.sessions|
            && (forall k | 0 <= k < |s.sessions| && k != i :: t.sessions[k] == s.sessions[k])
            && Replayable(t.server, t.sessions[i])
            && t.sessions[i].client.nextExpected == s.sessions[i].client.nextExpected
            && Nearer(s.sessions[i], t.sessions[i])
  {
    var v, x := s.server, s.sessions[i];
    var c := x.client;
    NextIsAtHand(v, x);
    if exists j :: 0 <= j < |c.buffers| && NextFrame(c, j) {
      var j: nat :| 0 <= j < |c.buffers| && NextFrame(c, j);
      TakeAllMakesRoom(v, c, j);
      step := Unpacking(i, Deliver(j));
    } else if c.replies != [] {
      step := Unpacking(i, Drain);
    } else if x.wire != [] {
      step := Arrive(i);
      assert x.wire[0] in x.wire;
    } else {
      step := Serve(i);
      var q := x.requests[0];
      assert q in x.requests;
      AnswerIs(v, q);
    }
  }

  /** Delivered more; or as much, with fewer requests open; or as many, with fewer replies under way. */
  predicate Nearer(x: Session, y: Session) {
    || x.client.nextOrdered < y.client.nextOrdered
    || (x.client.nextOrdered == y.client.nextOrdered && |y.requests| < |x.requests|)
    || (x.client.nextOrdered == y.client.nextOrdered && |y.requests| == |x.requests| && |y.wire| < |x.wire|)
  }

  /**
    From every state in which nothing the client still needs is trimmed or refused, serving,
    receiving and unpacking, with the application popping, bring it to nextOrdered == nextExpected.
   */
  lemma {:induction false} Recovers(s: State, i: nat) returns (steps: seq<Step>, r: State)
    requires Inv(s) && i < |s.sessions| && Replayable(s.server, s.sessions[i])
    ensures Reaches(s, steps, r) && |r.sessions| == |s.sessions|
    ensures r.server == s.server
    ensures r.sessions[i].client.nextExpected == s.sessions[i].client.nextExpected
    ensures r.sessions[i].client.nextOrdered == r.sessions[i].client.nextExpected
    ensures forall k | 0 <= k < |s.sessions| && k != i :: r.sessions[k] == s.sessions[k]
    decreases s.sessions[i].client.nextExpected - s.sessions[i].client.nextOrdered,
              |s.sessions[i].requests|, |s.sessions[i].wire|
  {
    var c := s.sessions[i].client;
    if c.nextOrdered == c.nextExpected {
      return [], s;
    }
    var take := Unpacking(i, Take(|c.inbox| - c.taken));
    StepKeeps(s, take);
    var t := Next(s, take);
    var step := StepForward(t, i);
    StepKeeps(t, step);
    var rest;
    rest, r := Recovers(Next(t, step), i);
    ReachesCons(t, step, rest, r);
    ReachesCons(s, take, [step] + rest, r);
    steps := [take] + ([step] + rest);
  }

  lemma ReachesCons(s: State, step: Step, rest: seq<Step>, r: State)
    requires Enabled(s, step) && Reaches(Next(s, step), rest, r)
    ensures Reaches(s, [step] + rest, r)
  {
    assert ([step] + rest)[1..] == rest;
  }
}
