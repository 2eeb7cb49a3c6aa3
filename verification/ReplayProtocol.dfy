/**
  Reliable multicast with replay, as values: what the client and the server keep, and what each
  of their operations does to it.  A datagram is the run of messages packed into it; its bytes
  are the business of module Datagrams.
 */
module ReplayProtocol {
  import opened Words

  /** A message with its sequence number; everything else in it is its body. */
  datatype Msg = Msg(seqNo: nat, body: seq<byte>)

  datatype Request = Request(reqId: nat, begin: nat, end: nat)

  /**
    A replay response: status 0 carries a message, any other status does not.  A refusal goes out
    with the id of the request it refuses; here it is tied to that request itself.
   */
  datatype Reply =
    | Payload(reqId: nat, msg: Msg)
    | Refusal(request: Request, status: nat, availableBegin: nat, availableEnd: nat)

  const BUFFERS: nat := 1024        // ring_buffer<frame> of 10 bits
  const INBOX: nat := 4096          // ring_buffer<MsgIn> of 12 bits
  const REPLIES: nat := 1024        // inbox of the replay connection, 10 bits
  const QUEUE: nat := 1024          // outbox of the multicast server, 10 bits
  const DATAGRAM_BYTES: nat := 1400
  const TRIM_FRACTION: nat := 1024

  // ---- runs of messages ----

  /** A datagram's contents: at least one message, numbered without a gap. */
  predicate IsRun(f: seq<Msg>) {
    f != [] && forall k | 0 <= k < |f| :: f[k].seqNo == f[0].seqNo + k
  }

  /** get_first_seq */
  function First(f: seq<Msg>): nat
    requires f != []
  {
    f[0].seqNo
  }

  /** get_last_seq */
  function Last(f: seq<Msg>): nat
    requires f != []
  {
    f[|f| - 1].seqNo
  }

  // ---- the client ----

  datatype Client = Client(
    nextOrdered: nat,
    nextExpected: nat,
    buffers: seq<seq<Msg>>,
    replies: seq<Reply>,      // arrived on the replay connection, not yet looked at
    inbox: seq<Msg>,          // every message ever put into the inbox
    taken: nat,               // how many of them the application has popped
    lastReqId: nat,
    good: bool)
  {
    function Room(): int {
      INBOX - (|inbox| - taken)
    }
  }

  const FRESH_CLIENT := Client(0, 0, [], [], [], 0, 0, true)

  /** read(): the datagram is dropped, or buffered after asking for what was skipped. */
  function ReadFrame(c: Client, f: seq<Msg>): (Client, seq<Request>)
    requires IsRun(f)
  {
    if Last(f) < c.nextExpected then (c, [])
    else if c.nextExpected <= First(f) then
      var asked := if c.nextExpected < First(f)
                   then [Request(c.lastReqId + 1, c.nextExpected, First(f))]
                   else [];
      (c.(nextExpected := Last(f) + 1, buffers := c.buffers + [f], lastReqId := c.lastReqId + |asked|), asked)
    else (c, [])
  }

  /** The pieces unpack() is made of, and the application's pops that may come between them. */
  datatype Micro =
    | Drain             // look at the first reply
    | Deliver(j: nat)   // copy frame j into the inbox
    | DropFront         // pop a frame that is behind
    | Take(n: nat)      // the application pops n messages

  predicate MicroEnabled(c: Client, m: Micro) {
    match m
    case Drain =>
      c.replies != [] &&
      (c.replies[0].Payload? && c.replies[0].msg.seqNo == c.nextOrdered ==> 0 < c.Room())
    case Deliver(j) =>
      && j < |c.buffers| && IsRun(c.buffers[j])
      && First(c.buffers[j]) == c.nextOrdered
      && Last(c.buffers[j]) - First(c.buffers[j]) + 1 <= c.Room()
    case DropFront =>
      c.buffers != [] && IsRun(c.buffers[0]) && First(c.buffers[0]) < c.nextOrdered
    case Take(n) =>
      c.taken + n <= |c.inbox|
  }

  function DrainOne(c: Client): Client
    requires c.replies != []
  {
    match c.replies[0]
    case Refusal(_, _, _, _) => c.(good := false)
    case Payload(_, msg) =>
      if msg.seqNo == c.nextOrdered then
        c.(nextOrdered := c.nextOrdered + 1, inbox := c.inbox + [msg], replies := c.replies[1..])
      else if msg.seqNo < c.nextOrdered then
        c.(replies := c.replies[1..])
      else c
  }

  function DeliverFrame(c: Client, j: nat): Client
    requires j < |c.buffers| && IsRun(c.buffers[j])
  {
    var f := c.buffers[j];
    var count := Last(f) - First(f) + 1;
    c.(inbox := c.inbox + f[..count], nextOrdered := c.nextOrdered + count)
  }

  function MicroStep(c: Client, m: Micro): Client
    requires MicroEnabled(c, m)
  {
    match m
    case Drain => DrainOne(c)
    case Deliver(j) => DeliverFrame(c, j)
    case DropFront => c.(buffers := c.buffers[1..])
    case Take(n) => c.(taken := c.taken + n)
  }

  ghost predicate MicroRun(c: Client, ms: seq<Micro>, r: Client)
    decreases |ms|
  {
    if ms == [] then r == c
    else MicroEnabled(c, ms[0]) && MicroRun(MicroStep(c, ms[0]), ms[1..], r)
  }

  lemma {:induction false} MicroRunSnoc(c: Client, ms: seq<Micro>, r: Client, m: Micro)
    requires MicroRun(c, ms, r) && MicroEnabled(r, m)
    ensures MicroRun(c, ms + [m], MicroStep(r, m))
    decreases |ms|
  {
    if ms == [] {
      assert ([m])[1..] == [];
    } else {
      MicroRunSnoc(MicroStep(c, ms[0]), ms[1..], r, m);
      assert (ms + [m])[1..] == ms[1..] + [m];
    }
  }

  // ---- the server ----

  datatype Server = Server(
    capacity: nat,
    log: seq<Msg>,            // every message ever published
    front: nat,               // messages before this one are trimmed
    sent: nat,                // sent_it: messages before this one are handed to multicast
    packed: nat,              // messages before this one have left the multicast queue
    buffer: seq<Msg>,         // what send_buffer holds
    aired: seq<seq<Msg>>)     // every datagram ever given to the network
  {
    /** Where the datagrams given to the network end. */
    function AiredEnd(): int {
      packed - |buffer|
    }
  }

  predicate TooOld(s: Server, seqNo: nat)
    requires s.front <= |s.log|
  {
    s.front == |s.log| || seqNo < s.log[s.front].seqNo
  }

  predicate TooNew(s: Server, seqNo: nat)
    requires s.front <= |s.log|
  {
    s.front == |s.log| || s.log[|s.log| - 1].seqNo < seqNo
  }

  /** get_iterator: a position in the log. */
  function PositionOf(s: Server, seqNo: nat): int
    requires s.front < |s.log|
  {
    s.front + (seqNo - s.log[s.front].seqNo)
  }

  function Payloads(reqId: nat, msgs: seq<Msg>): (r: seq<Reply>)
    ensures |r| == |msgs|
  {
    seq(|msgs|, i requires 0 <= i < |msgs| => Payload(reqId, msgs[i]))
  }

  /** The positions a request denotes lie in the log, in order. */
  predicate Answerable(s: Server, r: Request) {
    && s.front <= |s.log|
    && (!TooOld(s, r.begin) && !TooOld(s, r.end) && !TooNew(s, r.begin) && !TooNew(s, r.end) ==>
          0 <= PositionOf(s, r.begin) <= PositionOf(s, r.end) <= |s.log|)
  }

  /** What one replay request is answered with. */
  function Answer(s: Server, r: Request): seq<Reply>
    requires Answerable(s, r)
  {
    if TooOld(s, r.begin) || TooOld(s, r.end) then
      [Refusal(r, 2, r.end, r.end)]
    else if TooNew(s, r.begin) || TooNew(s, r.end) then
      [Refusal(r, 1, r.begin, r.begin)]
    else
      Payloads(r.reqId, s.log[PositionOf(s, r.begin)..PositionOf(s, r.end)])
  }

  function Chunk(s: Server): nat {
    s.capacity / TRIM_FRACTION
  }

  predicate TrimDue(s: Server) {
    && s.capacity - (|s.log| - s.front) < Chunk(s)
    && s.front + Chunk(s) <= s.sent
  }
}
