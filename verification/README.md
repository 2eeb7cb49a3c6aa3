# utttil, verified

A Dafny model of the messaging and container headers of `utttil`, with proofs of what they are for.

The heart of it is reliable multicast. A server keeps a replay log in a ring, airs its messages in datagrams and
answers replay requests over TCP. A client finds gaps, asks for `[expected, first)`, buffers frames that are ahead,
and merges frames and replayed messages into one ordered inbox. `ReplayProtocol.dfy` says what each operation does,
`ReplaySystem.dfy` runs one server, a network that loses, repeats and reorders, and any number of clients, and proves
what holds in every reachable state; `ReplayPeers.dfy` holds the two objects with their loops, proved to be runs of
that system; `ReplayLimits.dfy` says what replay cannot do.

Around it:

- `RingBuffer.dfy`, `Spsc.dfy`, `StretchRaces.dfy`: the ring buffer with masked 64-bit counters that wrap, its
  two-stretch views, the reader and writer devices, its use by one producer and one consumer, and what the views are
  worth when the other side moves its counter while they are computed.
- `Framing.dfy`, `MsgPeer.dfy`: length-prefixed messages over any byte stream, for any lawful message codec, and the
  peer objects that pack and unpack them.
- `WriteLoop.dfy`: the writing side of a peer, read by read, against a thread that publishes meanwhile.
- `ReplayMessages.dfy`: the bytes of replay requests and replies, and that framing makes a replay connection the queue
  of whole messages the protocol needs.
- `Datagrams.dfy`: datagram packing, and what a client reads out of a datagram.
- `StopBit.dfy`, `BinaryCodec.dfy`, `BinaryStream.dfy`, `Messages.dfy`: stop-bit integers, the binary codec on all
  nested values, its reading and writing objects, and the request message.
- `Pool.dfy`, `SeqDict.dfy`: the free-list pool and the sequence-keyed index over it.
- `Numerals.dfy`, `DFloat.dfy`: decimal fixed point in the `quantity_t` shape.
- `Json.dfy`, `JsonLayout.dfy`, `JsonCursor.dfy`: the JSON subset: what is printed, which texts are read and to what,
  and the cursor that reads them.
- `Sha256.dfy`, `Sha256Stream.dfy`: SHA-256 as FIPS 180-4 defines it, and as the stream loop computes it;
  `Sha256Standard.dfy`, `WordBits.dfy`: where its constants come from and what its bit functions do;
  `Sha256Example.dfy`: a known hash.
- `Words.dfy`: machine words, remainders, masks, sequences.

Objects whose methods update fields are classes, and each method is tied to a function on values; the theorems are
about those functions and about all runs of them.

## What the proofs assume

- Messages are numbered consecutively from 0: a client starts both counters at 0 (`utttil/io/udpmr_msg.hpp:206-207`).
- A datagram arrives intact, but any number of times, at any time, in any order, or never. In the
  system the replay connection is a reliable queue of whole messages; `ReplayMessages.ReplayConnectionIsQueue` proves
  it to be one over a TCP byte stream that loses nothing.
- Every message fits a send buffer, so a datagram holds at most 1400 messages.
- A busy-wait is a guard: the step, or the method, is entered when the other side has made it true. Where the wait
  happens inside a loop (`push_back` in `unpack`, `async_write`) the other side's steps are modelled, there and at
  every other step of the loop.
- In the model a refusal is tied to its request, where the source sends the request's id.
- In the system, handing a message to multicast is one step. The source moves `sent_it` before it copies
  (`utttil/io/udpmr_msg.hpp:426`), on another thread than the one that trims (`utttil/io.hpp:251-309`);
  `ReplayLimits.HandCopiesExactly` says exactly when the copy is the published message all the same.
- Plain fields shared by two threads are read and written in program order, one access at a time.
- Sequence numbers and iterator positions do not reach 2^64; ring counters may.

## What was found

- `tcp_socket_msg::unpack` closes a healthy connection whenever a read ends inside a length prefix
  (`utttil/io/tcp_msg.hpp:106-112`); `Framing.TcpClosesExactly` says exactly when. Messages below 64 bytes cannot
  trigger it, every longer one that fits the outbox can. Order requests, and replies that carry them, are shorter; a
  replay connection with replies that carry 62 bytes or more can be lost this way. `peer::unpack` waits.
- `back_stretch` and `front_stretch` read the other side's counter up to three times, assertions aside
  (`utttil/ring_buffer.hpp:163-227`). If it passes the end of the array between the last two reads, the length
  underflows or overruns the array; if it does between the two calls of a pair, slots are skipped. `StretchRaces.dfy`
  says exactly when, and when no schedule can do harm. With `async_write` on one thread and the peer's ring on another,
  both sides are exposed: `async_write` to an underflow of `back_stretch` (`utttil/iou/peer.hpp:324`), `write_loop` to
  an overrun of `front_stretch` and to skipping between `front_stretch` and `front_stretch_2`
  (`utttil/iou/peer.hpp:188-189`). After a skip the kernel sends some slots twice and others never, while `sent` releases
  as many as it took (`utttil/iou/peer.hpp:239-246`). `WriteLoops.WriteLoopExactly` and `WriteLoops.SentExactly` say
  exactly when, and `MsgPeers.MsgPeer.AsyncWrite` is proved with both races in it. `write` of the tcp socket takes one
  front stretch and is exposed to the overrun alone (`utttil/io/tcp_raw.hpp:151`); `WriteLoops.RawWriteExactly`.
  The reading side has the mirror image where the application empties an inbox of bytes itself
  (`utttil/iou/peer.hpp:216-217`, `utttil/io/tcp_raw.hpp:166`); `StretchRaces.BackPairRaces`.
- A client that joins after a trim and whose first datagram does not begin with message 0 asks for messages from 0, is
  refused, and never delivers anything; messages lost at the end of the stream are never asked for.
  `ReplayLimits.LateJoinerIsLost` and `ReplayLimits.TailIsNotAskedFor`.
- `push_back()` publishes a slot before its caller writes it (`utttil/ring_buffer.hpp:270-277`); a consumer that loads
  it first pops what was there before. `Spsc.LoadExactly` says exactly when.
- A replay request with both ends in the log and begin beyond end makes the server's copying loop run past the log
  (`utttil/io/udpmr_msg.hpp:466-475`); the client never sends one.
- `operator==` on orders (`src/msg.hpp:103-115`) is wrong by operator precedence; `Messages.SourceEqualsIsRightWhen`
  says exactly when it is right.
- `serialize_size` (`utttil/srlz/int.hpp:62-115`) is one too small exactly when the top 7-bit group has its high bit
  set, one for every negative number, and on `int64_t` one higher throughout; `StopBit.SizeEstimate` covers all types.
- A multicast message of more than 1400 bytes with its prefix blocks everything behind it for good
  (`utttil/io/udpm_msg.hpp:163-165`).
- `add_loss` and `sub_loss` can report loss for a result that is representable (`utttil/dfloat.hpp:190-211`);
  `DFloats.LossIsSpuriousExactly` and `DFloats.SubLossIsSpuriousExactly` say exactly when.
- `set_data_size` on a padding object built with the sized constructor can expose bytes that were never written
  (`utttil/sha256.hpp:44-71`); after the plain constructor it cannot.
- The branches of the replay client for obsolete replies and for partly overlapping frames are never taken
  (`utttil/io/udpmr_msg.hpp:254-271`, `utttil/io/udpmr_msg.hpp:307-311`), and a client's request is never too new.
- The linking loop of a pool of capacity 0 never ends (`utttil/pool.hpp:45-46`).

## Model

| member | source | states |
|---|---|---|
| `ReplaySystem.InboxIsPublishedPrefix` | utttil/io/udpmr_msg.hpp:234-359 | in every reachable state of server, network, replay connections and any number of clients, what a client has put into its inbox is exactly the first `next_ordered_seq` published messages, in order, no gap, no duplicate |
| `ReplaySystem.NothingForgotten` | utttil/io/udpmr_msg.hpp:246-271 | in every reachable state the numbers in `[next_ordered_seq, next_expected_seq)` are split exactly between the replay path (requests, replies on the wire, replies arrived; strictly increasing) and the buffered undelivered frames (strictly increasing, disjoint) |
| `ReplaySystem.PoppedFramesAreDelivered` | utttil/io/udpmr_msg.hpp:350-357 | whenever the client may pop its front frame as being behind, every message of that frame is already in its inbox |
| `ReplaySystem.NeverObsolete` | utttil/io/udpmr_msg.hpp:307-311 | a reply at the head of the replay inbox is never behind `next_ordered_seq`, and is the published message of its number: the branch that drops obsolete replies is dead |
| `ReplaySystem.NoStraddle` | utttil/io/udpmr_msg.hpp:254-271 | in every reachable state every datagram ever aired lies wholly below or wholly at or above what a client expects, and one that is not wholly below is buffered whole: no frame is ever dropped for a partial overlap |
| `ReplaySystem.BehindOrBeyond` | utttil/io/udpmr_msg.hpp:254-271 | the same from the invariant alone |
| `ReplaySystem.EveryDatagramIsRun` | utttil/io/udpmr_msg.hpp:138-188 | every datagram ever aired is a gapless non-empty run of published messages, so the guards of the reading steps never block |
| `ReplaySystem.ServerLog` | utttil/io/udpmr_msg.hpp:423-429 | in every reachable state front <= `sent_it` <= back <= front + capacity, and a trim leaves the log non-empty |
| `ReplaySystem.TrimmedOnlyAfterHanded` | utttil/io/udpmr_msg.hpp:480-482 | over any later run a published message keeps its place in the log; while it is not handed to multicast it is in the ring, and a trimmed one was handed on before |
| `ReplayLimits.HandCopiesExactly` | utttil/io/udpmr_msg.hpp:425-426 | `push_back(*sent_it++)` moves `sent_it` before it copies: whatever the other threads do in between, in any reachable state, the message copied is the published one if and only if none was published into its slot, which takes a trim right up to it |
| `ReplayLimits.HandCanCopyAnother` | utttil/io/udpmr_msg.hpp:425-426 | a run in which it is not: a full log of 1024, the first message in hand, one trim and one publication |
| `ReplayLimits.StuckForever` | utttil/io/udpmr_msg.hpp:291-306 | a client whose next message is refused, or asked for when it is already trimmed, never delivers another message, whatever happens later |
| `ReplayLimits.LateJoinerIsLost` | utttil/io/udpmr_msg.hpp:259-265 | a client that joins after a trim, and whose first datagram does not begin with message 0, asks from 0, and its inbox stays empty for ever |
| `ReplayLimits.ExpectedIsFurthest` | utttil/io/udpmr_msg.hpp:254-271 | over any run, what a client expects next is the end of the furthest datagram it has read |
| `ReplayLimits.TailIsNotAskedFor` | utttil/io/udpmr_msg.hpp:259-265 | no request reaches beyond the furthest datagram read: messages lost at the end are not asked for |
| `ReplayLimits.InboxEndsAtFurthest` | utttil/io/udpmr_msg.hpp:281-359 | once everything is served and unpacked, the inbox is exactly what was published up to the end of the furthest datagram read |
| `ReplaySystem.TrimKeeps` | utttil/io/udpmr_msg.hpp:480-482 | trimming keeps the server invariant, disturbs no client, and leaves at least one message in the ring |
| `ReplaySystem.AnswerableExactly` | utttil/io/udpmr_msg.hpp:466-475 | on every request: the copying loop stays in the log, and then sends what the system has the server answer, if and only if the request is not the wrong way round with both ends in the log |
| `ReplaySystem.AnswerIsRefusalOrMessages` | utttil/io/udpmr_msg.hpp:437-478 | every request is answered by exactly one refusal, its status fixed by whether an end is trimmed or not yet published, or by exactly the published messages begin to end - 1 in order, or the copying loop runs past the log |
| `ReplaySystem.RefusedOnlyWhenTrimmed` | utttil/io/udpmr_msg.hpp:441-462 | every request that any client of the system has in flight can be answered and is never too new; it is refused if and only if its first message is trimmed |
| `ReplaySystem.StepKeeps` | utttil/io/udpmr_msg.hpp:234-484 | every step (publish, hand, pack, air, trim, join, serve, arrive, read a possibly lost, repeated or late datagram, each piece of `unpack`, application pops) keeps the whole invariant |
| `ReplaySystem.RunKeeps` | utttil/io/udpmr_msg.hpp:234-484 | so does every sequence of steps |
| `ReplaySystem.PublishKeeps` | utttil/io/udpmr_msg.hpp:486-493 | publishing keeps the server invariant and disturbs no client |
| `ReplaySystem.PackKeeps` | utttil/io/udpm_msg.hpp:149-177 | so does packing a datagram |
| `ReplaySystem.AirKeeps` | utttil/io/udpm_msg.hpp:134-147 | so does airing it |
| `ReplaySystem.GrowthKeepsSession` | utttil/io/udpmr_msg.hpp:486-493 | whatever the server does meanwhile, everything a client holds stays right |
| `ReplaySystem.DropLosesNothing` | utttil/io/udpmr_msg.hpp:350-357 | a popped frame is wholly in the inbox and no number changes its place |
| `ReplaySystem.ReadAsks` | utttil/io/udpmr_msg.hpp:259-265 | what a read asks for joins the end of the replay path: exactly the numbers skipped |
| `ReplaySystem.NextIsAtHand` | utttil/io/udpmr_msg.hpp:291-348 | while something is missing and nothing was refused, the next message is the first reply or starts a buffered frame, or something is still under way on the replay path |
| `ReplaySystem.StepForward` | utttil/io/udpmr_msg.hpp:281-359 | there is then a step that delivers more, or as much with fewer requests open, or as many with fewer replies under way |
| `ReplaySystem.Recovers` | utttil/io/udpmr_msg.hpp:281-359 | from every invariant state in which nothing still needed is trimmed or refused, some run of serving, receiving and unpacking reaches `next_ordered_seq` == `next_expected_seq`; other clients and the server log are untouched |
| `ReplaySystem.ServeKeeps` | utttil/io/udpmr_msg.hpp:437-478 | serving the first waiting request is possible and keeps the partition of the missing numbers |
| `ReplaySystem.ReadKeeps` | utttil/io/udpmr_msg.hpp:246-271 | reading any datagram ever aired keeps it |
| `ReplaySystem.DrainKeeps` | utttil/io/udpmr_msg.hpp:291-316 | looking at the first reply keeps it |
| `ReplaySystem.DeliverKeeps` | utttil/io/udpmr_msg.hpp:318-348 | copying a frame that is next keeps it |
| `ReplaySystem.DropKeeps` | utttil/io/udpmr_msg.hpp:350-357 | popping a frame that is behind keeps it |
| `ReplayPeers.ReplayClient.constructor` | utttil/io/udpmr_msg.hpp:203-214 | both counters start at 0, everything empty |
| `ReplayPeers.ReplayClient.RequestReplay` | utttil/io/udpmr_msg.hpp:225-232 | one request, with the next id, joins the outbox |
| `ReplayPeers.ReplayClient.Read` | utttil/io/udpmr_msg.hpp:234-277 | nothing when the buffer is full; otherwise the new state and the request sent are those of the protocol step |
| `ReplayPeers.ReplayClient.Pops` | utttil/ring_buffer.hpp:156-161 | the application pops as many messages as it likes: a piece of the protocol, and nothing else changes |
| `ReplayPeers.ReplayClient.AwaitRoom` | utttil/ring_buffer.hpp:287-290 | the wait of `push_back`: only application pops happen, and then there is room |
| `ReplayPeers.ReplayClient.PushReply` | utttil/io/udpmr_msg.hpp:301-306 | one reply moves to the inbox: a run of protocol pieces |
| `ReplayPeers.ReplayClient.LookAtReply` | utttil/io/udpmr_msg.hpp:291-316 | one turn of the loop is a run of protocol pieces: the head is delivered if it is next, dropped if it is behind, and otherwise the loop ends |
| `ReplayPeers.ReplayClient.DrainReplies` | utttil/io/udpmr_msg.hpp:291-316 | the loop is a run of protocol pieces, delivers something if the head is next, and stops only at an empty inbox, a refusal or a reply that is ahead |
| `ReplayPeers.ReplayClient.CopyFrame` | utttil/io/udpmr_msg.hpp:324-339 | the copied frame is one protocol piece and advances both counters by its length |
| `ReplayPeers.ReplayClient.DeliverFrames` | utttil/io/udpmr_msg.hpp:318-348 | the loop is a run of protocol pieces and delivers something if the first frame that is next fits |
| `ReplayPeers.ReplayClient.DropFrames` | utttil/io/udpmr_msg.hpp:350-357 | the loop is a run of protocol pieces; the front frame is then not behind |
| `ReplayPeers.ReplayClient.Unpack` | utttil/io/udpmr_msg.hpp:281-359 | whatever the application pops before any step of its loops, the outcome is a run of protocol pieces; if the next item is at hand and fits, `next_ordered_seq` strictly increases; the result says whether it did; if the inbox was not full on entry, the front frame left is not behind |
| `ReplayPeers.ReplayClient.UnpackInSystem` | utttil/io/udpmr_msg.hpp:281-359 | for any client in any session of the system, with room on entry: the frames left are exactly the earlier ones that are undelivered, so once `next_ordered_seq` reaches `next_expected_seq` the buffer is empty; that every reply has arrived stays true |
| `ReplayPeers.ReplayClient.RoomNeeded` | utttil/io/udpmr_msg.hpp:324-326 | the room the next item needs: one message, or exactly the length of a frame that starts at `next_ordered_seq`, the longest there is; never more than the inbox has |
| `ReplayPeers.ReplayClient.CatchUp` | utttil/io/udpmr_msg.hpp:281-359 | once every reply has arrived unrefused, iterating `Unpack` with an application that pops enough for the next item reaches `next_expected_seq`, the distance to it falling each time; the inbox has then been given everything published below it, and once an `Unpack` has run no frame is left |
| `ReplayPeers.RunKeepsArrived` | utttil/io/udpmr_msg.hpp:281-359 | no piece of `unpack` and no pop disturbs that everything has arrived |
| `ReplayPeers.UnpackIsSystemRun` | utttil/io/udpmr_msg.hpp:281-359 | such a run is a run of the whole system, so the safety theorems apply to the object |
| `ReplayPeers.ArrivedMeansReady` | utttil/io/udpmr_msg.hpp:281-359 | with something missing, every reply arrived unrefused and room for the next item, `Unpack` has what it needs to deliver |
| `ReplayPeers.ReplayServer.constructor` | utttil/io/udpmr_msg.hpp:374-382 | an empty log, `sent_it` at its beginning |
| `ReplayPeers.ReplayServer.AsyncSend` | utttil/io/udpmr_msg.hpp:486-493 | the log grows by the message |
| `ReplayPeers.ReplayServer.Hand` | utttil/io/udpmr_msg.hpp:423-426 | messages are handed to multicast in order, none twice, none left out, until none is left or the queue is full |
| `ReplayPeers.ReplayServer.ServeNext` | utttil/io/udpmr_msg.hpp:437-478 | one request is answered as the protocol says and leaves the inbox; the positions it computes lie in the log |
| `ReplayPeers.ReplayServer.CopyOut` | utttil/io/udpmr_msg.hpp:466-475 | the loop sends exactly the messages between two positions |
| `ReplayPeers.ReplayServer.Trim` | utttil/io/udpmr_msg.hpp:480-482 | front moves by exactly capacity/1024 when both tests pass and not at all otherwise; it never passes `sent_it`; once all is handed on, capacity/1024 slots are free afterwards |
| `RingBuffers.RingRefinesQueue` | utttil/ring_buffer.hpp:118-295 | over any operation sequence, and with 64-bit counters starting anywhere and wrapping, the contents agree with a bounded queue |
| `RingBuffers.OpRefines` | utttil/ring_buffer.hpp:88-295 | one operation of it |
| `RingBuffers.SlotWraps` | utttil/ring_buffer.hpp:118-131 | masking a counter after it wraps at 2^64 gives the slot that follows round the array |
| `RingBuffers.AdvanceBackAppends` | utttil/ring_buffer.hpp:249-258 | publishing n slots appends exactly what lies in them |
| `RingBuffers.AdvanceFrontDrops` | utttil/ring_buffer.hpp:259-263 | releasing n slots drops exactly the n oldest elements |
| `RingBuffers.FillWrites` | utttil/ring_buffer.hpp:287-295 | writing free slots in order changes nothing that is published |
| `RingBuffers.PushAppends` | utttil/ring_buffer.hpp:287-295 | storing and bumping the back counter appends one element |
| `RingBuffers.FrontStretchesAreContents` | utttil/ring_buffer.hpp:206-248 | the first front stretch followed by the second reads exactly the contents, in order |
| `RingBuffers.BackStretchesAreFree` | utttil/ring_buffer.hpp:163-205 | the first back stretch followed by the second is exactly the free slots, in fill order |
| `RingBuffers.BackStretchSlots` | utttil/ring_buffer.hpp:163-184 | the first back stretch is empty only when the buffer is full |
| `RingBuffers.StretchesPartition` | utttil/ring_buffer.hpp:163-248 | every slot is in exactly one of the front and the back views |
| `RingBuffers.RingBuffer.constructor` | utttil/ring_buffer.hpp:22-28 | an empty buffer of 2^bits slots |
| `RingBuffers.RingBuffer.Slot` | utttil/ring_buffer.hpp:118-131 | the bitwise and with the mask is the slot of a counter |
| `RingBuffers.RingBuffer.Size` | utttil/ring_buffer.hpp:101-104 | the wrapping difference of the counters is the number of elements |
| `RingBuffers.RingBuffer.FreeSize` | utttil/ring_buffer.hpp:105-108 | elements and free slots make up the capacity |
| `RingBuffers.RingBuffer.Empty` | utttil/ring_buffer.hpp:109-112 | equal counters mean no contents |
| `RingBuffers.RingBuffer.Full` | utttil/ring_buffer.hpp:113-116 | full means as many elements as the capacity |
| `RingBuffers.RingBuffer.Clear` | utttil/ring_buffer.hpp:88-91 | the contents become empty |
| `RingBuffers.RingBuffer.Reset` | utttil/ring_buffer.hpp:92-95 | the contents become empty |
| `RingBuffers.RingBuffer.Front` | utttil/ring_buffer.hpp:118-123 | the oldest element |
| `RingBuffers.RingBuffer.PushBack` | utttil/ring_buffer.hpp:287-295 | the contents grow by the element; the state is that of the queue operation |
| `RingBuffers.RingBuffer.PopFront` | utttil/ring_buffer.hpp:156-161 | the oldest element leaves |
| `RingBuffers.RingBuffer.PopFrontN` | utttil/ring_buffer.hpp:145-155 | the loop removes exactly the n oldest elements |
| `RingBuffers.RingBuffer.AdvanceBack` | utttil/ring_buffer.hpp:249-253 | appends what the next n free slots hold |
| `RingBuffers.RingBuffer.AdvanceFront` | utttil/ring_buffer.hpp:259-263 | drops the n oldest elements |
| `RingBuffers.RingBuffer.BackStretch` | utttil/ring_buffer.hpp:163-184 | returns the stretch the view lemmas are about |
| `RingBuffers.RingBuffer.BackStretch2` | utttil/ring_buffer.hpp:185-205 | returns the stretch the view lemmas are about |
| `RingBuffers.RingBuffer.FrontStretch` | utttil/ring_buffer.hpp:206-227 | returns the stretch the view lemmas are about |
| `RingBuffers.RingBuffer.FrontStretch2` | utttil/ring_buffer.hpp:228-248 | returns the stretch the view lemmas are about |
| `RingBuffers.RingReader.constructor` | utttil/srlz/device.hpp:209-213 | nothing read yet |
| `RingBuffers.RingReader.Get` | utttil/srlz/device.hpp:214-236 | the next element of the contents, in order across both stretches; the exception exactly at the limit or the end |
| `RingBuffers.RingWriter.constructor` | utttil/srlz/device.hpp:248-254 | nothing written yet |
| `RingBuffers.RingWriter.Store` | utttil/srlz/device.hpp:259-274 | exactly the next free slot is written, whichever stretch it is in |
| `RingBuffers.RingWriter.Put` | utttil/srlz/device.hpp:255-275 | the next free slot is filled, in order across both stretches, nothing published changes; the exception exactly at the limit or when full |
| `Spsc.InvKept` | utttil/ring_buffer.hpp:118-161 | every interleaved step of producer (`push_back(t)`, batches with `advance_back(n)`, `push_back()`) and consumer (`front`, `pop_front`, batches with `advance_front(n)`, `pop_front(n)`) keeps: pushed = popped + contents, and what each has in hand is right; except a load of a slot that `push_back()` has published and its caller not written |
| `Spsc.LoadExactly` | utttil/ring_buffer.hpp:270-277 | a load keeps that if and only if it is not of such a slot |
| `Spsc.PoppedIsPrefix` | utttil/ring_buffer.hpp:118-123 | in every interleaving without such a load the values popped are a prefix of those pushed and the rest is still in the buffer, or owed |
| `Spsc.WriteFirstIsTimely` | utttil/ring_buffer.hpp:287-295 | without `push_back()` no interleaving has such a load |
| `Spsc.StaleLoadIsPopped` | utttil/ring_buffer.hpp:270-277 | such a load is of the newest slot, and the pop that follows yields a value that was not pushed there |
| `Spsc.LateWriteBreaksPrefix` | utttil/ring_buffer.hpp:270-277 | a run of five steps in which it happens |
| `Spsc.NoLiveSlotOverwritten` | utttil/ring_buffer.hpp:287-295 | the producer's store lands on no slot that is published and not yet popped |
| `Spsc.PopNeverSpins` | utttil/ring_buffer.hpp:156-161 | the second emptiness test, in `pop_front` after `front`, always passes |
| `Spsc.ReleaseKeepsProducer` | utttil/ring_buffer.hpp:259-263 | slots released at any moment disturb neither what the producer has stored nor where it owes a value |
| `StretchRaces.BackStretchRaces` | utttil/ring_buffer.hpp:163-184 | with slots released between its reads of `front_`, `back_stretch` returns a run of free slots, the next to fill, if and only if the front does not pass the end of the array between the second and the third read, short of the back |
| `StretchRaces.BackStretchSafe` | utttil/ring_buffer.hpp:163-184 | checked before the call: `back_stretch` is right under every schedule of releases if and only if not (some slot is free and 0 < slot of the back < slot of the front) |
| `StretchRaces.SeenLength` | utttil/ring_buffer.hpp:177-182 | when it does, the length underflows to more than the array; in every other case it does not |
| `StretchRaces.BackStretchOverruns` | utttil/ring_buffer.hpp:177-182 | capacity 8, `back_` 10, `front_` going from 7 to 8 |
| `StretchRaces.BackPairRaces` | utttil/ring_buffer.hpp:163-205 | slots released between `back_stretch` and `back_stretch_2`: the first count of the slots of the two are the next free ones, in fill order, if and only if count stays in the first stretch or the front does not pass the end of the array meanwhile |
| `StretchRaces.BackPairSkips` | utttil/ring_buffer.hpp:163-205 | 8 slots, `back_` 10, `front_` going from 6 to 9: slots 6 and 7 are skipped |
| `StretchRaces.FrontStretchRaces` | utttil/ring_buffer.hpp:206-227 | with slots published between its reads of `back_`, `front_stretch` returns published slots, the next to read, if and only if the back does not pass the end of the array between the second and the third read |
| `StretchRaces.FrontStretchSafe` | utttil/ring_buffer.hpp:206-227 | checked before the call: `front_stretch` is right under every schedule of publications if and only if not 0 < slot of the front < slot of the back |
| `StretchRaces.FrontStretchOverruns` | utttil/ring_buffer.hpp:206-227 | 8 slots, `front_` 6, `back_` going from 7 to 9: the stretch is slots 6, 7 and 8 |
| `StretchRaces.FrontPairRaces` | utttil/ring_buffer.hpp:206-248 | slots published between `front_stretch` and `front_stretch_2`: the first count of the slots of the two are the oldest elements, in order, if and only if count stays in the first stretch or the back does not pass the end of the array meanwhile |
| `StretchRaces.FrontPairSkips` | utttil/ring_buffer.hpp:206-248 | 8 slots, `front_` 2, `back_` going from 6 to 10: slots 6 and 7 are skipped |
| `WriteLoops.ReadsAreCalls` | utttil/iou/peer.hpp:188-189 | the reads of `write_loop`, one by one with publications in between, are the two racing calls |
| `WriteLoops.WriteLoopExactly` | utttil/iou/peer.hpp:183-203 | slots published between any two reads of `front_stretch` and `front_stretch_2`: the kernel is handed the contents in order if and only if the back passes the end of the array neither between the last two reads of the first call nor between that call and the second read of the next, to be beyond it at the third |
| `WriteLoops.SlotsInside` | utttil/iou/peer.hpp:239-246 | what the kernel took lies inside the array and is no more than there is: the assertion of `sent` holds |
| `WriteLoops.SentExactly` | utttil/iou/peer.hpp:239-246 | the slots the kernel took are the slots `sent(count)` releases if and only if it did not go on to the second stretch while the first ended short of the array |
| `WriteLoops.WireIsGone` | utttil/iou/peer.hpp:239-246 | over any number of writes of which none skips slots, what went out is what left the outbox |
| `WriteLoops.RawWriteExactly` | utttil/io/tcp_raw.hpp:147-161 | `write` of the tcp socket, with its one racing stretch of any length: what is sent is what is released if and only if it does not reach beyond the array |
| `WriteLoops.ReadKeeps` | utttil/iou/peer.hpp:188-189 | no read spoils what is known of the stretches held |
| `WriteLoops.GrowthKeeps` | utttil/iou/peer.hpp:314-333 | nor does writing into slots or publishing them |
| `StretchRaces.ReleaseKeepsPending` | utttil/ring_buffer.hpp:259-263 | what is stored in free slots stays the next to publish while slots are released |
| `Framing.UnpackedIsPrefixOfSent` | utttil/iou/peer.hpp:255-311 | for every way of chopping the byte stream and interleaving pack, read, unpack (either form) and pops, the messages unpacked are a prefix of those sent |
| `Framing.CompleteFrameIsDelivered` | utttil/iou/peer.hpp:284-311 | the waiting form: a round of `unpack` that finds room delivers the next message if and only if its frame is completely received |
| `Framing.TcpClosesExactly` | utttil/io/tcp_msg.hpp:101-128 | the closing form shuts a healthy connection if and only if what is left in its inbox is non-empty and has no stop bit |
| `Framing.LongMessageCanClose` | utttil/io/tcp_msg.hpp:106-112 | for every codec and every message of 64 bytes or more that fits the outbox there is a run in which nothing is lost and the closing form closes, while the waiting form waits |
| `Framing.TcpClosesHealthyLink` | utttil/io/tcp_msg.hpp:106-112 | such a codec and message exist |
| `Framing.ArrivedIsDelivered` | utttil/io/tcp_msg.hpp:101-128 | when everything sent has arrived, the next round of either form that finds room delivers the next message, and the closing form does not close |
| `Framing.ShortMessagesNeverClose` | utttil/io/tcp_msg.hpp:101-128 | with messages below 64 bytes the closing form never closes |
| `Framing.ParsePrefix` | utttil/iou/peer.hpp:284-309 | one attempt on the beginning of a stream of frames: the first message exactly when its frame is there, otherwise which failure depends on whether the size prefix is complete |
| `Framing.ParsesFrame` | utttil/iou/peer.hpp:288-306 | a whole frame parses to its message and its length, whatever follows |
| `Framing.LinkStepKeeps` | utttil/iou/peer.hpp:239-311 | every step keeps: unpacked messages, bytes under way and queued messages make up what was sent |
| `MsgPeers.MsgPeer.constructor` | utttil/iou/peer.hpp:107-116 | four empty buffers of the source's sizes |
| `MsgPeers.MsgPeer.AsyncSend` | utttil/iou/peer.hpp:334-341 | the message queue grows by the message |
| `MsgPeers.MsgPeer.Sent` | utttil/iou/peer.hpp:239-246 | the bytes released leave the front of the outbox, and the write is recorded with the slots the kernel was handed |
| `MsgPeers.MsgPeer.ReadOn` | utttil/iou/peer.hpp:183-189 | one read of `back_` and the branch it decides; neither call can find the outbox empty |
| `MsgPeers.MsgPeer.LoopStep` | utttil/iou/peer.hpp:176-204 | one step of the ring thread: a read, or the kernel takes any count of what it was handed |
| `MsgPeers.MsgPeer.LoopSteps` | utttil/iou/peer.hpp:176-204 | any number of its steps: bytes leave the front of the outbox, and the record says which |
| `MsgPeers.MsgPeer.Rcvd` | utttil/iou/peer.hpp:247-253 | the bytes that arrived join the inbox, in order across the wrap |
| `MsgPeers.MsgPeer.AwaitRoom` | utttil/iou/peer.hpp:318-323 | the wait ends with room, or with a closed descriptor after the outbox was found full; only the ring thread moves meanwhile |
| `MsgPeers.MsgPeer.RacingStretch` | utttil/iou/peer.hpp:324-324 | the three reads of `back_stretch` with the ring thread going on between them |
| `MsgPeers.MsgPeer.CopyAndPublish` | utttil/iou/peer.hpp:325-330 | the copied bytes are published behind what is left, whatever the ring thread does meanwhile |
| `MsgPeers.MsgPeer.WriteSome` | utttil/iou/peer.hpp:318-330 | one turn of the loop: some bytes are written, or the outbox is smaller, or the loop ends for a reason that can be read off the outbox |
| `MsgPeers.MsgPeer.AsyncWrite` | utttil/iou/peer.hpp:314-333 | while the ring thread reads `back_` and the kernel takes bytes at every point, what leaves the outbox and what is in it make up what was there and what was written; what goes out is what leaves it unless some write skipped slots; all of it is written unless the descriptor is closed with the outbox having been full, or the front passes the end of the array while the stretch is read, both read off the states of the outbox itself |
| `MsgPeers.MsgPeer.PackNext` | utttil/iou/peer.hpp:259-281 | one turn: the whole frame goes out, or nothing changes because it does not fit |
| `MsgPeers.MsgPeer.Pack` | utttil/iou/peer.hpp:255-283 | the outbox grows by the frames of the messages that left the queue; the loop stops only when the queue is empty or the next frame does not fit |
| `MsgPeers.ReadInteger` | utttil/srlz/int.hpp:135-146 | through the ring reader: the value of the integer at the front and the bytes it took, or failure if and only if there is no stop bit |
| `MsgPeers.MsgPeer.ReadRest` | utttil/iou/peer.hpp:300-306 | pulls exactly the remaining bytes, in order |
| `MsgPeers.MsgPeer.TryParse` | utttil/iou/peer.hpp:288-306 | one attempt through the ring reader is the attempt `ParsePrefix` is about |
| `MsgPeers.MsgPeer.Round` | utttil/iou/peer.hpp:286-310 | one round delivers the next message of the stream and its bytes leave the inbox, or nothing changes and the reason is told |
| `MsgPeers.MsgPeer.Unpack` | utttil/iou/peer.hpp:284-311 | delivers messages of the incoming stream in order, stopping only for want of room or of a complete frame |
| `MsgPeers.MsgPeer.UnpackOrClose` | utttil/io/tcp_msg.hpp:96-130 | the same, and it closes exactly when it ends with room for a message and bytes left that have no stop bit; with a full message inbox it never closes |
| `MsgPeers.Append` | utttil/iou/peer.hpp:271-276 | two stretches, a writer and `advance_back` append the bytes to the contents |
| `MsgPeers.CopyIn` | utttil/iou/peer.hpp:325-326 | copying into a free stretch fills the next free slots and changes nothing published |
| `ReplayMessages.RequestRoundTrip` | utttil/io/udpmr_msg.hpp:45-61 | a replay request read back is the request |
| `ReplayMessages.RequestNumbers` | utttil/io/udpmr_msg.hpp:45-53 | to a reader of plain stop-bit numbers a request is its id, begin, end, and nothing more |
| `ReplayMessages.PayloadRoundTrip` | utttil/io/udpmr_msg.hpp:90-112 | a reply with status 0 carries its message and nothing else |
| `ReplayMessages.RefusalRoundTrip` | utttil/io/udpmr_msg.hpp:90-112 | a reply with any other status carries the two bounds and no message |
| `ReplayMessages.ReplyNumbers` | utttil/io/udpmr_msg.hpp:90-101 | to a reader of plain stop-bit numbers a reply is its id and its status, and then the message if the status is 0, begin and end of the log otherwise |
| `ReplayMessages.RequestsAreLawful` | utttil/io/udpmr_msg.hpp:25-62 | replay requests meet the assumptions of the framing layer |
| `ReplayMessages.RepliesAreLawful` | utttil/io/udpmr_msg.hpp:63-113 | so do replies, for any lawful message that fits a datagram |
| `ReplayMessages.ReplayConnectionIsQueue` | utttil/io/tcp_msg.hpp:65-130 | a replay connection is the reliable queue of whole messages the protocol assumes: in order, nothing lost or added, the next one unpacked once everything sent has arrived; and a server never closes it on a split prefix |
| `ReplayMessages.ShortRepliesNeverClose` | utttil/io/tcp_msg.hpp:101-128 | with messages of at most 57 bytes neither does a client |
| `ReplayMessages.LongReplyCanClose` | utttil/io/tcp_msg.hpp:106-112 | with a message of 62 bytes or more a client can |
| `ReplayMessages.ReplayedRequestsNeverClose` | utttil/io/tcp_msg.hpp:101-128 | so never with the request message |
| `Datagrams.DatagramsCarryEverything` | utttil/io/udpm_msg.hpp:134-177 | after any posts, packs and writes: every datagram is at most 1400 bytes and carries a non-empty run; the runs, the buffer and the queue make up exactly what was posted, in order |
| `Datagrams.FittingFits` | utttil/io/udpm_msg.hpp:163-165 | what is packed fits the buffer and the next frame would not |
| `Datagrams.PackProgress` | utttil/io/udpm_msg.hpp:149-177 | with an empty buffer and a message waiting, something is packed if and only if the first frame is at most 1400 bytes; what is packed is as much as fits |
| `Datagrams.OversizedBlocks` | utttil/io/udpm_msg.hpp:163-165 | a first message that does not fit is never sent, nor is anything behind it |
| `Datagrams.MulticastServer.constructor` | utttil/io/udpm_msg.hpp:99-116 | empty |
| `Datagrams.MulticastServer.AsyncSend` | utttil/io/udpm_msg.hpp:179-186 | the queue grows by the message |
| `Datagrams.MulticastServer.Put` | utttil/srlz/device.hpp:105-119 | the bytes join the buffer |
| `Datagrams.MulticastServer.PackNext` | utttil/io/udpm_msg.hpp:153-176 | one turn: the whole frame joins the buffer, or nothing changes because it does not fit |
| `Datagrams.CastStepKeeps` | utttil/io/udpm_msg.hpp:134-186 | every post, pack and write keeps that |
| `Datagrams.MulticastServer.Pack` | utttil/io/udpm_msg.hpp:149-177 | nothing when the buffer is in use; otherwise the loop packs a whole number of messages, and stops only at an empty queue or a frame that would make more than 1400 bytes |
| `Datagrams.MulticastServer.Write` | utttil/io/udpm_msg.hpp:134-147 | the whole buffer goes out and is emptied, or nothing changes |
| `Datagrams.FrameData.constructor` | utttil/io/udpmr_msg.hpp:124-136 | a received datagram, its end points not yet known |
| `Datagrams.FrameData.GetFirstSeq` | utttil/io/udpmr_msg.hpp:138-154 | the number of the run's first message, cached or not |
| `Datagrams.FrameData.GetLastSeq` | utttil/io/udpmr_msg.hpp:155-188 | skipping from prefix to prefix finds the number of the run's last message |
| `Datagrams.FrameData.Messages` | utttil/io/udpmr_msg.hpp:329-338 | the copying loop reads back the first `count` messages of the run |
| `StopBit.RoundTrip` | utttil/srlz/int.hpp:22-52 | decoding an encoding followed by anything gives the number and leaves the rest |
| `StopBit.GroupsAreDigits` | utttil/srlz/int.hpp:22-52 | the bytes are the base-128 digits of the number in two's complement, most significant first, no more than its sign needs; 128 is added to the last and to no other |
| `StopBit.MachineRoundTrip` | utttil/srlz/int.hpp:135-146 | so does the machine, on every signedness and every width from 8 to 128 bits |
| `StopBit.PrefixFree` | utttil/srlz/int.hpp:22-52 | no encoding is a prefix of another |
| `StopBit.StopOnlyAtEnd` | utttil/srlz/int.hpp:32-33 | the last byte, and only it, carries the stop bit |
| `StopBit.DecodeNeedsStop` | utttil/srlz/int.hpp:139-143 | the input ends too early if and only if it has no stop bit |
| `StopBit.DecodeExtends` | utttil/srlz/int.hpp:135-146 | bytes behind a complete number do not change it |
| `StopBit.Shortest` | utttil/srlz/int.hpp:35-48 | no byte string that decodes to a number is shorter than its encoding |
| `StopBit.SizeEstimate` | utttil/srlz/int.hpp:62-115 | on every type and value: the size estimate is the true length, or one less exactly when the top 7-bit group is full; a negative number is estimated at one byte whatever its length; on int64_t every estimate is one higher than that |
| `StopBit.EncodedLength` | utttil/srlz/binary_write.hpp:55-56 | no encoding of a 128-bit type overruns the 50-byte buffer |
| `StopBit.WrapStep` | utttil/srlz/int.hpp:141-144 | truncating before or after the shift by seven comes to the same |
| `StopBit.MachineReads` | utttil/srlz/int.hpp:135-146 | the accumulating loop holds the exact number, truncated to its type |
| `StopBit.ReverseInPlace` | utttil/srlz/int.hpp:50-50 | the first n bytes are reversed, the others untouched |
| `StopBit.WriteGroups` | utttil/srlz/int.hpp:24-30 | the loop writes the low groups and stops with 0 or -1 left |
| `StopBit.Serialize` | utttil/srlz/int.hpp:13-52 | the buffer starts with exactly the encoding of the value, on every type |
| `StopBit.DeserializeAt` | utttil/srlz/int.hpp:117-125 | the pointer form reads back the value at the front of memory |
| `BinaryCodec.RoundTrip` | utttil/srlz/binary_read.hpp:38-196 | for all nested types (integers, strings, pairs, arrays, vectors, collections, maps, variants) reading what was written gives the value and leaves what follows |
| `BinaryCodec.WireExample` | utttil/srlz/binary_write.hpp:36-154 | known bytes of a pair of a map and a vector, on every machine type |
| `BinaryCodec.VariantExample` | utttil/srlz/binary_write.hpp:36-154 | known bytes of a variant that holds a list and an array |
| `BinaryCodec.SelfDelimiting` | utttil/srlz/binary_write.hpp:36-154 | from a stream the first value and the rest are determined |
| `BinaryCodec.DecodeExtends` | utttil/srlz/binary_read.hpp:38-196 | more input behind a value that decodes changes nothing |
| `BinaryCodec.TruncatedIsRejected` | utttil/srlz/binary_read.hpp:38-196 | every proper beginning of an encoding fails to decode |
| `BinaryCodec.ArraysOfAnySize` | utttil/srlz/binary_read.hpp:88-98 | a built-in array reads any number of elements up to its length and refuses more |
| `BinaryCodec.UnknownAlternative` | utttil/srlz/binary_read.hpp:173-196 | an index beyond the alternatives leaves a variant as it was |
| `BinaryCodec.RepeatedKeys` | utttil/srlz/binary_read.hpp:158-171 | a map read from any entries, repeated keys included, has exactly their keys, each once, with the first value given for it |
| `BinaryStream.Writer.Put` | utttil/srlz/device.hpp:16-22 | the null writer counts the bytes the real writer keeps |
| `BinaryStream.Reader.Get` | utttil/srlz/device.hpp:95-101 | the next byte, or the end |
| `BinaryStream.PutInt` | utttil/srlz/binary_write.hpp:48-60 | the encoding of the integer is emitted |
| `BinaryStream.PutSize` | utttil/srlz/binary_write.hpp:111-113 | the encoding of the size is emitted |
| `BinaryStream.Put` | utttil/srlz/binary_write.hpp:36-154 | the writers emit exactly the encoding of the value |
| `BinaryStream.PutElements` | utttil/srlz/binary_write.hpp:130-145 | the loop emits the elements in order |
| `BinaryStream.PutEntries` | utttil/srlz/binary_write.hpp:118-145 | the loop emits key and value of each entry in order |
| `BinaryStream.PreviewThenWrite` | utttil/iou/peer.hpp:261-275 | the size previewed with a null writer is the number of bytes the real writer emits |
| `BinaryStream.GetInt` | utttil/srlz/binary_read.hpp:50-65 | the integer at the front, or failure exactly when there is no stop bit |
| `BinaryStream.GetSize` | utttil/srlz/binary_read.hpp:104-105 | the size at the front |
| `BinaryStream.GetString` | utttil/srlz/binary_read.hpp:100-112 | exactly `size` bytes, or failure when there are fewer |
| `BinaryStream.Get` | utttil/srlz/binary_read.hpp:38-196 | the readers return what the decoding function says and leave the rest |
| `BinaryStream.GetElements` | utttil/srlz/binary_read.hpp:128-137 | the loop reads the elements in order |
| `BinaryStream.GetEntries` | utttil/srlz/binary_read.hpp:158-171 | the loop inserts entries, ignoring a key already there |
| `Messages.RequestRoundTrip` | src/msg.hpp:167-195 | a request read back has every field its type and flags put on the wire and the target's old value in every other |
| `Messages.RequestBytes` | src/msg.hpp:61-78 | byte by byte: a request of type 6 carries its order and no other does; behind the lot count comes one byte whose bits 0 to 3 are `is_sell`, `is_limit`, `is_stop`, `participate_dont_initiate`, then the limit price and the stop price that its bits announce |
| `Messages.OrdersAreCarried` | src/msg.hpp:167-195 | a request of type 6 read back carries its order; a request of any other type leaves the target's order alone |
| `Messages.TruncatedRequestIsRejected` | src/msg.hpp:182-195 | a request cut short anywhere is not read |
| `Messages.OrderRoundTrip` | src/msg.hpp:61-96 | the same for an order: prices are present exactly as the flags say |
| `Messages.RequestIsShort` | src/msg.hpp:167-181 | a request takes at most 48 bytes |
| `Messages.RequestCodecIsLawful` | src/msg.hpp:122-199 | requests meet every assumption of the framing and datagram layers |
| `Messages.RequestsNeverCloseTcp` | utttil/io/tcp_msg.hpp:101-128 | so the closing form never closes a connection that carries requests |
| `Messages.SourceEqualsIsWrong` | src/msg.hpp:103-115 | `operator==` on orders can be true of orders with different instruments: `&&` binds tighter than `?:` |
| `Messages.SourceEqualsIsRightWhen` | src/msg.hpp:103-115 | it is right if and only if the two orders avoid two exactly described cases |
| `Messages.PutOrder` | src/msg.hpp:61-78 | the bytes emitted are the encoding of the order |
| `Messages.PutOptional` | src/msg.hpp:74-77 | a field is emitted exactly if present |
| `Messages.PutRequest` | src/msg.hpp:167-181 | the bytes emitted are the ones `Messages.RequestBytes` spells out |
| `Messages.GetOrder` | src/msg.hpp:79-96 | what is read is what the decoding function says |
| `Messages.GetRequest` | src/msg.hpp:182-195 | what is read is what `Messages.OrdersAreCarried` is about |
| `Pools.FreeListIsExact` | utttil/pool.hpp:35-81 | after any alloc/free history, whatever the never-written last link holds: following `capacity - size` links finds that many distinct cells, exactly those not live; so the next `alloc` returns no live cell |
| `Pools.StepSound` | utttil/pool.hpp:60-81 | one alloc or free of a live cell keeps the free list exact |
| `Pools.HistorySound` | utttil/pool.hpp:60-81 | so does any history of them |
| `Pools.ChainIsReached` | utttil/pool.hpp:98-108 | following links visits the free list and never uses its last link |
| `Pools.AllocKeeps` | utttil/pool.hpp:60-71 | taking the head off keeps the free list exact |
| `Pools.FreeKeeps` | utttil/pool.hpp:73-81 | putting a live cell in front keeps the free list exact |
| `Pools.ChainCount` | utttil/pool.hpp:54-57 | free cells and live cells together are all cells |
| `Pools.LiveIndicesExact` | utttil/pool.hpp:109-115 | the indices `for_each` visits are the live cells, each once |
| `Pools.FixedPool.constructor` | utttil/pool.hpp:35-47 | the loop links all cells; no object is live |
| `Pools.LinkingStaysInside` | utttil/pool.hpp:45-46 | the linking loop stays inside the pool if and only if the capacity is not 0; at 0 it never ends |
| `Pools.FixedPool.Alloc` | utttil/pool.hpp:60-71 | null exactly when full; otherwise a cell that was not live now holds the object and every other is unchanged |
| `Pools.FixedPool.Free` | utttil/pool.hpp:73-81 | exactly that cell is no longer live |
| `Pools.FixedPool.ElementAt` | utttil/pool.hpp:89-96 | the object in that cell |
| `Pools.FixedPool.ForEach` | utttil/pool.hpp:98-116 | each live cell exactly once, in index order, `size` of them |
| `Pools.MakePool` | utttil/pool.hpp:43-44 | a capacity too large for the index type is rejected, and only that |
| `SeqDicts.KeysAreNeverReused` | utttil/dict.hpp:90-100 | over any history a key once issued is not issued again, and once erased never comes back |
| `SeqDicts.EntriesPersist` | utttil/dict.hpp:90-122 | an entry keeps its value until its own key is erased |
| `SeqDicts.EntriesExactly` | utttil/dict.hpp:82-122 | after any history from empty: the keys issued are 0, 1, 2, ... in push order, a push issues one exactly below capacity, and the entries are exactly the keys issued and not erased since, each with the value pushed under it |
| `SeqDicts.PushLinks` | utttil/dict.hpp:96-98 | a push keeps the key map injective onto exactly the live cells and adds one entry |
| `SeqDicts.EraseLinks` | utttil/dict.hpp:113-122 | an erase keeps that too and removes exactly that entry |
| `SeqDicts.SeqDict.SizesMatch` | utttil/dict.hpp:87-88 | entries, keys and live cells are equally many |
| `SeqDicts.SeqDict.constructor` | utttil/dict.hpp:82-84 | empty |
| `SeqDicts.SeqDict.PushBack` | utttil/dict.hpp:90-100 | agrees with the plain map; exactly when not full, the value is inserted under the next key, one cell more is live, and all other entries stay; a failed push changes nothing |
| `SeqDicts.SeqDict.Contains` | utttil/dict.hpp:101-105 | membership in the plain map |
| `SeqDicts.SeqDict.Find` | utttil/dict.hpp:106-112 | the value in the plain map, or null |
| `SeqDicts.SeqDict.Erase` | utttil/dict.hpp:113-122 | the entries lose exactly that key, the sequence number stays, and one cell is free again exactly if the key was there, which is the result |
| `SeqDicts.RemoveIfUnstable` | utttil/dict.hpp:361-369 | before the returned end nothing satisfies the predicate, from it on everything does, and the collection is a permutation |
| `DFloats.NormalizeIsExact` | utttil/dfloat.hpp:185-244 | bringing two decimals to one exponent changes neither value; with loss nothing moves at all |
| `DFloats.AddIsExact` | utttil/dfloat.hpp:151-167 | without loss the rational value is precisely the sum; with loss the value of `*this` is what it was |
| `DFloats.SubIsExact` | utttil/dfloat.hpp:168-184 | without loss precisely the difference; with loss the value of `*this` is what it was |
| `DFloats.SubUndoesAdd` | utttil/dfloat.hpp:151-184 | after a lossless `add_loss(b)`, `sub_loss(b)` is lossless and restores the value |
| `DFloats.LossCanBeSpurious` | utttil/dfloat.hpp:190-211 | two decimals whose sum is representable at a third exponent and is nevertheless reported lost |
| `DFloats.LossIsSpuriousExactly` | utttil/dfloat.hpp:151-167 | `add_loss` reports loss for a representable sum if and only if the stripped sum fits a mantissa and yet neither scaling the coarser operand up nor the finer one down gives a sum that fits |
| `DFloats.SubLossExactly` | utttil/dfloat.hpp:168-184 | `sub_loss` reports a loss if and only if the difference is below zero, or the coarser minuend cannot be scaled up nor the finer subtrahend down |
| `DFloats.SubLossIsSpuriousExactly` | utttil/dfloat.hpp:168-184 | for a difference not below zero that some decimal holds, exactly when it takes that branch and the stripped difference fits a mantissa |
| `DFloats.LossExactly` | utttil/dfloat.hpp:185-244 | when loss is reported at all |
| `DFloats.RepresentableExactly` | utttil/dfloat.hpp:58-78 | some decimal of the type has a value if and only if its stripped mantissa fits |
| `DFloats.StrippedIsLeast` | utttil/dfloat.hpp:406-413 | a stripped decimal has the least mantissa of its value |
| `DFloats.ComparisonIsRational` | utttil/dfloat.hpp:322-393 | `==`, `<` and `<=` across all exponents are the order of the rational values |
| `DFloats.TextIsExact` | utttil/dfloat.hpp:395-431 | the printed text denotes exactly the value |
| `DFloats.TextShape` | utttil/dfloat.hpp:395-431 | it is the shortest such text: no leading zero but a lone one, no trailing zero |
| `DFloats.ValidIsPacked` | utttil/dfloat.hpp:64-69 | the fields are exactly those of a 60-bit mantissa and a 4-bit exponent |
| `DFloats.DenotationIsUnique` | utttil/dfloat.hpp:395-431 | a text denotes at most one value |
| `DFloats.PrintsAlikeIffEqual` | utttil/dfloat.hpp:395-431 | two decimals print alike if and only if they are equal |
| `DFloats.DFloat.constructor` | utttil/dfloat.hpp:113-119 | the value given |
| `DFloats.DFloat.NormalizeLoss` | utttil/dfloat.hpp:185-244 | the branches compute what the normalizing function says |
| `DFloats.DFloat.AddLoss` | utttil/dfloat.hpp:151-167 | machine addition on 64 bits: the value grows by exactly the operand, or by nothing with loss |
| `DFloats.DFloat.SubLoss` | utttil/dfloat.hpp:168-184 | a difference below zero wraps above the largest mantissa and is thereby reported |
| `DFloats.DFloat.Print` | utttil/dfloat.hpp:395-431 | the three loops and the reversal produce the text |
| `DFloats.PrintDecimals` | utttil/dfloat.hpp:414-418 | the decimals, lowest first, and what is above them |
| `DFloats.PrintWhole` | utttil/dfloat.hpp:421-425 | the whole part, at least one digit |
| `DFloats.Exp10` | utttil/math.hpp:66-89 | the power of ten |
| `Json.RoundTrip` | utttil/json.hpp:42-238 | printing then reading is the identity at every indentation and consumes exactly the text, for every nested value; behind a top-level number no digit may follow |
| `JsonLayout.ReadsExactly` | utttil/json.hpp:42-159 | on any C string: it is read if and only if, behind separators, it begins with a laid-out value (any separators between tokens, with or without a comma between items, keys in any order and repeated), and then the result is what that denotes, the first value of a repeated key, and exactly what is behind it is left |
| `JsonLayout.ReadsTree` | utttil/json.hpp:42-159 | every laid-out value reads to what it denotes |
| `JsonLayout.ReadIsLaid` | utttil/json.hpp:42-159 | no other text is read |
| `JsonLayout.WriteAppends` | utttil/json.hpp:42-159 | the text of a value does not depend on what is behind it |
| `JsonLayout.InsertFacts` | utttil/json.hpp:125-125 | a key that is not there goes in, at its place; one that is there keeps its value |
| `JsonLayout.KeyLessExactly` | utttil/json.hpp:125-125 | the order of the map is dictionary order |
| `Numerals.NumberDigits` | utttil/json.hpp:47-48 | a numeral is positional: base-10 digits, most significant first |
| `Json.PrintingIsInjective` | utttil/json.hpp:170-238 | different values print differently |
| `JsonLayout.NestedExample` | utttil/json.hpp:181-199 | known text of a dict in a dict: the inner one is printed at two more |
| `JsonLayout.DictExample` | utttil/json.hpp:181-199 | known text of a dict with two entries |
| `JsonLayout.ArrayExample` | utttil/json.hpp:203-221 | known text of an array with two elements |
| `JsonLayout.ElementExample` | utttil/json.hpp:203-221 | known text of a dict in an array: printed as if at the outermost level |
| `Json.CStringHasOneNul` | utttil/json.hpp:63-70 | the shape of the input: one NUL, at the end |
| `Json.InsertLast` | utttil/json.hpp:125-125 | entries in key order are inserted at the end of the map |
| `JsonCursor.Cursor.constructor` | utttil/json.hpp:133-137 | the cursor on the first character |
| `JsonCursor.Cursor.Advance` | utttil/json.hpp:64-70 | the cursor only moves off characters other than the NUL |
| `JsonCursor.Cursor.SkipSeparators` | utttil/json.hpp:63-70 | stops on the first other character; false exactly on the NUL |
| `JsonCursor.Cursor.ReadDigits` | utttil/json.hpp:47-48 | the run of digits and the number it spells |
| `JsonCursor.Cursor.ReadNumber` | utttil/json.hpp:41-50 | sign and digits, nothing more |
| `JsonCursor.Cursor.ReadQuoted` | utttil/json.hpp:88-102 | the characters up to the closing quote, or failure at the NUL |
| `JsonCursor.Cursor.ReadValue` | utttil/json.hpp:72-86 | terminates on every C string without passing its NUL, with the result of the reading function, which `JsonLayout.ReadsExactly` describes |
| `JsonCursor.Cursor.ReadDict` | utttil/json.hpp:104-132 | the same for a dict |
| `JsonCursor.Cursor.ReadColonKey` | utttil/json.hpp:119-124 | the key, its colon and the separators round them |
| `JsonCursor.Cursor.SkipCommaIfAny` | utttil/json.hpp:126-128 | separators and at most one comma |
| `JsonCursor.Cursor.ReadArray` | utttil/json.hpp:139-159 | the same for an array |
| `JsonCursor.MakeIndent` | utttil/json.hpp:161-168 | that many tabs |
| `JsonCursor.Print` | utttil/json.hpp:170-238 | the text the round trip is about |
| `JsonCursor.PrintEntries` | utttil/json.hpp:186-196 | the loop over a dict |
| `JsonCursor.PrintElements` | utttil/json.hpp:208-216 | the loop over an array |
| `JsonCursor.PrintThenRead` | utttil/json.hpp:42-238 | the two objects together: a value printed and read back is the value |
| `Sha256.ZeroCountIsLeast` | utttil/sha256.hpp:61-63 | the zeros bring message, marker and zeros to 56 modulo 64, and no fewer do (section 5.1.1 of FIPS 180-4) |
| `Sha256.PaddedIsWholeBlocks` | utttil/sha256.hpp:61-71 | a padded message is a whole number of 64-byte blocks |
| `Sha256.PaddingInjective` | utttil/sha256.hpp:59-71 | two messages below 2^61 bytes with the same padded form are the same message |
| `Sha256Standard.RoundConstantsAreCubeRoots` | utttil/sha256.hpp:170-187 | the round constants are the first 32 bits of the fractional parts of the cube roots of the first 64 primes (section 4.2.2) |
| `Sha256Standard.InitialHashIsSquareRoots` | utttil/sha256.hpp:182-189 | the initial hash words are those of the square roots of the first eight (section 5.3.3) |
| `Sha256Standard.RotrBits` | utttil/sha256.hpp:203-221 | bit i of a rotation by n is bit (i + n) modulo 32 |
| `Sha256Standard.ChBits` | utttil/sha256.hpp:219-219 | each bit chooses between the other two |
| `Sha256Standard.MajBits` | utttil/sha256.hpp:222-222 | each bit is the majority of three |
| `Sha256Standard.BigEndianDigits` | utttil/sha256.hpp:66-70 | the length is written as its base-256 digits, most significant first |
| `Sha256Standard.WordsAreBigEndian` | utttil/sha256.hpp:195-196 | four bytes make the word whose base-256 digits they are, most significant first |
| `Sha256Standard.WordBytesBack` | utttil/sha256.hpp:247-250 | a word made of four bytes is stored as these |
| `Sha256Example.HashOfAbc` | utttil/sha256.hpp:167-300 | the hash of `abc` is the one section 8.5 of RFC 6234 gives |
| `Sha256Example.HashesInParts` | utttil/sha256.hpp:191-245 | blocks are chained: hashing on from where a first part left off is hashing both |
| `Sha256Stream.Sha256Padding.constructor` | utttil/sha256.hpp:37-43 | a clean buffer, whatever the unwritten bytes hold |
| `Sha256Stream.Sha256Padding.ForSize` | utttil/sha256.hpp:44-58 | the view is the padding for that size; the bytes behind it are never written |
| `Sha256Stream.Sha256Padding.Clear` | utttil/sha256.hpp:64-64 | zeros in the range, nothing else |
| `Sha256Stream.Sha256Padding.WriteLength` | utttil/sha256.hpp:66-70 | the length in bits, big endian, and nothing else |
| `Sha256Stream.Sha256Padding.SetDataSize` | utttil/sha256.hpp:59-71 | the view is the padding for the size if and only if the bytes it newly takes in were zero; after the plain constructor, always, over any sequence of calls |
| `Sha256Stream.SetAfterSize` | utttil/sha256.hpp:44-71 | after the sized constructor it depends on bytes that were never written, exactly these |
| `Sha256Stream.ViewStream.constructor` | utttil/sha256.hpp:83-88 | the views, not at the end |
| `Sha256Stream.ViewStream.Get` | utttil/sha256.hpp:90-100 | the next byte of the joined views, or zero and end of stream exactly when they are used up |
| `Sha256Stream.ReadWord` | utttil/sha256.hpp:195-196 | four bytes make the next word of the schedule |
| `Sha256Stream.ReadBlock` | utttil/sha256.hpp:193-199 | sixteen words of the schedule; end of stream exactly when fewer than 64 bytes were left |
| `Sha256Stream.Mixed` | utttil/sha256.hpp:203-205 | the recurrence of section 6.2.2, summed in the other order |
| `Sha256Stream.ExtendWord` | utttil/sha256.hpp:203-205 | one more word of the schedule |
| `Sha256Stream.ExtendSchedule` | utttil/sha256.hpp:201-206 | the array holds the message schedule |
| `Sha256Stream.RunRounds` | utttil/sha256.hpp:207-233 | the working variables after the 64 rounds of section 6.2.2 |
| `Sha256Stream.StoreWord` | utttil/sha256.hpp:247-250 | the four bytes of a word, most significant first |
| `Sha256Stream.StoreDigest` | utttil/sha256.hpp:247-278 | the result holds the eight words |
| `Sha256Stream.FillStream` | utttil/sha256.hpp:167-279 | hashes exactly the whole blocks of the stream and drops a last part of a block |
| `Sha256Stream.FillSha256` | utttil/sha256.hpp:281-300 | the result is the hash of section 6.2 of FIPS 180-4 over the padding of section 5.1.1, the one `Sha256Example.HashOfAbc` is about; exactly padded length / 64 blocks are consumed |

## Left out

- Sockets, `errno` handling, io_uring submission, threads and context loops: foreign calls; their effects are steps or parameters.
- Corrupt datagrams and replies (the `stream_end_exception` branches of the replay client), a broken replay connection, and wrap-around of sequence numbers: outside the protocol's assumptions.
- ReplayPeers.ReplayServer.AsyncSend: messages that are not numbered 0, 1, 2, ..., which the source pushes as well; clients would ask for numbers that do not exist.
- ReplayPeers.ReplayClient.CatchUp: replies that arrive while it runs; `ReplayPeers.ReplayClient.Unpack` takes them, and `ReplaySystem.Recovers` has them arrive.
- ReplayPeers.ReplayServer.ServeNext: one connection at a time; the busy-wait on a full reply outbox is not modelled. The one kind of request it excludes is the one on which the source's loop runs past the log, by `ReplaySystem.AnswerableExactly`.
- MsgPeers.MsgPeer.TryParse: pulls the bytes behind the prefix from the ring reader and hands them to the codec's decoding function; the stream operators themselves are in `BinaryStream.dfy`.
- MsgPeers.MsgPeer.Round: that the message reader stops where the length prefix says, which the source asserts, is part of a lawful codec.
- Framing.UnpackedIsPrefixOfSent: a connection once closed receives nothing more; reconnecting is not modelled.
- StopBit.SizeEstimate: `1 << 63` on a signed 64-bit type is taken as the least value, as in C++20; older standards leave it undefined.
- BinaryStream.Get: a collection's target is empty before reading. The source first moves the contents of a target other than `std::vector` and `std::map` out of it (`utttil/srlz/binary_read.hpp:130`), so it appends to the target's moved-from state; a `std::map` target keeps its entries.
- Raw-byte structures and floats in the binary codec: copies of memory.
- `unique_int` wrap-around, `Request` assignment and copying: members copied one by one.
- Pools.FixedPool.constructor: a capacity of 0, on which it does not return, by `Pools.LinkingStaysInside`; and a failing `malloc`.
- Pools.MakePool: a capacity of 0, for the same reason.
- SeqDicts.SeqDict.constructor: a size of 0, for the same reason.
- DFloats.Exp10: exponents above 18, whose powers overflow `long long`; the type has none above 15.
- MsgPeers.MsgPeer.AsyncWrite: what a copy with an underflowed length does to memory, or a kernel that is handed a stretch beyond the array; the model has `async_write` end in the one case and the ring's thread take no further step in the other. Two threads that publish into one outbox, `async_write` and `pack`, are not modelled.
- Spsc: more than one slot owed by `push_back()` at a time.
- Pool serialization and equality: the source does not walk the free list there.
- SeqDicts.SeqDict: keys are unbounded numbers; the sequence type's own width is not modelled.
- The dictionary wrappers over library containers and `seqdict_vector` with its detached resize thread: thin wrappers, and a data race.
- DFloats: negative mantissas, mixed widths and 5-bit exponents, which the scaling guard does not cover (`utttil/dfloat.hpp:193`, `utttil/dfloat.hpp:225`).
- Json.RoundTrip: floats, which print as nothing, numbers outside 32 bits, and strings with a quote or NUL, for which the format has no escape.
- JsonCursor.Cursor.ReadNumber: `atoi` on numbers that overflow an `int`.
- JsonLayout.ReadsExactly: the same numbers, which it reads as what they spell.
- Sha256Stream.ReadWord: the four `get` calls in one expression are taken in the order they are written; C++ leaves it open.
- Sha256.PaddingInjective: stated below 2^61 bytes, where the length in bits fits its 64-bit field.
- `Hash256` comparison, which ignores byte 0, its printing, and hex literals: easy members.
- Journal and mapped files, `url`, `fixed_string`, logging, timers, random numbers, performance counters, prefetch and pause hints: plumbing.
- RingBuffers.RingBuffer: iterators beyond the positions the replay log needs, `erase`, and moving.
- ReplaySystem.TrimmedOnlyAfterHanded: handing on is one step; the step in two is in `ReplayLimits.HandCopiesExactly`.
- MsgPeers.MsgPeer.Rcvd: an application that takes bytes out of the inbox itself while `read_loop` computes its stretches; `StretchRaces.BackStretchRaces` and `StretchRaces.BackPairRaces` say what then happens. A message peer unpacks on the same thread.
