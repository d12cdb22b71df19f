# oguRPChik in Dafny

oguRPChik replaces the stock Cap'n Proto stream transport with its own framing, batching, handshake and accept code.
This project models that code and proves what it is for: messages arrive whole, in order and once, whatever the
batching, the short reads and the buffer sizes; acknowledgements are never premature; and the two sides of a handshake
come to the same conclusion under every interleaving.

| file | models |
|---|---|
| `Bytes.dfy` | bytes, little-endian numbers, concatenation |
| `Wire.dfy`, `Framing.dfy` | the stream format as pure functions, and what it promises |
| `Verdicts.dfy` | which streams hold no message, and which error each of them gets |
| `Streams.dfy`, `Decoder.dfy` | the transport's reading end, the incremental decoder (`src/rpc/frame.rs`) |
| `Outbound.dfy` | the outgoing batch and its buffer pool (`src/rpc/frame.rs`) |
| `Writer.dfy` | the write loop, its queue and its promises (`src/rpc/network.rs`) |
| `Delivery.dfy` | sender and receiver together; receives over a connection's life (`src/rpc/network.rs`) |
| `Packets.dfy`, `Handshake.dfy` | packet codecs and the decisions of both halves (`src/auth/handshake.rs`) |
| `HandshakeRuns.dfy` | two halves and two byte channels as a transition system |
| `HandshakeHalves.dfy` | each half running against a connection and any peer |
| `AnyPeer.dfy` | what each half answers to every packet and stream a peer may send |
| `RunsOfHalves.dfy` | the link between the two: a run's results are the halves' |
| `Acceptor.dfy` | the concurrent session acceptor (`src/rpc/acceptor.rs`) |
| `PipeAcceptor.dfy` | the cancel-safe named-pipe accept (`src/net/npipe.rs`) |
| `Retry.dfy` | `connect_ready` (`src/endpoint.rs`) |
| `WireText.dfy` | coded error text (`src/error/rpc.rs`) |

How the outside is modelled:

- A transport read returns any non-zero number of the bytes that are left, and nothing only at the end of the stream.
  A transport marked reliable has no I/O errors; for one that is not, the contracts say what still holds.
- A vector is its bytes and a capacity; an allocation may give more than was asked for.
- The write queue is the sequence of everything ever put on it. Whether an item has arrived when the writer looks, and
  whether a write or flush fails or the writer is dropped there, is open.
- In the two-party runs a side that has read the last byte of a packet deals with it and sends its answer in the same
  step; the channels are reliable, in order and unbounded, and a side that fails closes its connection.
- HMAC and process attestation are arbitrary functions. HMAC success is equality of the two computed tags.
- The acceptors and the retry loop take what the listener, the clients and the clock do as a sequence of inputs; the
  results hold for all of them. A listener may finish an accept while no call polls it: between the last poll of a call
  and its drop, between calls, and after the last one.
- `SEGMENTS_COUNT_LIMIT` belongs to the `capnp` crate, which is not part of this model; its value there, 512, is a named
  constant.

Where code and documentation part ways, the model follows the code:

- `src/net/npipe.rs:349-350` says a client that reached either pipe instance is handed out by the next accept. Of the
  code that is true of a client's instance, nothing failing, if and only if it is the listening one
  (`PipeAcceptor.HandedNextIff`). The input that shows it: an accept is dropped, a client reaches the reserve it left
  behind, and the next accept hands out nothing however long it waits without another client
  (`PipeAcceptor.ReserveClientWaits`). No client is lost (`PipeAcceptor.Serve`), and once the listening instance has
  gone, the reserve's client is next (`PipeAcceptor.ReserveClientIsNext`).
- `reject_connection` in `src/auth/handshake.rs:350-352` takes a reason of any length, but one of more than 4092 bytes
  makes a packet the client does not read: it then reports a malformed packet
  (`AnyPeer.AckInPlaceOfHelloArrives`).
- `src/rpc/network.rs:115-117` answers "a receive is already in progress" also after a receive has failed or been
  dropped, when none is.
- `Batch::recycle` drops chunks pushed since the last `take` and leaves the byte count behind. The write loop never
  calls it that way; `Outbound.Batch.Recycle` states the exact condition.

## Model

| member | source | states |
|---|---|---|
| Framing.SerializedLayout | src/rpc/frame.rs:60-87 | byte by byte, a serialized message is the layout of the Cap'n Proto specification: count less one, lengths in words, zero padding to a word boundary, segments |
| Framing.ParsesExactlyFrames | src/rpc/frame.rs:154-203 | a stream starts with a message if and only if it starts with some encoding of that message and the message is within the limits; padding is the only freedom |
| Framing.ParseExtends | src/rpc/frame.rs:161-203 | every verdict but "more bytes needed" is final whatever arrives later |
| Framing.BodyLengthFits | src/rpc/frame.rs:168-182 | no table that passes the count check can overflow the 64-bit length arithmetic |
| Framing.RoundTripIff | src/rpc/frame.rs:442-459 | decoding a serialized sequence of messages gives it back with a clean end if and only if each message is within the limits |
| Framing.CompleteIsLargest | src/rpc/frame.rs:494-500 | the number of complete messages in a cut stream is the largest that fits in it |
| Framing.CutStream | src/rpc/frame.rs:485-517 | a stream cut anywhere yields exactly the complete messages, then a clean end on a boundary and a premature one elsewhere |
| Verdicts.TooLargeTable | src/rpc/frame.rs:168-178 | a finished table whose total is above the limit is answered with that total, whatever follows it |
| Verdicts.VerdictsAreExact | src/rpc/frame.rs:154-203 | the exact condition on the bytes for each verdict that is not a message: a clean end, an early end, an illegal segment count and which, a message over the limit and by how many words |
| Verdicts.AnswersAreExact | src/rpc/frame.rs:154-203 | so the decoder's every answer but an I/O error is decided by the remaining bytes and the limit, in those terms |
| Verdicts.DecodeAfter | src/rpc/frame.rs:318-336 | after any messages within the limits, the rest of a stream is judged as if it stood alone |
| Verdicts.StreamEnds | src/rpc/frame.rs:519-551 | good messages followed by something that is none: the messages arrive, and the ending is the one its bytes call for |
| Streams.Source.ReadExact | src/rpc/frame.rs:195-199 | fills the target from where it stood with the next bytes of the stream, and fails only if there are too few |
| Decoder.Inbound.constructor | src/rpc/frame.rs:145-152 | starts with nothing buffered |
| Decoder.Inbound.Fill | src/rpc/frame.rs:205-230 | buffered plus unread bytes stay the same across compaction and refills, every read is offered room, the buffer stays within the capacity or the largest legal table, and end of stream is told apart from a cut |
| Decoder.Inbound.WordAtPos | src/rpc/frame.rs:232-237 | the staged word is the word of the remaining stream |
| Decoder.Inbound.ReadLengthWords | src/rpc/frame.rs:168-171 | the lengths and their sum are those of the remaining stream |
| Decoder.Inbound.ReadCount | src/rpc/frame.rs:158-164 | the count is the remaining stream's and legal, or the verdict that there is no message is the format's |
| Decoder.Inbound.ReadTable | src/rpc/frame.rs:158-179 | the table's verdict is the format's for the remaining bytes, and only an accepted table is moved past |
| Decoder.Inbound.ReadStaged | src/rpc/frame.rs:183-186 | a body that fits the staging buffer is the next bytes of the stream |
| Decoder.Inbound.ReadDirect | src/rpc/frame.rs:187-201 | a larger body is the buffered bytes and then the next of the stream, with none lost or repeated |
| Decoder.Inbound.GetNext | src/rpc/frame.rs:154-203 | the answer and the bytes left are the pure decoder's, for every read size, capacity and allocation; only an I/O error of the transport comes in between, and no body buffer exceeds the limit |
| Decoder.DecodeStream | src/rpc/frame.rs:318-336 | draining a stream gives the pure decoding of its bytes; an interrupted one gives a prefix |
| Outbound.AddMessageBytes | src/rpc/frame.rs:60-87 | one more message adds its serialization and at most one chunk more than it has segments |
| Outbound.LayoutBytes | src/rpc/frame.rs:415-437 | the chunks of a batch, end to end, are the messages' serializations, end to end |
| Outbound.LayoutTidy | src/rpc/frame.rs:431-436 | no chunk is empty, nothing at or below the inline limit goes by reference, inline chunks are merged, and only an empty batch has no chunks |
| Outbound.LayoutReferences | src/rpc/frame.rs:72-86 | the chunks sent by reference are exactly the segments above the limit, in order |
| Outbound.Batch.constructor | src/rpc/frame.rs:50-58 | an empty batch |
| Outbound.Batch.FetchBuffer | src/rpc/frame.rs:121-127 | the last pooled buffer if there is one, always empty; the pool's byte count follows without underflow |
| Outbound.Batch.OpenInline | src/rpc/frame.rs:119-134 | the batch ends in an inline chunk; one that had to be opened uses a pooled buffer and holds no old bytes |
| Outbound.Batch.AppendInline | src/rpc/frame.rs:119-134 | bytes join the last inline chunk |
| Outbound.Batch.AppendSegment | src/rpc/frame.rs:72-86 | a segment is skipped, copied or referenced as the layout says, and counted |
| Outbound.Batch.PushTable | src/rpc/frame.rs:61-70 | the word-by-word table is the format's |
| Outbound.Batch.PushBody | src/rpc/frame.rs:72-86 | all segments are laid out and counted |
| Outbound.Batch.Push | src/rpc/frame.rs:60-87 | the batch stands for one more message; chunk layout, byte count and pool accounting stay exact |
| Outbound.Batch.IsEmpty | src/rpc/frame.rs:89-91 | empty means no message pushed |
| Outbound.Batch.Take | src/rpc/frame.rs:101-104 | hands out chunks that are the serialization of what was pushed, whose length was the byte count |
| Outbound.PoolTakes | src/rpc/frame.rs:106-117 | the pool gains emptied buffers of written chunks, in order; one is turned away only if it does not fit beside those kept, and the pool never exceeds 2 MiB |
| Outbound.Batch.PoolBuffers | src/rpc/frame.rs:107-115 | written inline buffers are emptied and pooled, in order, exactly while the budget has room; the byte count stays the sum of capacities |
| Outbound.Batch.Recycle | src/rpc/frame.rs:106-117 | pools emptied buffers while the budget lasts; the batch stays sound if and only if nothing had been pushed |
| Outbound.Rounds | src/rpc/frame.rs:415-439 | over any rounds of push, take and recycle, each round's chunks hold that round's messages only |
| Writer.Overshoot | src/rpc/network.rs:211-229 | a written batch passes the limits by at most its last message's size and its segments plus one in chunks |
| Writer.FlushedWasSent | src/rpc/network.rs:232-235 | a flush covers only what was written |
| Writer.AckSafeAlways | src/rpc/network.rs:231-239 | at every acknowledgement in the log, everything it vouches for had been written and flushed |
| Writer.KeptMeans | src/rpc/network.rs:128-136 | acknowledgements come in queue order without gaps; the shutdown confirmation comes after all of them, with the whole outbox flushed, and nothing is written after it |
| Writer.Link.Keep | src/rpc/network.rs:236-238 | completes a promise that was pending, so none is completed twice |
| Writer.Link.BreakPending | src/rpc/network.rs:44-53 | when the writer goes, every promise it did not keep is broken |
| Writer.Acknowledge | src/rpc/network.rs:236-241 | the next promise in line is kept and the history stays sound |
| Writer.WriteChunks | src/rpc/network.rs:231-234 | however much of a batch gets through, the wire is a prefix of the outbox's serialization |
| Writer.FlushWritten | src/rpc/network.rs:235 | a flush settles what was written |
| Writer.SendBatch | src/rpc/network.rs:231-239 | a batch is written, recycled safely, flushed and acknowledged, in that order |
| Writer.Gather | src/rpc/network.rs:212-229 | a batch is the next queued messages up to the marker, one acknowledgement outstanding for each, below both limits until its last message; it ends only at the marker, at a limit, or when the queue looked empty |
| Writer.WriteLoop | src/rpc/network.rs:208-246 | in every run the wire is a prefix of the outbox, acknowledgements are a prefix of the queue, every promise is kept or broken; a run that returns has sent and acknowledged everything up to the marker; it fails exactly when a write or flush was refused, and is abandoned exactly when it was dropped |
| Delivery.AcknowledgedIsComplete | src/rpc/network.rs:231-239 | an acknowledged message is complete in what was written |
| Delivery.Deliver | src/rpc/network.rs:208-246 | queue to receiver: a returned writer delivers exactly the outbox and a clean end if and only if every message is within the limits; if every message is within the limits, a failed or dropped one delivers exactly the messages complete in the bytes it wrote, every acknowledged one among them |
| Delivery.TruthfulAt | src/rpc/network.rs:110-126 | every outcome of a receive is the one the stream and the earlier outcomes call for |
| Delivery.DeliveriesPrefix | src/rpc/network.rs:119-125 | what is delivered is a prefix of the stream's decoding |
| Delivery.NothingAfterTheEnd | src/rpc/network.rs:114-121 | after an error or a dropped receive nothing is started or delivered |
| Delivery.Connection.constructor | src/rpc/network.rs:164-172 | the decoder starts in the slot, at the start of the stream |
| Delivery.Connection.Begin | src/rpc/network.rs:113-118 | a receive takes the decoder if the slot holds it and is refused otherwise |
| Delivery.Connection.Complete | src/rpc/network.rs:119-125 | a finished receive answers truthfully and puts the decoder back unless it failed |
| Delivery.Connection.Drop | src/rpc/network.rs:119-125 | a dropped receive takes the decoder with it |
| Delivery.Life | src/rpc/network.rs:110-126 | for any interleaving of receives started, completed and dropped: truthful outcomes, one owner at a time, deliveries without gap or repeat |
| Packets.GreetingRoundTrip | src/auth/handshake.rs:404-426 | hello and client-auth read back unchanged if and only if the payload length fits its 16-bit field, and are rejected otherwise |
| Packets.GreetingBytes | src/auth/handshake.rs:542-553 | an accepted body is exactly what its fields write to |
| Packets.ProtocolParts | src/auth/handshake.rs:430-435 | where id, major, minor and patch stand in a packet |
| Packets.AckParts | src/auth/handshake.rs:454-462 | where tag, status, length and reason stand in an ack |
| Packets.AckRoundTrip | src/auth/handshake.rs:454-462 | the same for acks, with the reason's length |
| Packets.DecodesBack | src/auth/handshake.rs:471-528 | what the encoders write, the decoders accept with the same fields |
| Packets.DecodedBodiesReencode | src/auth/handshake.rs:482-528 | a version-3 body that decodes is the encoding of what it decodes to |
| Packets.OneKindOnly | src/auth/handshake.rs:482-528 | no body decodes as two kinds of packet |
| Packets.FrameReading | src/auth/handshake.rs:382-395 | a reader that takes only what it needs ends up with exactly the packet, whatever follows it |
| Packets.TakeExtends | src/auth/handshake.rs:382-395 | the first packet of a stream, once decided, stays the same whatever arrives later |
| Packets.BoundedReading | src/auth/handshake.rs:382-395 | a reader that asks for no more than is missing never holds a byte beyond the packet |
| Handshake.IncompatibilityIsMismatch | src/auth/handshake.rs:134-148 | both sides see the same incompatibility |
| Handshake.HelloIsUnderstood | src/auth/handshake.rs:312-343 | an honest hello leads the client to the move its configuration calls for |
| Handshake.AuthIsUnderstood | src/auth/handshake.rs:242-298 | an honest auth leads the server to its outcome and to an ack that says the same |
| Handshake.EmittedPacketsFit | src/auth/handshake.rs:382-395 | whatever a peer sends, every packet a half emits fits the packet limit |
| Handshake.ServerAcceptsExactly | src/auth/handshake.rs:242-298 | against any peer, a server accepts a body if and only if it is the encoding of a client of its scheme, protocol id and major with a proof that holds: the tag of this nonce under this secret, the attestation, or nothing, by mode |
| Handshake.ClientProceedsExactly | src/auth/handshake.rs:312-347 | against any peer, a client goes on to wait for an ack if and only if it was sent the encoding of a hello of its scheme, id and major; what it sends is then fixed by that hello's nonce |
| Handshake.OtherVersionsAreNamed | src/auth/handshake.rs:244-252 | a peer of another handshake version is reported as such, not as malformed |
| AnyPeer.AckVerdicts | src/auth/handshake.rs:518-528 | of any body a waiting client is sent: success exactly for an accepting ack, rejection exactly for one of another status, malformed otherwise |
| AnyPeer.HelloVerdicts | src/auth/handshake.rs:312-331 | of any first body: rejected exactly for a rejecting ack, unsupported version exactly for another version in a packet that is no ack, scheme mismatch exactly for a hello of another scheme, an answer exactly for one of its own, and malformed exactly for the rest |
| AnyPeer.HelloAnswered | src/auth/handshake.rs:325-343 | the client's answer to a hello of any scheme and protocol |
| AnyPeer.AuthAnswered | src/auth/handshake.rs:254-298 | the server's conclusion on an auth of any scheme, protocol and proof, in the order of its checks, and an ack that tells the client so |
| AnyPeer.AuthVerdicts | src/auth/handshake.rs:242-252 | of any body: another version is told so with a rejecting ack, and what is not an auth, and only that, ends the handshake without an ack |
| AnyPeer.TakesExactly | src/auth/handshake.rs:382-395 | the exact condition on a stream for its first packet to be there, too long, or cut off |
| AnyPeer.UnreadableFirst | src/auth/handshake.rs:382-402 | a first packet that is too long is malformed and one that is cut off is an I/O error, on either side; the server has sent its hello by then, the client nothing |
| AnyPeer.AfterGoodHello | src/auth/handshake.rs:333-347 | after a good hello the client has sent its auth, and the next packet decides, readable or not |
| AnyPeer.AfterOtherHello | src/auth/handshake.rs:327-343 | after a hello of another scheme the client ends without a word, after one of another protocol or major it has sent its auth; it reads no further in either case |
| AnyPeer.AfterAuth | src/auth/handshake.rs:237-298 | a server that was sent any auth has sent its hello and an ack that tells its conclusion, and has left the rest unread |
| AnyPeer.AckInPlaceOfHello | src/auth/handshake.rs:313-316 | an ack in place of the hello: rejected for every status but ok, malformed for ok |
| AnyPeer.AckInPlaceOfHelloArrives | src/auth/handshake.rs:313-316 | on the stream the client then sends nothing and reports the rejection if and only if the reason has at most 4092 bytes; a longer packet is malformed |
| AnyPeer.RejectConnection | src/auth/handshake.rs:350-352 | sends the rejecting ack |
| HandshakeRuns.InvStep | src/auth/handshake.rs:216-348 | every step of either side, with any split of the bytes, keeps the channels and states in one of the known phases |
| HandshakeRuns.Agreement | src/auth/handshake.rs:216-348 | in every run the client succeeds if and only if the server does, if and only if schemes, ids, majors and proof agree; each learns the other's version; an id or major mismatch is the same error on both sides |
| HandshakeRuns.Handover | src/auth/handshake.rs:373-395 | a side that succeeded finds exactly the other's RPC bytes unread |
| HandshakeRuns.HandoverToRpc | src/rpc/mod.rs:141-147 | the decoder put on the connection then starts on a message boundary and yields the other side's messages |
| HandshakeRuns.NeverStuck | src/auth/handshake.rs:216-348 | until both sides have finished, one can take a step |
| HandshakeRuns.MeasureDecreases | src/auth/handshake.rs:216-348 | every handshake step decreases a measure that RPC traffic leaves alone |
| HandshakeRuns.HandshakeIsBounded | src/auth/handshake.rs:216-348 | so the handshake ends under every schedule, within a fixed number of steps |
| HandshakeHalves.HalvesConverse | src/auth/handshake.rs:216-348 | in every honest configuration, compatible or not, the two halves fed with each other's output come to the outcomes of their configurations, and compatible ones leave the RPC bytes that follow |
| RunsOfHalves.RunIsHalves | src/auth/handshake.rs:216-348 | in every state of every run, each side is where its half is on the bytes its peer has sent so far |
| RunsOfHalves.FinishedSidesAreHalves | src/auth/handshake.rs:216-348 | in every run of two sides that are not Disabled, honest or not, a finished side has the result its half yields on what its peer has sent, and has sent that half's bytes before any RPC; one that succeeded has left unread what the half leaves |
| HandshakeHalves.Conn.WritePacket | src/auth/handshake.rs:373-380 | sends the framed body, or some prefix of it when an unreliable transport fails |
| HandshakeHalves.Conn.ReadPacket | src/auth/handshake.rs:382-402 | takes exactly the first packet of the stream, or fails for the reason the stream gives |
| HandshakeHalves.AuthenticateServer | src/auth/handshake.rs:216-299 | against any peer and any short reads, does what the function of the peer's bytes says; on an unreliable transport a success still does, any other result is an I/O error, a timeout or the function's, and what was sent is a prefix of its output |
| HandshakeHalves.AuthenticateClient | src/auth/handshake.rs:303-348 | the same for the client half |
| Acceptor.PollAnswers | src/rpc/acceptor.rs:86-123 | what a poll comes to: a broken listener is answered with its error, a new connection starts its handshake or is dropped at the limit, and a finished handshake leaves the pending ones, handed out exactly if it passed and failed otherwise |
| Acceptor.NextAnswers | src/rpc/acceptor.rs:81-124 | a call goes on until a poll has an answer and gives that one; it is dropped only if none has |
| Acceptor.PollKeeps | src/rpc/acceptor.rs:86-123 | one turn of the loop keeps every accepted connection in exactly one place and the pending ones within the limit, and drops one only at the limit |
| Acceptor.NextKeeps | src/rpc/acceptor.rs:81-124 | so does a whole call, answered or dropped; a session handed out had passed and was not handed out before |
| Acceptor.FinishedAcceptIsTaken | src/rpc/acceptor.rs:86-115 | a connection whose accept finished while nobody polled stays in the accept over dropped calls; the next poll starts its handshake, or drops it if the limit is reached |
| Acceptor.FinishedAcceptLeaves | src/rpc/acceptor.rs:86-115 | so any call that is polled takes it out of the accept, whatever the call's outcome |
| Acceptor.ArrivesInDroppedAccept | src/rpc/acceptor.rs:45-89 | a dropped call leaves its waiting accept behind, and a connection that then arrives is in it |
| Acceptor.DroppedComesLater | src/rpc/acceptor.rs:106-112 | the first connections, as many as may run at once, are never dropped |
| Acceptor.NextSettles | src/rpc/acceptor.rs:81-124 | after a call the connections handed out or failed are exactly those it found so and those whose handshake its polls found finished |
| Acceptor.RunKeeps | src/rpc/acceptor.rs:81-141 | over any calls every connection is accounted for, the sessions are the connections handed out, and a finished handshake has led to the place its verdict calls for |
| Acceptor.SessionAcceptor.constructor | src/rpc/acceptor.rs:50-66 | starts empty, with a limit of at least one |
| Acceptor.SessionAcceptor.ListenerActs | src/rpc/acceptor.rs:88-89 | the listener finishes an accept that waits, polled or not |
| Acceptor.SessionAcceptor.TakeFinished | src/rpc/acceptor.rs:103-115 | a finished accept is dealt with as the specification says |
| Acceptor.SessionAcceptor.SettleOne | src/rpc/acceptor.rs:116-121 | a finished handshake leaves the pending ones with its verdict |
| Acceptor.SessionAcceptor.Turn | src/rpc/acceptor.rs:86-123 | one turn on the acceptor's fields is the turn the specification makes |
| Acceptor.SessionAcceptor.GetNext | src/rpc/acceptor.rs:81-124 | a call answers with the first session or listener error; dropped, it leaves the accept, finished or not, and the handshakes to the next |
| Acceptor.Serve | src/rpc/acceptor.rs:81-141 | over any calls, with accepts finishing during, between and after them: sessions are distinct, passed, with their own peer version; every connection is pending, failed, handed out, the one in the accept, or was dropped when as many earlier ones were running as may; one whose handshake a poll found finished is handed out if it passed and failed if not |
| Acceptor.PassedExactly | src/rpc/acceptor.rs:126-141 | a connection passes with a version if and only if its handshake was in time and its peer's first packet is a good auth of that version, or no handshake was asked for |
| Acceptor.ServeHandshakes | src/rpc/acceptor.rs:81-141 | so every session handed out is that of such a peer, and every such peer whose handshake a poll found finished was handed out |
| PipeAcceptor.WaitAnswers | src/net/npipe.rs:356-359 | a wait lasts until its first failure or the first client of the listening instance; which of the two decides the answer, and the clients are those that reached an owned instance by then |
| PipeAcceptor.AcceptAnswers | src/net/npipe.rs:351-360 | answer and instances after a whole accept in those terms, with the reserve created if there was none, or nothing changed if that failed |
| PipeAcceptor.DroppedIff | src/net/npipe.rs:351-360 | an accept that has a reserve is dropped without an answer if and only if it met neither a failure nor such a client |
| PipeAcceptor.WaitKeeps | src/net/npipe.rs:356-359 | no wait, dropped or failing, loses an instance or a client; one that succeeds hands out the listening instance and puts the reserve in its place |
| PipeAcceptor.NamedPipeAcceptor.Bind | src/net/npipe.rs:333-343 | one instance listens, none is in reserve |
| PipeAcceptor.NamedPipeAcceptor.ClientsArrive | src/net/npipe.rs:349-350 | clients reach only instances the acceptor owns; nothing else changes |
| PipeAcceptor.NamedPipeAcceptor.HandOver | src/net/npipe.rs:357-359 | the listening instance leaves and the reserve takes its place |
| PipeAcceptor.NamedPipeAcceptor.Accept | src/net/npipe.rs:351-360 | answer, instances, reserve and clients after an accept are exactly the specified ones, handed out, failed or dropped |
| PipeAcceptor.HandedNextIff | src/net/npipe.rs:349-350 | the next accept, if polled and nothing fails, is sure to hand out, whatever other clients do, a waiting client's instance if and only if it is the listening one |
| PipeAcceptor.ReserveClientWaits | src/net/npipe.rs:349-350 | the input for which the documentation's promise fails |
| PipeAcceptor.ReserveClientIsNext | src/net/npipe.rs:356-359 | after the listening instance is handed out, the client of the reserve is handed out next |
| PipeAcceptor.Serve | src/net/npipe.rs:349-360 | over any accepts and arrivals: no client is lost, no instance is handed out twice, one or two stay owned |
| Retry.BackoffDoubles | src/endpoint.rs:122-144 | each pause doubles the one before, between 50 ms and 1 s |
| Retry.AttemptKeepsLimit | src/endpoint.rs:116-126 | every attempt ends within one second and the timer's lateness; it is cut off exactly when it would outlast that second or the rest of the budget, and otherwise ends in its own time as it would have |
| Retry.PausesAreDue | src/endpoint.rs:134-145 | the first pause is 50 ms, each later one twice the one before but at most a second; a cut-off attempt has none and does not count |
| Retry.AttemptsFollow | src/endpoint.rs:120-147 | the first attempt starts at once, and each later one after a failure, its pause and the sleep's lateness, if that pause ended within the budget |
| Retry.AttemptCosts | src/endpoint.rs:136-145 | every attempt but the last costs at least 50 ms |
| Retry.WithinBudget | src/endpoint.rs:124-141 | all attempts end by the deadline with exact timers, within twice the lateness with late ones, and their number is bounded |
| Retry.ConnectReady | src/endpoint.rs:120-147 | the attempts keep those limits, pauses and starts; the loop ends with a connection or when the next pause would not fit, and only then |
| WireText.CodedRoundTrip | src/error/rpc.rs:145-161 | decoding undoes encoding for every code and every message |
| WireText.UncodedRoundTrip | src/error/rpc.rs:145-161 | an uncoded message survives if and only if it is not itself a prefix followed later by a closing bracket |
| WireText.SlugsAre | src/error/rpc.rs:54-78 | the names of the codes; every other name is the unknown code |
| WireText.UnrecognisedSlug | src/error/rpc.rs:152-161 | a code this side does not know arrives as unknown, with its message |
| WireText.KindsSent | src/error/rpc.rs:184-203 | which reports become overloaded, unimplemented and disconnected exceptions; the rest have failed |
| WireText.UncodedArrives | src/error/rpc.rs:184-203 | a report without a code arrives without one and with its text if and only if the text does not look coded |
| WireText.AttachedCodeArrives | src/error/rpc.rs:163-203 | an attached code and its message reach the peer |
| WireText.RelayedNeverCoded | src/error/rpc.rs:175-203 | an error passed on any number of times without a new attachment never decodes to a code again |

## Left out

- Sockets, vsock, Hyper-V, security descriptors and the rest of the operating system: foreign calls; the model keeps a stream with short reads, an end and failures.
- The `capnp`, `capnp-rpc`, `compio` and `futures` crates: messages are their segments, channels are queues, one-shot signals are promises. The equivalence with `capnp`'s own reader is stated against the format, since that reader is not part of this model.
- 32-bit targets: on those the length arithmetic of a table could overflow; the model's numbers are unbounded, and on 64 bits they cannot (`Framing.BodyLengthFits`).
- Dropping a receive in the middle of `Inbound::next`: the decoder is lost with it, so no state of it is observable; a drop is one step.
- `VatNetwork::connect`, `accept` and the driver's wait for disconnection: single-branch plumbing around the modelled parts.
- Timeouts in two-party runs: agreement is about reliable channels without timeouts. The halves themselves are modelled with timeouts and I/O errors.
- The Disabled mode paired with another mode: no protocol runs on one side, so there is no agreement to prove.
- HMAC, Ed25519, process images, creation times and nonce generation: arbitrary functions and values.
- The text attached to local error reports; the reason text of an ack is modelled because its length matters, and only its length and that it rejects are proved.
- The length of the acceptor's deadline and the fairness of its select: that a handshake is too late is given, and only safety and conservation are proved.
- Concurrent calls of the pipe accept: they take turns under its lock.
- `ConnectionGate`, name validation, runtime directories, socket-file cleanup, VM lookup, `Display` of the other error types, benches and examples: easy or presentational.
