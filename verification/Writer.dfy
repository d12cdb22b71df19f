/** The write loop of `src/rpc/network.rs`: queued messages are gathered into batches, written, flushed and then
    acknowledged, until a shutdown marker, the end of the queue, or a failure. */
module Writer {
  import opened Bytes
  import opened Wire
  import opened Framing
  import opened Outbound

  const INLINE_LIMIT: nat := 4 * 1024
  const BATCH_CHUNKS: nat := 64
  const BATCH_BYTES: nat := 1024 * 1024

  datatype Item = Send(message: Message) | Shutdown(ok: bool)

  /** The promise a sender holds for its item: kept, or broken when the writer goes away without keeping it. */
  datatype Promise = Pending | Succeeded | Broken

  datatype Event =
    | Wrote(batch: seq<Message>, bytes: seq<byte>)
    | Flushed
    | Kept(id: nat)

  datatype Incoming = Arrived(item: Item) | Closed | Dropped

  datatype Effect = Done | Refused | Cancelled

  datatype End = Returned(ok: bool) | WriteFailed | Abandoned

  // ---- what a log of events says --------------------------------------------------------------------------------

  /** How many items come before the first shutdown marker. */
  function OutboxLen(items: seq<Item>): (n: nat)
    ensures n <= |items|
    ensures forall i :: 0 <= i < n ==> items[i].Send?
    ensures n < |items| ==> items[n].Shutdown?
  {
    if items == [] || items[0].Shutdown? then 0 else 1 + OutboxLen(items[1..])
  }

  /** The messages that are to go out: those queued before the first shutdown marker. */
  function Outbox(items: seq<Item>): (ms: seq<Message>)
    ensures |ms| == OutboxLen(items)
  {
    seq(OutboxLen(items), i requires 0 <= i < OutboxLen(items) => items[i].message)
  }

  ghost function Sent(log: seq<Event>): seq<byte> {
    if log == [] then []
    else
      var init, last := log[..|log| - 1], log[|log| - 1];
      if last.Wrote? then Sent(init) + last.bytes else Sent(init)
  }

  /** What had been written when the transport was last flushed. */
  ghost function FlushedBytes(log: seq<Event>): seq<byte> {
    if log == [] then []
    else
      var init, last := log[..|log| - 1], log[|log| - 1];
      if last.Flushed? then Sent(init) else FlushedBytes(init)
  }

  ghost function KeptIds(log: seq<Event>): seq<nat> {
    if log == [] then []
    else
      var init, last := log[..|log| - 1], log[|log| - 1];
      if last.Kept? then KeptIds(init) + [last.id] else KeptIds(init)
  }

  ghost function FirstIds(n: nat): (ids: seq<nat>)
    ensures |ids| == n
  {
    seq(n, i => i)
  }

  /** The messages that must be on the wire before item `id` may be acknowledged. */
  ghost function UpTo(ms: seq<Message>, id: nat): seq<Message> {
    ms[..Min(id + 1, |ms|)]
  }

  /** Every acknowledgement follows a flush of everything it vouches for. */
  ghost predicate AckSafe(log: seq<Event>, ms: seq<Message>) {
    log == [] ||
    var init, last := log[..|log| - 1], log[|log| - 1];
    && AckSafe(init, ms)
    && (last.Kept? ==> SerializeAll(UpTo(ms, last.id)) <= FlushedBytes(init))
  }

  ghost predicate BelowLimits(ms: seq<Message>) {
    && |Layout(ms, INLINE_LIMIT)| < BATCH_CHUNKS
    && |SerializeAll(ms)| < BATCH_BYTES
  }

  /** A batch worth writing: not empty, and below both limits until its last message came. */
  ghost predicate GoodBatch(batch: seq<Message>) {
    batch != [] && BelowLimits(batch[..|batch| - 1])
  }

  ghost predicate LimitsKept(log: seq<Event>) {
    forall k :: 0 <= k < |log| && log[k].Wrote? ==>
                  GoodBatch(log[k].batch) && log[k].bytes <= SerializeAll(log[k].batch)
  }

  /** The last message of a batch overshoots the limits by at most its own size and one chunk more than it has
      segments. */
  lemma Overshoot(batch: seq<Message>)
    requires GoodBatch(batch)
    ensures |SerializeAll(batch)| < 0x10_0000 + |Serialize(batch[|batch| - 1])|
    ensures |Layout(batch, 4096)| < 64 + |batch[|batch| - 1]| + 1
  {
    hide SerializeAll, AddMessage;
    var init, last := batch[..|batch| - 1], batch[|batch| - 1];
    assert batch == init + [last];
    SerializeAllSnoc(init, last);
    AddMessageBytes(Layout(init, INLINE_LIMIT), last, INLINE_LIMIT);
  }

  lemma {:induction false} AckSafeAlways(log: seq<Event>, ms: seq<Message>, k: nat)
    requires AckSafe(log, ms) && k < |log| && log[k].Kept?
    ensures SerializeAll(UpTo(ms, log[k].id)) <= FlushedBytes(log[..k])
  {
    if k < |log| - 1 {
      assert log[..|log| - 1][..k] == log[..k];
      AckSafeAlways(log[..|log| - 1], ms, k);
    }
  }

  lemma {:induction false} KeptIdsPrefix(log: seq<Event>, k: nat)
    requires k <= |log|
    ensures KeptIds(log[..k]) <= KeptIds(log)
    ensures FlushedBytes(log[..k]) <= Sent(log[..k]) <= Sent(log)
  {
    if k == |log| {
      assert log[..k] == log;
      FlushedWasSent(log);
    } else {
      assert log[..|log| - 1][..k] == log[..k];
      KeptIdsPrefix(log[..|log| - 1], k);
    }
  }

  lemma {:induction false} KeptIdAt(log: seq<Event>, k: nat)
    requires k < |log| && log[k].Kept?
    ensures |KeptIds(log[..k])| < |KeptIds(log)| && KeptIds(log)[|KeptIds(log[..k])|] == log[k].id
  {
    if k < |log| - 1 {
      assert log[..|log| - 1][..k] == log[..k];
      KeptIdAt(log[..|log| - 1], k);
    }
  }

  /** When a promise is kept, every earlier one has been, and the transport had been flushed of every message up to it.
      For the shutdown marker that is the whole outbox, and nothing is written after it. */
  lemma KeptMeans(log: seq<Event>, ms: seq<Message>, k: nat)
    requires AckSafe(log, ms) && Sent(log) <= SerializeAll(ms) && KeptIds(log) == FirstIds(|KeptIds(log)|)
    requires k < |log| && log[k].Kept?
    ensures KeptIds(log[..k]) == FirstIds(log[k].id)
    ensures SerializeAll(UpTo(ms, log[k].id)) <= FlushedBytes(log[..k])
    ensures log[k].id >= |ms| ==> FlushedBytes(log[..k]) == Sent(log) == SerializeAll(ms)
  {
    hide SerializeAll, AckSafe, KeptIds, Sent, FlushedBytes;
    AckSafeAlways(log, ms, k);
    KeptIdsPrefix(log, k);
    KeptIdAt(log, k);
    if log[k].id >= |ms| { assert UpTo(ms, log[k].id) == ms; }
  }

  /** A flush never claims bytes that were not written. */
  lemma {:induction false} FlushedWasSent(log: seq<Event>)
    ensures FlushedBytes(log) <= Sent(log)
  {
    if log != [] { FlushedWasSent(log[..|log| - 1]); }
  }

  // ---- the writer's surroundings --------------------------------------------------------------------------------

  /** The queue with everything that is ever put on it, the transport, and the senders' promises. Which of the items
      have already arrived when the writer looks, and whether an operation fails, is not up to the writer. */
  class Link {
    const items: seq<Item>
    const reliable: bool
    var received: nat
    var wire: seq<byte>
    var promises: seq<Promise>
    ghost var log: seq<Event>
    /** How the last operation that could fail went. */
    ghost var fault: Effect
    /** How often the queue looked empty. */
    ghost var emptyLooks: nat

    constructor (items: seq<Item>, reliable: bool)
      ensures Begun(0) && this.items == items && this.reliable == reliable
    {
      this.items, this.reliable := items, reliable;
      received, wire := 0, [];
      promises := seq(|items|, _ => Pending);
      log, fault, emptyLooks := [], Done, 0;
    }

    /** What holds at every moment of every run. */
    ghost predicate History()
      reads this
    {
      var ms := Outbox(items);
      && received <= |items|
      && wire == Sent(log) <= SerializeAll(ms)
      && KeptIds(log) == FirstIds(|KeptIds(log)|)
      && AckSafe(log, ms)
      && LimitsKept(log)
      && |promises| == |items|
      && forall i :: 0 <= i < |items| ==> (promises[i] == Succeeded <==> i < |KeptIds(log)|)
    }

    ghost predicate NoneBroken()
      reads this
    {
      forall i :: 0 <= i < |promises| ==> promises[i] != Broken
    }

    /** The first `k` items are acknowledged, and exactly the first `p` messages are written and flushed. */
    ghost predicate Settled(k: nat, p: nat)
      reads this
    {
      && History() && NoneBroken() && fault == Done
      && |KeptIds(log)| == k
      && p <= |Outbox(items)|
      && wire == FlushedBytes(log) == SerializeAll(Outbox(items)[..p])
    }

    /** Between rounds nothing is in flight. */
    ghost predicate Begun(k: nat)
      reads this
    {
      Settled(k, k) && received == k
    }

    method Receive() returns (r: Incoming)
      requires History()
      modifies this`received, this`fault
      ensures History() && fault == if r.Dropped? then Cancelled else old(fault)
      ensures r.Arrived? ==>
                old(received) < |items| && received == old(received) + 1 && r.item == items[old(received)]
      ensures !r.Arrived? ==> received == old(received)
      ensures r.Closed? ==> received == |items|
      ensures r.Dropped? ==> !reliable
    {
      var dropped: bool := *;
      if dropped && !reliable {
        fault := Cancelled;
        return Dropped;
      }
      if received == |items| { return Closed; }
      r := Arrived(items[received]);
      received := received + 1;
    }

    method TryReceive() returns (r: Option<Item>)
      requires History()
      modifies this`received, this`emptyLooks
      ensures History() && emptyLooks == old(emptyLooks) + if r.None? then 1 else 0
      ensures r.Some? ==>
                old(received) < |items| && received == old(received) + 1 && r.value == items[old(received)]
      ensures r.None? ==> received == old(received)
    {
      var arrived: bool := *;
      if !arrived || received == |items| {
        emptyLooks := emptyLooks + 1;
        return None;
      }
      r := Some(items[received]);
      received := received + 1;
    }

    /** Writes all chunks, or some prefix of their bytes before failing. */
    method Write(chunks: seq<Chunk>, ghost batch: seq<Message>) returns (r: Effect, ghost through: seq<byte>)
      modifies this`wire, this`log, this`fault
      ensures fault == r
      ensures through <= PieceBytes(Pieces(chunks)) && (r.Done? ==> through == PieceBytes(Pieces(chunks)))
      ensures wire == old(wire) + through && log == old(log) + [Wrote(batch, through)]
      ensures reliable ==> r.Done?
    {
      var bs := PieceBytes(Pieces(chunks));
      r := Done;
      var failing: bool := *;
      if failing && !reliable {
        var n :| 0 <= n <= |bs|;
        bs := bs[..n];
        var cancelled: bool := *;
        r := if cancelled then Cancelled else Refused;
      }
      through, fault := bs, r;
      wire := wire + bs;
      log := log + [Wrote(batch, bs)];
    }

    method Flush() returns (r: Effect)
      modifies this`log, this`fault
      ensures fault == r && log == if r.Done? then old(log) + [Flushed] else old(log)
      ensures reliable ==> r.Done?
    {
      var failing: bool := *;
      if failing && !reliable {
        var cancelled: bool := *;
        r := if cancelled then Cancelled else Refused;
        fault := r;
        return;
      }
      log, fault := log + [Flushed], Done;
      return Done;
    }

    /** Completes the promise of one item. A promise can be completed only once. */
    method Keep(id: nat)
      requires id < |promises| && promises[id] == Pending
      modifies this`promises, this`log
      ensures promises == old(promises)[id := Succeeded]
      ensures log == old(log) + [Kept(id)]
    {
      promises := promises[id := Succeeded];
      log := log + [Kept(id)];
    }

    /** The writer is gone: every sender it still held, and every one still queued or queued later, is dropped. */
    method BreakPending()
      requires History()
      modifies this`promises
      ensures History()
      ensures forall i :: 0 <= i < |items| ==> promises[i] == if i < |KeptIds(log)| then Succeeded else Broken
    {
      var after := promises;
      for i := 0 to |promises|
        invariant |after| == |promises| == |items|
        invariant promises == old(promises)
        invariant forall j :: 0 <= j < i ==> after[j] == if promises[j] == Succeeded then Succeeded else Broken
        invariant forall j :: i <= j < |after| ==> after[j] == promises[j]
      {
        if after[i] != Succeeded { after := after[i := Broken]; }
      }
      promises := after;
    }
  }

  // ---- how each event keeps the history -------------------------------------------------------------------------

  lemma AfterWrite(log: seq<Event>, ms: seq<Message>, k: nat, p: nat, bs: seq<byte>)
    requires k <= p <= |ms| && Sent(log) == SerializeAll(ms[..k]) && bs <= SerializeAll(ms[k..p])
    ensures var after := log + [Wrote(ms[k..p], bs)];
            && Sent(after) == Sent(log) + bs <= SerializeAll(ms)
            && KeptIds(after) == KeptIds(log)
            && (AckSafe(log, ms) ==> AckSafe(after, ms))
            && (LimitsKept(log) && GoodBatch(ms[k..p]) ==> LimitsKept(after))
    ensures bs == SerializeAll(ms[k..p]) ==> Sent(log) + bs == SerializeAll(ms[..p])
  {
    hide SerializeAll, GoodBatch;
    var after := log + [Wrote(ms[k..p], bs)];
    assert after[..|log|] == log;
    SerializeAllAppend(ms[..k], ms[k..p]);
    assert ms[..k] + ms[k..p] == ms[..p];
    SerializeAllPrefix(ms, p);
  }

  lemma AfterFlush(log: seq<Event>, ms: seq<Message>)
    ensures var after := log + [Flushed];
            && Sent(after) == Sent(log) == FlushedBytes(after)
            && KeptIds(after) == KeptIds(log)
            && (AckSafe(log, ms) ==> AckSafe(after, ms))
            && (LimitsKept(log) ==> LimitsKept(after))
  {
    hide GoodBatch;
    assert (log + [Flushed])[..|log|] == log;
  }

  lemma AfterKeep(log: seq<Event>, ms: seq<Message>, id: nat, p: nat)
    requires p <= |ms| && FlushedBytes(log) == SerializeAll(ms[..p])
    requires id < p || p == |ms|
    ensures var after := log + [Kept(id)];
            && Sent(after) == Sent(log) && FlushedBytes(after) == FlushedBytes(log)
            && KeptIds(after) == KeptIds(log) + [id]
            && (AckSafe(log, ms) ==> AckSafe(after, ms))
            && (LimitsKept(log) ==> LimitsKept(after))
  {
    hide GoodBatch, SerializeAll;
    assert (log + [Kept(id)])[..|log|] == log;
    var n := Min(id + 1, |ms|);
    assert UpTo(ms, id) == ms[..p][..n];
    SerializeAllPrefix(ms[..p], n);
  }

  lemma OneMoreId(n: nat)
    ensures FirstIds(n) + [n] == FirstIds(n + 1)
  {
  }

  // ---- the loop -------------------------------------------------------------------------------------------------

  /** The ids of the items from `k` up to `p`, in order. */
  function Ids(k: nat, p: nat): (ids: seq<nat>)
    requires k <= p
    ensures |ids| == p - k
  {
    seq(p - k, i requires 0 <= i < p - k => k + i)
  }

  /** Completes the next promise in line. */
  method Acknowledge(link: Link, id: nat, ghost p: nat)
    requires link.Settled(id, p) && id < |link.items|
    requires id < p || p == |Outbox(link.items)|
    modifies link`promises, link`log
    ensures link.Settled(id + 1, p)
  {
    hide Sent, FlushedBytes, KeptIds, AckSafe, LimitsKept, SerializeAll, Outbox, FirstIds;
    AfterKeep(link.log, Outbox(link.items), id, p);
    OneMoreId(id);
    link.Keep(id);
  }

  /** Writes one batch; the history holds however much of it got through. */
  method WriteChunks(link: Link, chunks: seq<Chunk>, ghost k: nat, ghost p: nat) returns (r: Effect)
    requires link.Settled(k, k) && k <= p <= |Outbox(link.items)|
    requires PieceBytes(Pieces(chunks)) == SerializeAll(Outbox(link.items)[k..p])
    requires GoodBatch(Outbox(link.items)[k..p])
    modifies link`wire, link`log, link`fault
    ensures link.History() && link.NoneBroken() && |KeptIds(link.log)| == k && link.fault == r
    ensures r.Done? ==> link.wire == SerializeAll(Outbox(link.items)[..p])
    ensures link.reliable ==> r.Done?
  {
    ghost var ms := Outbox(link.items);
    hide Sent, FlushedBytes, KeptIds, AckSafe, LimitsKept, GoodBatch, SerializeAll, Outbox, PieceBytes, Pieces;
    ghost var log := link.log;
    ghost var through;
    r, through := link.Write(chunks, ms[k..p]);
    AfterWrite(log, ms, k, p, through);
  }

  method FlushWritten(link: Link, ghost k: nat, ghost p: nat) returns (r: Effect)
    requires link.History() && link.NoneBroken() && |KeptIds(link.log)| == k
    requires p <= |Outbox(link.items)| && link.wire == SerializeAll(Outbox(link.items)[..p])
    modifies link`log, link`fault
    ensures link.History() && link.fault == r
    ensures r.Done? ==> link.Settled(k, p)
    ensures link.reliable ==> r.Done?
  {
    AfterFlush(link.log, Outbox(link.items));
    hide Sent, FlushedBytes, KeptIds, AckSafe, LimitsKept, SerializeAll, Outbox;
    r := link.Flush();
  }

  method SendBatch(link: Link, batch: Batch, written: seq<nat>, ghost k: nat) returns (r: Effect)
    requires link.Settled(k, k)
    requires batch.Valid() && batch.inlineLimit == INLINE_LIMIT
    requires k + |written| <= link.received && k + |written| <= |Outbox(link.items)|
    requires written == Ids(k, k + |written|)
    requires batch.pushed == Outbox(link.items)[k..k + |written|] && GoodBatch(batch.pushed)
    modifies batch, link`wire, link`promises, link`log, link`fault
    ensures link.History() && link.fault == r
    ensures r.Done? ==> link.Settled(k + |written|, k + |written|) && batch.Valid() && batch.pushed == []
    ensures link.reliable ==> r.Done?
  {
    hide Sent, FlushedBytes, KeptIds, AckSafe, LimitsKept, GoodBatch, SerializeAll, Outbox, PieceBytes, Pieces, Layout;
    ghost var p := k + |written|;
    var chunks := batch.Take();
    r := WriteChunks(link, chunks, k, p);
    if r.Cancelled? { return; }
    batch.Recycle(chunks);
    if r.Refused? { return; }
    r := FlushWritten(link, k, p);
    if !r.Done? { return; }
    for i := 0 to |written|
      invariant link.Settled(k + i, p) && batch.Valid() && batch.pushed == []
    {
      Acknowledge(link, written[i], p);
    }
  }

  /** Collects what has arrived, from `first` on, into one batch. */
  method Gather(link: Link, batch: Batch, first: Item, ghost k: nat) returns (written: seq<nat>, done: Option<bool>)
    requires link.Settled(k, k) && link.received == k + 1 && first == link.items[k]
    requires batch.Valid() && batch.pushed == [] && batch.inlineLimit == INLINE_LIMIT
    modifies batch, link`received, link`emptyLooks
    ensures link.Settled(k, k) && batch.Valid()
    ensures k + |written| <= |Outbox(link.items)| && written == Ids(k, k + |written|)
    ensures batch.pushed == Outbox(link.items)[k..k + |written|]
    ensures batch.pushed != [] ==> GoodBatch(batch.pushed)
    ensures done.None? ==> written != [] && link.received == k + |written|
    ensures done.Some? ==>
              && k + |written| == |Outbox(link.items)| && link.received == k + |written| + 1
              && link.items[k + |written|] == Shutdown(done.value)
    ensures link.emptyLooks == old(link.emptyLooks) + if done.None? && BelowLimits(batch.pushed) then 1 else 0
  {
    hide AckSafe, LimitsKept, SerializeAll, Layout, Sent, FlushedBytes, KeptIds, FirstIds, PooledBytes, AllWellFormed;
    ghost var ms := Outbox(link.items);
    written, done := [], None;
    var next := Some(first);
    EmptyBelowLimits();
    assert ms[k..k] == [];
    while next.Some?
      invariant link.Settled(k, k) && batch.Valid()
      invariant k + |written| <= |ms| && written == Ids(k, k + |written|)
      invariant batch.pushed == ms[k..k + |written|]
      invariant next.Some? ==> BelowLimits(batch.pushed)
      invariant batch.pushed != [] ==> GoodBatch(batch.pushed)
      invariant next.Some? ==> link.received == k + |written| + 1 && next.value == link.items[k + |written|]
      invariant next.None? ==> written != [] && link.received == k + |written| && BelowLimits(batch.pushed)
      invariant link.emptyLooks == old(link.emptyLooks) + if next.None? then 1 else 0
      decreases |link.items| - link.received, if next.Some? then 1 else 0
    {
      var p := link.received - 1;
      match next.value {
        case Shutdown(ok) =>
          done := Some(ok);
          break;
        case Send(message) =>
          OneFurther(ms, k, p);
          assert (batch.pushed + [message])[..|batch.pushed|] == batch.pushed;
          batch.Push(message);
          written := written + [p];
      }
      next := None;
      if |batch.chunks| >= BATCH_CHUNKS || batch.bytes >= BATCH_BYTES { break; }
      next := link.TryReceive();
    }
  }

  lemma OneFurther(ms: seq<Message>, k: nat, p: nat)
    requires k <= p < |ms|
    ensures ms[k..p] + [ms[p]] == ms[k..p + 1]
  {
  }

  lemma EmptyBelowLimits()
    ensures BelowLimits([])
  {
  }

  /** Runs the writer to its end. Whatever arrives when, and wherever it fails or is dropped: the wire holds a prefix of
      the outbox, acknowledgements are given in queue order and only for flushed messages, and every promise is
      completed or broken. A writer that returns has sent and acknowledged the whole outbox, and the shutdown marker
      after it. */
  method WriteLoop(link: Link) returns (end: End)
    requires link.Begun(0)
    modifies link
    ensures link.History()
    ensures forall i :: 0 <= i < |link.items| ==>
              link.promises[i] == if i < |KeptIds(link.log)| then Succeeded else Broken
    ensures end.Returned? ==>
              && link.wire == SerializeAll(Outbox(link.items))
              && |KeptIds(link.log)| == Min(|Outbox(link.items)| + 1, |link.items|)
              && end.ok == (|Outbox(link.items)| == |link.items| || link.items[|Outbox(link.items)|].ok)
    ensures link.reliable ==> end.Returned?
    ensures end.WriteFailed? <==> link.fault == Refused
    ensures end.Abandoned? <==> link.fault == Cancelled
  {
    hide Sent, FlushedBytes, KeptIds, AckSafe, LimitsKept, SerializeAll, Layout, GoodBatch, FirstIds, BelowLimits;
    hide Outbox, OutboxLen, Pieces, PooledBytes, AllWellFormed, Ids;
    var batch := new Batch(INLINE_LIMIT);
    ghost var ms := Outbox(link.items);
    ghost var k: nat := 0;
    while true
      invariant link.Begun(k)
      invariant batch.Valid() && batch.pushed == [] && batch.inlineLimit == INLINE_LIMIT && fresh(batch)
      decreases |link.items| - link.received
    {
      var incoming := link.Receive();
      if !incoming.Arrived? {
        link.BreakPending();
        assert ms[..|ms|] == ms;
        return if incoming.Closed? then Returned(true) else Abandoned;
      }
      var written, done := Gather(link, batch, incoming.item, k);
      var empty := batch.IsEmpty();
      if !empty {
        var sent := SendBatch(link, batch, written, k);
        if !sent.Done? {
          link.BreakPending();
          return if sent.Refused? then WriteFailed else Abandoned;
        }
      }
      k := k + |written|;
      if done.Some? {
        Acknowledge(link, link.received - 1, k);
        link.BreakPending();
        assert ms[..|ms|] == ms;
        return Returned(done.value);
      }
    }
  }
}
