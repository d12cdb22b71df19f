/** Sender and receiver put together, and the receiving side over the life of a connection. */
module Delivery {
  import opened Bytes
  import opened Wire
  import opened Framing
  import opened Streams
  import opened Decoder
  import opened Writer

  /** What a receiver gets of an outbox of which `cut` bytes arrive. */
  ghost predicate ArrivesCut(ms: seq<Message>, cut: nat, received: seq<Message>, verdict: Verdict) {
    && cut <= |SerializeAll(ms)|
    && received == ms[..Complete(ms, cut)]
    && verdict == Ended(if OnBoundary(ms, cut) then Clean else Cut)
  }

  /** A message whose acknowledgement was given is complete in what was written. */
  lemma AcknowledgedIsComplete(log: seq<Event>, ms: seq<Message>, id: nat)
    requires AckSafe(log, ms) && KeptIds(log) == FirstIds(|KeptIds(log)|)
    requires id < |KeptIds(log)| && id < |ms|
    ensures id < Complete(ms, |Sent(log)|)
  {
    hide SerializeAll, AckSafe, KeptIds, Sent, FlushedBytes, Complete;
    var k := FindKept(log, id);
    AckSafeAlways(log, ms, k);
    KeptIdsPrefix(log, k);
    CompleteIsLargest(ms, |Sent(log)|, id + 1);
  }

  lemma {:induction false} FindKept(log: seq<Event>, i: nat) returns (k: nat)
    requires i < |KeptIds(log)|
    ensures k < |log| && log[k].Kept? && log[k].id == KeptIds(log)[i]
  {
    var init := log[..|log| - 1];
    if i < |KeptIds(init)| {
      k := FindKept(init, i);
    } else {
      k := |log| - 1;
    }
  }

  /** From the queue of one side to the receives of the other, for every batching, every short read and every buffer
      size. A writer that comes to its end delivers exactly the outbox, in order and once, and then a clean end. One
      that fails or is dropped delivers the messages that are complete in what it wrote, and every message it had
      acknowledged is among them. */
  method Deliver(items: seq<Item>, writesReliable: bool, limit: Option<nat>, capacity: nat, slack: nat)
      returns (end: End, promises: seq<Promise>, wire: seq<byte>, received: seq<Message>, verdict: Verdict)
    ensures writesReliable ==> end.Returned?
    ensures |promises| == |items| && forall i :: 0 <= i < |items| ==> promises[i] != Pending
    ensures end.Returned? ==> forall i :: 0 <= i < |Outbox(items)| ==> promises[i] == Succeeded
    ensures wire <= SerializeAll(Outbox(items)) && (end.Returned? ==> wire == SerializeAll(Outbox(items)))
    ensures end.Returned? ==>
              (AllDeliverable(Outbox(items), limit) <==> received == Outbox(items) && verdict == Ended(Clean))
    ensures AllDeliverable(Outbox(items), limit) ==>
              && ArrivesCut(Outbox(items), |wire|, received, verdict)
              && (forall i :: 0 <= i < |Outbox(items)| && promises[i] == Succeeded ==> i < |received|)
  {
    hide SerializeAll, Decode, KeptIds, AckSafe, Sent, LimitsKept, Complete, Deliverable;
    var link := new Link(items, writesReliable);
    end := WriteLoop(link);
    promises, wire := link.promises, link.wire;
    received, verdict := DecodeStream(wire, true, limit, capacity, slack);
    ghost var ms := Outbox(items);
    RoundTripIff(ms, limit);
    if AllDeliverable(ms, limit) {
      PrefixArrives(ms, wire, limit);
      forall i | 0 <= i < |ms| && promises[i] == Succeeded ensures i < |received| {
        AcknowledgedIsComplete(link.log, ms, i);
      }
    }
  }

  // ---- receiving over a connection's life -----------------------------------------------------------------------

  /** What can happen on the receiving side: a receive is started, its future completes, or its future is dropped. */
  datatype Command = Start | Finish | Abandon

  datatype Outcome = Started | Busy | Delivered(message: Message) | NoMore | Error(error: Decoder.Error) | Lost | Idle

  function Deliveries(os: seq<Outcome>): seq<Message> {
    if os == [] then []
    else
      var init, last := os[..|os| - 1], os[|os| - 1];
      if last.Delivered? then Deliveries(init) + [last.message] else Deliveries(init)
  }

  predicate Ends(o: Outcome) { o.Error? || o.Lost? }

  predicate Dead(os: seq<Outcome>) {
    os != [] && (Ends(os[|os| - 1]) || Dead(os[..|os| - 1]))
  }

  /** A receive has been started and has neither completed nor been dropped. */
  predicate UnderWay(os: seq<Outcome>) {
    os != [] &&
    var last := os[|os| - 1];
    last.Started? || ((last.Busy? || last.Idle?) && UnderWay(os[..|os| - 1]))
  }

  /** Which kind of outcome a command has, given the outcomes before it. */
  predicate Fits(c: Command, o: Outcome, before: seq<Outcome>) {
    match c
    case Start => o == if Dead(before) || UnderWay(before) then Busy else Started
    case Finish => if UnderWay(before) then o.Delivered? || o.NoMore? || o.Error? else o.Idle?
    case Abandon => o == if UnderWay(before) then Lost else Idle
  }

  /** The outcome `o` is the one that the bytes of the stream and the outcomes before it call for. */
  ghost predicate CalledFor(o: Outcome, before: seq<Outcome>, stream: seq<byte>, limit: Option<nat>, reliable: bool) {
    var whole := Decode(stream, limit);
    && (Dead(before) ==> o.Busy? || o.Idle?)
    && match o
       case Delivered(m) => Deliveries(before) + [m] <= whole.messages
       case NoMore => whole == Decoded(Deliveries(before), Clean)
       case Error(Io) => !reliable
       case Error(e) => EndingOf(e) == Ended(whole.ending) && whole.messages == Deliveries(before)
       case _ => true
  }

  ghost predicate Truthful(os: seq<Outcome>, stream: seq<byte>, limit: Option<nat>, reliable: bool) {
    os == [] ||
    var init, last := os[..|os| - 1], os[|os| - 1];
    Truthful(init, stream, limit, reliable) && CalledFor(last, init, stream, limit, reliable)
  }

  lemma OneMore(os: seq<Outcome>, o: Outcome, stream: seq<byte>, limit: Option<nat>, reliable: bool)
    requires Truthful(os, stream, limit, reliable) && CalledFor(o, os, stream, limit, reliable)
    ensures Truthful(os + [o], stream, limit, reliable)
    ensures Dead(os + [o]) <==> Dead(os) || Ends(o)
    ensures UnderWay(os + [o]) <==> o.Started? || ((o.Busy? || o.Idle?) && UnderWay(os))
    ensures Deliveries(os + [o]) == if o.Delivered? then Deliveries(os) + [o.message] else Deliveries(os)
  {
    assert (os + [o])[..|os|] == os;
  }

  lemma {:induction false} TruthfulAt(os: seq<Outcome>, k: nat, stream: seq<byte>, limit: Option<nat>, reliable: bool)
    requires Truthful(os, stream, limit, reliable) && k < |os|
    ensures CalledFor(os[k], os[..k], stream, limit, reliable)
  {
    hide CalledFor;
    if k < |os| - 1 {
      assert os[..|os| - 1][..k] == os[..k];
      TruthfulAt(os[..|os| - 1], k, stream, limit, reliable);
    }
  }

  lemma {:induction false} DeadFrom(os: seq<Outcome>, i: nat)
    requires i < |os| && Ends(os[i])
    ensures Dead(os)
  {
    if i < |os| - 1 { DeadFrom(os[..|os| - 1], i); }
  }

  lemma {:induction false} DeliveriesPrefix(os: seq<Outcome>, stream: seq<byte>, limit: Option<nat>, reliable: bool)
    requires Truthful(os, stream, limit, reliable)
    ensures Deliveries(os) <= Decode(stream, limit).messages
  {
    hide Decode;
    if os != [] { DeliveriesPrefix(os[..|os| - 1], stream, limit, reliable); }
  }

  /** After an error or a dropped receive nothing is started or delivered any more. */
  lemma NothingAfterTheEnd(os: seq<Outcome>, stream: seq<byte>, limit: Option<nat>, reliable: bool, i: nat, j: nat)
    requires Truthful(os, stream, limit, reliable)
    requires i < j < |os| && Ends(os[i])
    ensures os[j].Busy? || os[j].Idle?
  {
    hide Truthful;
    TruthfulAt(os, j, stream, limit, reliable);
    DeadFrom(os[..j], i);
  }

  class Connection {
    const source: Source
    const stream: seq<byte>
    const limit: Option<nat>
    /** The decoder while no receive is under way. */
    var slot: Inbound?
    /** The decoder while a receive owns it. */
    var taken: Inbound?
    ghost var outcomes: seq<Outcome>

    ghost predicate OwnerValid(owner: Inbound)
      reads this, owner, source
    {
      && owner.Valid() && owner.limit == limit
      && OnTrack(stream, Deliveries(outcomes), owner.Remaining(source), limit)
    }

    /** At most one place holds the decoder, and none does once a receive has failed or been dropped. */
    ghost predicate Valid()
      reads this, source, slot, taken
    {
      && (slot == null || taken == null)
      && Truthful(outcomes, stream, limit, source.reliable)
      && (Dead(outcomes) <==> slot == null && taken == null)
      && (UnderWay(outcomes) <==> taken != null)
      && (slot != null ==> OwnerValid(slot))
      && (taken != null ==> OwnerValid(taken))
    }

    constructor (stream: seq<byte>, reliable: bool, limit: Option<nat>, capacity: nat, slack: nat)
      ensures Valid() && outcomes == []
      ensures this.stream == stream && this.limit == limit && source.reliable == reliable
      ensures fresh(source) && slot != null && fresh(slot) && taken == null
    {
      this.stream, this.limit := stream, limit;
      var s := new Source(stream, reliable);
      var inbound := new Inbound(limit, capacity, slack);
      source, slot, taken, outcomes := s, inbound, null, [];
      assert inbound.Remaining(s) == stream;
    }

    /** Starts a receive: the decoder moves out of the slot, if it is there. */
    method Begin() returns (o: Outcome)
      requires Valid()
      modifies this`slot, this`taken, this`outcomes
      ensures Valid() && outcomes == old(outcomes) + [o]
      ensures Fits(Start, o, old(outcomes))
      ensures {slot, taken} == old({slot, taken})
    {
      hide Truthful, OnTrack;
      if slot == null {
        o := Busy;
      } else {
        o := Started;
        taken, slot := slot, null;
      }
      OneMore(outcomes, o, stream, limit, source.reliable);
      outcomes := outcomes + [o];
    }

    /** Drops a receive under way, and the decoder with it. */
    method Drop() returns (o: Outcome)
      requires Valid()
      modifies this`taken, this`outcomes
      ensures Valid() && outcomes == old(outcomes) + [o]
      ensures Fits(Abandon, o, old(outcomes))
      ensures taken == null
    {
      hide Truthful, OnTrack;
      o := if taken == null then Idle else Lost;
      taken := null;
      OneMore(outcomes, o, stream, limit, source.reliable);
      outcomes := outcomes + [o];
    }

    /** Runs a receive under way to its end; the decoder goes back into the slot unless it failed. */
    method Complete() returns (o: Outcome)
      requires Valid()
      modifies this`slot, this`taken, this`outcomes, taken, source`unread
      ensures Valid() && outcomes == old(outcomes) + [o]
      ensures Fits(Finish, o, old(outcomes))
      ensures taken == null && {slot, taken, null} <= old({slot, taken, null})
    {
      hide Truthful, OnTrack, Parse, Decode;
      if taken == null {
        o := Idle;
      } else {
        var inbound := taken;
        ghost var rest, got := inbound.Remaining(source), Deliveries(outcomes);
        taken := null;
        var r := inbound.GetNext(source);
        Answered(r, stream, got, rest, inbound.Remaining(source), limit, source.reliable);
        o := match r
          case Received(m) => Delivered(m)
          case EndOfStream => NoMore
          case Failed(e) => Error(e);
        if !r.Failed? { slot := inbound; }
      }
      OneMore(outcomes, o, stream, limit, source.reliable);
      outcomes := outcomes + [o];
    }
  }

  lemma Answered(r: Next, stream: seq<byte>, got: seq<Message>, rest: seq<byte>, after: seq<byte>,
                 limit: Option<nat>, reliable: bool)
    requires OnTrack(stream, got, rest, limit) && Answers(r, rest, after, limit, reliable)
    ensures r.Received? ==>
              OnTrack(stream, got + [r.message], after, limit) && got + [r.message] <= Decode(stream, limit).messages
    ensures r.EndOfStream? ==> OnTrack(stream, got, after, limit) && Decode(stream, limit) == Decoded(got, Clean)
    ensures r.Failed? && r.error != Io ==>
              EndingOf(r.error) == Ended(Decode(stream, limit).ending) && Decode(stream, limit).messages == got
    ensures r == Failed(Io) ==> !reliable
  {
    hide Parse;
    if r.Received? {
      OnTrackNext(stream, got, rest, limit);
    } else {
      assert got + [] == got;
      CutNothing(limit);
    }
  }

  /** Any interleaving of receives started, completed and dropped on one connection. What they deliver is a prefix of
      what the stream decodes to, without gap or repeat, and every outcome is the one called for. */
  method Life(commands: seq<Command>, stream: seq<byte>, reliable: bool, limit: Option<nat>, capacity: nat, slack: nat)
      returns (os: seq<Outcome>)
    ensures |os| == |commands| && forall i :: 0 <= i < |os| ==> Fits(commands[i], os[i], os[..i])
    ensures Truthful(os, stream, limit, reliable)
    ensures Deliveries(os) <= Decode(stream, limit).messages
  {
    hide Truthful, Decode, Fits, Dead, UnderWay, OnTrack, Deliveries;
    var c := new Connection(stream, reliable, limit, capacity, slack);
    os := [];
    for i := 0 to |commands|
      invariant c.Valid() && c.outcomes == os && |os| == i
      invariant forall j :: 0 <= j < i ==> Fits(commands[j], os[j], os[..j])
      invariant c.stream == stream && c.limit == limit && c.source.reliable == reliable
      invariant fresh(c) && fresh(c.source) && fresh({c.slot, c.taken} - {null})
    {
      var o;
      match commands[i] {
        case Start => o := c.Begin();
        case Finish => o := c.Complete();
        case Abandon => o := c.Drop();
      }
      forall j | 0 <= j <= i ensures (os + [o])[..j] == os[..j] { }
      os := os + [o];
    }
    DeliveriesPrefix(os, stream, limit, reliable);
  }
}
