/** The incremental decoder of `src/rpc/frame.rs`: a staging buffer that is compacted and refilled as needed, and a
    second path that reads large bodies straight into the message. */
module Decoder {
  import opened Bytes
  import opened Wire
  import opened Streams

  datatype Error = PrematureEndOfFile | InvalidNumberOfSegments(count: nat) | MessageTooLarge(words: nat) | Io

  datatype Filled = Ready | AtEnd | Starved(error: Error)

  datatype Next = Received(message: Message) | EndOfStream | Failed(error: Error)

  datatype TableRead = Lengths(lengths: seq<nat>) | NoTable(outcome: Next)

  /** The longest segment table any accepted message has. */
  const MAX_TABLE: nat := TableLen(SEGMENTS_COUNT_LIMIT - 1)

  lemma TableFits(count: nat)
    requires !BadCount(count)
    ensures WORD <= TableLen(count) <= MAX_TABLE
  {
    TableLenIs(count);
    TableLenIs(SEGMENTS_COUNT_LIMIT - 1);
  }

  /** What the decoder answers, as the format defines it for the bytes that remain. An I/O error of the transport is
      the only thing that may come in between. */
  ghost predicate Answers(r: Next, t: seq<byte>, after: seq<byte>, limit: Option<nat>, reliable: bool) {
    match r
    case Received(m) => Parse(t, limit) == Frame(m, after)
    case EndOfStream => Parse(t, limit) == End && after == []
    case Failed(PrematureEndOfFile) => Parse(t, limit) == Premature
    case Failed(InvalidNumberOfSegments(count)) => Parse(t, limit) == InvalidSegments(count)
    case Failed(MessageTooLarge(words)) => Parse(t, limit) == TooLarge(words)
    case Failed(Io) => !reliable
  }

  lemma Skipped(staging: seq<byte>, pos: nat, k: nat, unread: seq<byte>)
    requires pos + k <= |staging|
    ensures (staging[pos..] + unread)[k..] == staging[pos + k..] + unread
  {
  }

  lemma Joined(t: seq<byte>, k: nat, body: seq<byte>, rest: seq<byte>)
    requires k <= |t| && k <= |body|
    requires body[..k] == t[..k] && body[k..] + rest == t[k..]
    ensures body + rest == t
  {
    assert body == body[..k] + body[k..];
    Assoc(body[..k], body[k..], rest);
    assert t == t[..k] + t[k..];
  }

  lemma FrameFrom(t: seq<byte>, at: nat, ls: seq<nat>, limit: Option<nat>, body: seq<byte>, rest: seq<byte>)
    requires at <= |t| && t[at..] == body + rest
    requires |ls| > 0 && |body| == WORD * TotalWords(ls) && !Exceeds(TotalWords(ls), limit)
    ensures ParseBody(t, at, ls, limit) == Frame(SplitBody(body, ls), rest)
  {
    assert t == t[..at] + t[at..];
    Assoc(t[..at], body, rest);
    Parts(t[..at], body, rest);
  }

  class Inbound {
    var staging: seq<byte>
    var space: nat
    var pos: nat
    ghost var largestBody: nat
    const capacity: nat
    const limit: Option<nat>
    /** How many bytes more than asked for an allocation may give. */
    const slack: nat

    ghost predicate Valid()
      reads this
    {
      && pos <= |staging| <= space <= Max(capacity, MAX_TABLE) + slack
      && (limit.Some? ==> largestBody <= WORD * limit.value)
    }

    ghost function Remaining(source: Source): seq<byte>
      requires Valid()
      reads this, source
    {
      staging[pos..] + source.unread
    }

    constructor (limit: Option<nat>, capacity: nat, slack: nat)
      ensures Valid()
      ensures staging == [] && pos == 0
      ensures this.limit == limit && this.capacity == capacity && this.slack == slack
    {
      this.limit, this.capacity, this.slack := limit, capacity, slack;
      staging, pos := [], 0;
      var given :| capacity <= given <= capacity + slack;
      space := given;
      largestBody := 0;
    }

    /** Buffers at least `needed` bytes, unless the stream ends first. */
    method Fill(source: Source, needed: nat, eofOk: bool) returns (r: Filled)
      requires Valid()
      requires needed <= Max(capacity, MAX_TABLE)
      modifies this, source`unread
      ensures Valid() && largestBody == old(largestBody)
      ensures r != Starved(Io) ==> Remaining(source) == old(Remaining(source))
      ensures r == Ready ==> |staging| - pos >= needed
      ensures r == AtEnd ==> eofOk && needed > 0 && old(Remaining(source)) == []
      ensures r.Starved? ==> r.error == PrematureEndOfFile || (r.error == Io && !source.reliable)
      ensures r == Starved(PrematureEndOfFile) ==>
                |old(Remaining(source))| < needed && !(eofOk && old(Remaining(source)) == [])
    {
      while |staging| - pos < needed
        invariant Valid() && largestBody == old(largestBody)
        invariant Remaining(source) == old(Remaining(source))
        decreases |source.unread|
      {
        if pos > 0 {
          staging := staging[pos..];
          pos := 0;
        }
        var wanted := Max(capacity, needed);
        if space < wanted {
          var given :| wanted <= given <= wanted + slack;
          space := given;
        }
        var c := source.Read(space - |staging|);
        if c.Broken? { return Starved(Io); }
        Assoc(staging, c.bytes, source.unread);
        staging := staging + c.bytes;
        if c.bytes == [] {
          if eofOk && staging == [] { return AtEnd; }
          return Starved(PrematureEndOfFile);
        }
      }
      return Ready;
    }

    method WordAtPos(index: nat, ghost t: seq<byte>) returns (w: nat)
      requires Valid()
      requires pos + 4 * index + 4 <= |staging|
      requires staging[pos..] <= t
      ensures w == WordAt(t, index)
    {
      var at := pos + 4 * index;
      w := FromLE(staging[at..at + 4]);
      assert staging[at..at + 4] == t[4 * index..4 * index + 4];
    }

    /** Reads and checks the segment count, or finds that there is no message to read. */
    method ReadCount(source: Source) returns (count: nat, stop: Option<Next>)
      requires Valid()
      modifies this, source`unread
      ensures Valid() && largestBody == old(largestBody)
      ensures stop.None? ==>
                && Remaining(source) == old(Remaining(source)) && |Remaining(source)| >= WORD
                && count == SegmentCount(Remaining(source)) && !BadCount(count)
      ensures stop.Some? ==>
                && !stop.value.Received?
                && Answers(stop.value, old(Remaining(source)), Remaining(source), limit, source.reliable)
    {
      TableFits(1);
      hide FromLE, ParseBody, TableLen, ReadLengths;
      ghost var t := Remaining(source);
      var f := Fill(source, WORD, true);
      if f.AtEnd? { return 0, Some(EndOfStream); }
      if f.Starved? { return 0, Some(Failed(f.error)); }
      var word := WordAtPos(0, t);
      count := (word + 1) % U32;
      if BadCount(count) { return count, Some(Failed(InvalidNumberOfSegments(count))); }
      return count, None;
    }

    /** Reads and checks a segment table and moves past it. */
    method ReadTable(source: Source) returns (r: TableRead)
      requires Valid()
      modifies this, source`unread
      ensures Valid() && largestBody == old(largestBody)
      ensures r.NoTable? ==> !r.outcome.Received?
      ensures r.NoTable? ==>
                Answers(r.outcome, old(Remaining(source)), Remaining(source), limit, source.reliable)
      ensures r.Lengths? ==>
                && |r.lengths| > 0 && !Exceeds(TotalWords(r.lengths), limit)
                && TableLen(|r.lengths|) <= |old(Remaining(source))|
                && Remaining(source) == old(Remaining(source))[TableLen(|r.lengths|)..]
                && Parse(old(Remaining(source)), limit)
                == ParseBody(old(Remaining(source)), TableLen(|r.lengths|), r.lengths, limit)
    {
      hide SplitBody, SegmentCount;
      ghost var t := Remaining(source);
      var count, stop := ReadCount(source);
      if stop.Some? { return NoTable(stop.value); }
      var tableLen := TableLen(count);
      TableFits(count);
      var f := Fill(source, tableLen, false);
      if f.Starved? { return NoTable(Failed(f.error)); }
      TableLenIs(count);
      var lengths, words := ReadLengthWords(count, t);
      if Exceeds(words, limit) { return NoTable(Failed(MessageTooLarge(words))); }
      Skipped(staging, pos, tableLen, source.unread);
      pos := pos + tableLen;
      return Lengths(lengths);
    }

    method ReadLengthWords(count: nat, ghost t: seq<byte>) returns (lengths: seq<nat>, words: nat)
      requires Valid()
      requires staging[pos..] <= t
      requires pos + 4 * (count + 1) <= |staging|
      ensures lengths == ReadLengths(t, count)
      ensures words == TotalWords(lengths)
    {
      lengths, words := [], 0;
      for index := 0 to count
        invariant lengths == ReadLengths(t, index)
        invariant words == TotalWords(lengths)
      {
        var l := WordAtPos(index + 1, t);
        TotalWordsSnoc(lengths, l);
        lengths, words := lengths + [l], words + l;
      }
    }

    /** A body that fits the staging buffer is collected there and copied out. */
    method ReadStaged(source: Source, body: array<byte>) returns (r: Filled)
      requires Valid() && body.Length <= capacity
      modifies this, source`unread, body
      ensures Valid() && r != AtEnd
      ensures r == Ready ==> body[..] + Remaining(source) == old(Remaining(source))
      ensures r.Starved? ==> r.error == PrematureEndOfFile || (r.error == Io && !source.reliable)
      ensures r == Starved(PrematureEndOfFile) ==> |old(Remaining(source))| < body.Length
    {
      r := Fill(source, body.Length, false);
      if r == Ready {
        ghost var t := Remaining(source);
        forall i | 0 <= i < body.Length { body[i] := staging[pos + i]; }
        pos := pos + body.Length;
        assert body[..] == t[..body.Length];
        assert Remaining(source) == t[body.Length..];
      }
    }

    /** A larger body takes what is buffered and reads the rest in place. */
    method ReadDirect(source: Source, body: array<byte>) returns (r: Filled)
      requires Valid()
      modifies this, source`unread, body
      ensures Valid() && r != AtEnd
      ensures r == Ready ==> body[..] + Remaining(source) == old(Remaining(source))
      ensures r.Starved? ==> r.error == PrematureEndOfFile || (r.error == Io && !source.reliable)
      ensures r == Starved(PrematureEndOfFile) ==> |old(Remaining(source))| < body.Length
    {
      ghost var t := Remaining(source);
      var buffered := Min(|staging| - pos, body.Length);
      forall i | 0 <= i < buffered { body[i] := staging[pos + i]; }
      pos := pos + buffered;
      assert body[..buffered] == t[..buffered];
      assert Remaining(source) == t[buffered..];
      var e := source.ReadExact(body, buffered);
      match e {
        case Interrupted => return Starved(Io);
        case Short => return Starved(PrematureEndOfFile);
        case Full =>
          assert buffered < body.Length ==> staging[pos..] == [];
          assert buffered == body.Length ==> body[buffered..] == [];
          assert body[..][..buffered] == body[..buffered] && body[..][buffered..] == body[buffered..];
          Joined(t, buffered, body[..], Remaining(source));
          return Ready;
      }
    }

    /** The next message, the end of the stream, or the first thing wrong with it. */
    method GetNext(source: Source) returns (r: Next)
      requires Valid()
      modifies this, source`unread
      ensures Valid()
      ensures Answers(r, old(Remaining(source)), Remaining(source), limit, source.reliable)
    {
      ghost var t := Remaining(source);
      var table := ReadTable(source);
      if table.NoTable? { return table.outcome; }
      var lengths := table.lengths;
      ghost var at := TableLen(|lengths|);
      var bodyLen := WORD * TotalWords(lengths);
      var body := new byte[bodyLen](_ => 0);
      largestBody := Max(largestBody, bodyLen);
      var f;
      if bodyLen <= capacity {
        f := ReadStaged(source, body);
      } else {
        f := ReadDirect(source, body);
      }
      if f.Starved? { return Failed(f.error); }
      FrameFrom(t, at, lengths, limit, body[..], Remaining(source));
      return Received(SplitBody(body[..], lengths));
    }
  }
  datatype Verdict = Ended(ending: Ending) | Interruption

  function EndingOf(e: Error): Verdict {
    match e
    case PrematureEndOfFile => Ended(Cut)
    case InvalidNumberOfSegments(count) => Ended(BadTable(count))
    case MessageTooLarge(words) => Ended(OverLimit(words))
    case Io => Interruption
  }

  /** What was taken so far and what the rest decodes to make up the decoding of the whole stream. */
  ghost predicate OnTrack(stream: seq<byte>, taken: seq<Message>, rest: seq<byte>, limit: Option<nat>) {
    Decode(stream, limit) == Decoded(taken + Decode(rest, limit).messages, Decode(rest, limit).ending)
  }

  lemma OnTrackNext(stream: seq<byte>, taken: seq<Message>, rest: seq<byte>, limit: Option<nat>)
    requires OnTrack(stream, taken, rest, limit) && Parse(rest, limit).Frame?
    ensures OnTrack(stream, taken + [Parse(rest, limit).message], Parse(rest, limit).rest, limit)
    ensures |Parse(rest, limit).rest| < |rest|
  {
    hide Parse;
    var m := Parse(rest, limit).message;
    var tail := Decode(Parse(rest, limit).rest, limit).messages;
    assert taken + ([m] + tail) == (taken + [m]) + tail;
    ParseShrinks(rest, limit);
  }

  lemma ParseShrinks(s: seq<byte>, limit: Option<nat>)
    requires Parse(s, limit).Frame?
    ensures |Parse(s, limit).rest| < |s|
  {
  }

  /** Drains a transport. The outcome is a function of the bytes and the limit alone: neither the read sizes, nor the
      staging capacity, nor what the allocator rounds up to can be seen in it. */
  method DecodeStream(stream: seq<byte>, reliable: bool, limit: Option<nat>, capacity: nat, slack: nat)
      returns (messages: seq<Message>, verdict: Verdict)
    ensures verdict.Ended? ==> Decode(stream, limit) == Decoded(messages, verdict.ending)
    ensures verdict.Interruption? ==> !reliable && messages <= Decode(stream, limit).messages
  {
    var source := new Source(stream, reliable);
    var inbound := new Inbound(limit, capacity, slack);
    messages := [];
    assert inbound.Remaining(source) == stream;
    while true
      invariant inbound.Valid() && inbound.limit == limit && source.reliable == reliable
      invariant OnTrack(stream, messages, inbound.Remaining(source), limit)
      decreases |inbound.Remaining(source)|
    {
      ghost var rest := inbound.Remaining(source);
      var r := inbound.GetNext(source);
      match r {
        case Received(m) =>
          OnTrackNext(stream, messages, rest, limit);
          messages := messages + [m];
        case EndOfStream =>
          assert messages + [] == messages;
          return messages, Ended(Clean);
        case Failed(e) =>
          assert messages + [] == messages;
          return messages, EndingOf(e);
      }
    }
  }
}
