/** Which streams hold no message, and what is said of each: the exact condition on the bytes for every verdict of the
    format other than a message. */
module Verdicts {
  import opened Bytes
  import opened Wire
  import opened Framing
  import Decoder

  /** The segment count the first four bytes announce, in the 32-bit arithmetic of the code. */
  ghost function Announced(s: seq<byte>): nat
    requires |s| >= 4
  {
    (Value(s[0], s[1], s[2], s[3]) + 1) % 0x1_0000_0000
  }

  /** The segment count and lengths of `m` can be written in a table that is read at all. */
  ghost predicate Tabulated(m: Message) {
    |m| < 512 && forall i :: 0 <= i < |m| ==> |m[i]| / 8 < 0x1_0000_0000
  }

  ghost predicate StartsWithTable(s: seq<byte>, m: Message) {
    && Tabulated(m)
    && exists pad: seq<byte>, t: seq<byte> :: |pad| == PadLen(|m|) && s == TableWith(m, pad) + t
  }

  ghost predicate PastLimit(m: Message, limit: Option<nat>) {
    limit.Some? && |Flatten(m)| > 8 * limit.value
  }

  /** Fewer than eight bytes, an unfinished table, or an unfinished body that the limit allows. */
  ghost predicate CutShort(s: seq<byte>, limit: Option<nat>) {
    && s != []
    && (|s| < 8
        || (0 < Announced(s) < 512 && |s| < 4 * (Announced(s) + 1) + PadLen(Announced(s)))
        || exists m: Message :: StartsWithTable(s, m) && !PastLimit(m, limit) && |s| < |Serialize(m)|)
  }

  ghost predicate Oversized(s: seq<byte>, words: nat, limit: Option<nat>) {
    exists m: Message :: StartsWithTable(s, m) && PastLimit(m, limit) && |Flatten(m)| == 8 * words
  }

  lemma AnnouncedIs(s: seq<byte>)
    requires |s| >= 4
    ensures SegmentCount(s) == Announced(s)
  {
    WordValue(s, 0);
  }

  /** Some message with segments of these lengths. */
  ghost function Blank(ls: seq<nat>): (m: seq<seq<byte>>)
    ensures |m| == |ls| && Aligned(m) && Lengths(m) == ls
  {
    var m := seq(|ls|, i requires 0 <= i < |ls| => Zeros(WORD * ls[i]));
    assert Lengths(m) == ls;
    m
  }

  /** Every finished table with a legal count is the table of some message. */
  lemma TableIsThere(s: seq<byte>)
    requires |s| >= WORD && !BadCount(SegmentCount(s)) && |s| >= TableLen(SegmentCount(s))
    ensures |s| >= 4 * (SegmentCount(s) + 1)
    ensures StartsWithTable(s, Blank(ReadLengths(s, SegmentCount(s))))
  {
    hide SegmentCount, EncodeLengths, TableWith, WordAt;
    var count := SegmentCount(s);
    TableLenIs(count);
    LengthsReadBack(s, count);
    var m := Blank(ReadLengths(s, count));
    hide Blank;
    TableOfParse(s, m);
    forall i | 0 <= i < |m| ensures |m[i]| / 8 < 0x1_0000_0000 { LengthsAt(m, i); }
    var pad, t := s[4 * (count + 1)..TableLen(count)], s[TableLen(count)..];
    assert s == s[..TableLen(count)] + t;
  }

  /** What a stream with a finished table starts with follows from the table and the length of the stream. */
  lemma ParseOfTable(s: seq<byte>, m: Message, limit: Option<nat>)
    requires StartsWithTable(s, m)
    ensures |s| >= 8 && 0 < Announced(s) == |m| < 512
    ensures Parse(s, limit).TooLarge? <==> PastLimit(m, limit)
    ensures Parse(s, limit).TooLarge? ==> |Flatten(m)| == 8 * Parse(s, limit).words
    ensures Parse(s, limit).Premature? <==> !PastLimit(m, limit) && |s| < |Serialize(m)|
    ensures |s| >= 4 * (|m| + 1) + PadLen(|m|)
    ensures Parse(s, limit).TooLarge? || Parse(s, limit).Premature? || Parse(s, limit).Frame?
  {
    hide TableWith, SplitBody, Flatten, Lengths, Parse, SegmentCount, ReadLengths, Table, Announced;
    var pad, t :| |pad| == PadLen(|m|) && s == TableWith(m, pad) + t;
    TableReadsBack(m, pad, t);
    TableLenIs(|m|);
    FlattenLength(m);
    AnnouncedIs(s);
    ParseUnfolds(s, |m|, limit);
  }

  /** The answer to a table over the limit, whatever follows it. */
  lemma TooLargeTable(m: Message, pad: seq<byte>, t: seq<byte>, limit: Option<nat>)
    requires Tabulated(m) && |pad| == PadLen(|m|) && limit.Some? && TotalWords(Lengths(m)) > limit.value
    ensures Parse(TableWith(m, pad) + t, limit) == TooLarge(TotalWords(Lengths(m)))
  {
    hide TableWith, Parse, Flatten, Lengths;
    FlattenLength(m);
    ParseOfTable(TableWith(m, pad) + t, m, limit);
  }

  lemma ParseWithoutTable(s: seq<byte>, limit: Option<nat>)
    requires |s| < 8 || !(0 < Announced(s) < 512) || |s| < 4 * (Announced(s) + 1) + PadLen(Announced(s))
    ensures Parse(s, limit) ==
            if s == [] then End
            else if |s| >= 8 && !(0 < Announced(s) < 512) then InvalidSegments(Announced(s))
            else Premature
  {
    hide SegmentCount, Announced;
    if |s| >= 4 {
      AnnouncedIs(s);
      TableLenIs(Announced(s));
    }
  }

  /** Every verdict on a stream that does not start with a message, from its bytes; `n` is the number it reports. */
  lemma VerdictsAreExact(s: seq<byte>, limit: Option<nat>, n: nat)
    ensures Parse(s, limit) == End <==> s == []
    ensures Parse(s, limit) == Premature <==> CutShort(s, limit)
    ensures Parse(s, limit) == InvalidSegments(n) <==> |s| >= 8 && n == Announced(s) && !(0 < n < 512)
    ensures Parse(s, limit) == TooLarge(n) <==> Oversized(s, n, limit)
  {
    hide Parse, Announced, StartsWithTable, PastLimit, Flatten, Serialize;
    if |s| < 8 || !(0 < Announced(s) < 512) || |s| < 4 * (Announced(s) + 1) + PadLen(Announced(s)) {
      ParseWithoutTable(s, limit);
      forall m: Message ensures !StartsWithTable(s, m) {
        if StartsWithTable(s, m) { ParseOfTable(s, m, limit); }
      }
    } else {
      AnnouncedIs(s);
      TableLenIs(Announced(s));
      TableIsThere(s);
      var m: Message := Blank(ReadLengths(s, SegmentCount(s)));
      ParseOfTable(s, m, limit);
      forall n: Message | StartsWithTable(s, n)
        ensures Parse(s, limit).TooLarge? <==> PastLimit(n, limit)
        ensures Parse(s, limit).TooLarge? ==> |Flatten(n)| == 8 * Parse(s, limit).words
        ensures Parse(s, limit).Premature? <==> !PastLimit(n, limit) && |s| < |Serialize(n)|
      {
        ParseOfTable(s, n, limit);
      }
    }
  }

  // ---- the decoder and whole streams ----------------------------------------------------------------------------

  /** What the decoder answers, from the bytes that remain, when the transport does not fail. */
  lemma AnswersAreExact(r: Decoder.Next, t: seq<byte>, after: seq<byte>, limit: Option<nat>, reliable: bool,
                        n: nat)
    requires Decoder.Answers(r, t, after, limit, reliable) && r != Decoder.Failed(Decoder.Io)
    ensures r == Decoder.EndOfStream <==> t == []
    ensures r == Decoder.Failed(Decoder.PrematureEndOfFile) <==> CutShort(t, limit)
    ensures r == Decoder.Failed(Decoder.InvalidNumberOfSegments(n))
       <==> |t| >= 8 && n == Announced(t) && !(0 < n < 512)
    ensures r == Decoder.Failed(Decoder.MessageTooLarge(n)) <==> Oversized(t, n, limit)
    ensures r.Received? ==> Deliverable(r.message, limit) && StartsWithFrame(t, r.message, after)
  {
    hide Parse, CutShort, Oversized, Announced, Deliverable, StartsWithFrame;
    VerdictsAreExact(t, limit, n);
    if r.Received? { ParsesExactlyFrames(t, r.message, after, limit); }
  }

  /** Messages within the limits followed by anything: the messages arrive, and the rest is judged on its own. */
  lemma {:induction false} DecodeAfter(ms: seq<Message>, t: seq<byte>, limit: Option<nat>)
    requires AllDeliverable(ms, limit)
    ensures Decode(SerializeAll(ms) + t, limit)
         == Decoded(ms + Decode(t, limit).messages, Decode(t, limit).ending)
  {
    hide Serialize, Decode, Deliverable;
    if ms == [] {
      assert SerializeAll(ms) + t == t;
      assert ms + Decode(t, limit).messages == Decode(t, limit).messages;
    } else {
      Assoc(Serialize(ms[0]), SerializeAll(ms[1..]), t);
      DecodeFirst(ms[0], SerializeAll(ms[1..]) + t, limit);
      DecodeAfter(ms[1..], t, limit);
      assert ms + Decode(t, limit).messages == [ms[0]] + (ms[1..] + Decode(t, limit).messages);
    }
  }

  /** How a stream of good messages ends when something that is not a message follows them. */
  lemma StreamEnds(ms: seq<Message>, t: seq<byte>, limit: Option<nat>, n: nat)
    requires AllDeliverable(ms, limit)
    ensures var d := Decode(SerializeAll(ms) + t, limit);
            && (t == [] ==> d == Decoded(ms, Clean))
            && (CutShort(t, limit) ==> d == Decoded(ms, Cut))
            && (|t| >= 8 && n == Announced(t) && !(0 < n < 512) ==> d == Decoded(ms, BadTable(n)))
            && (Oversized(t, n, limit) ==> d == Decoded(ms, OverLimit(n)))
  {
    hide CutShort, Oversized, Announced, SerializeAll, AllDeliverable, Parse;
    DecodeAfter(ms, t, limit);
    VerdictsAreExact(t, limit, n);
    assert ms + [] == ms;
  }
}
