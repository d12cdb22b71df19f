/** What the framing format promises: which streams hold a message, that reading undoes writing, and what is left of
    a stream that stops early. */
module Framing {
  import opened Bytes
  import opened Wire

  /** The messages a receiver with this limit takes. */
  ghost predicate Deliverable(m: Message, limit: Option<nat>) {
    && |m| < SEGMENTS_COUNT_LIMIT
    && (forall i :: 0 <= i < |m| ==> |m[i]| / WORD < U32)
    && (limit.Some? ==> TotalWords(Lengths(m)) <= limit.value)
  }

  ghost predicate AllDeliverable(ms: seq<Message>, limit: Option<nat>) {
    forall i :: 0 <= i < |ms| ==> Deliverable(ms[i], limit)
  }

  ghost function FrameWith(m: Message, pad: seq<byte>): seq<byte> {
    TableWith(m, pad) + Flatten(m)
  }

  ghost predicate StartsWithFrame(s: seq<byte>, m: Message, rest: seq<byte>) {
    exists pad: seq<byte> :: |pad| == PadLen(|m|) && s == FrameWith(m, pad) + rest
  }

  // ---- one message ----------------------------------------------------------------------------------------------

  /** The table of any encoding of `m` reads back as `m`'s segment count and lengths. */
  lemma TableReadsBack(m: Message, pad: seq<byte>, t: seq<byte>)
    requires |m| <= U32
    requires forall i :: 0 <= i < |m| ==> |m[i]| / WORD < U32
    ensures SegmentCount(TableWith(m, pad) + t) == |m| % U32
    ensures ReadLengths(TableWith(m, pad) + t, |m|) == Lengths(m)
  {
    hide LE, EncodeLengths, FromLE, Lengths;
    var head, ls := LE(4, |m| - 1), Lengths(m);
    var words, s := EncodeLengths(ls), TableWith(m, pad) + t;
    Assoc(head + words, pad, t);
    Parts(head, words, pad + t);
    Pow256Values();
    FromLEOfLE(4, |m| - 1);
    forall i | 0 <= i < |m| ensures ReadLengths(s, |m|)[i] == ls[i] {
      EncodeLengthsAt(ls, i);
      SliceOfSlice(s, 4, 4 + |words|, 4 * i, 4 * i + 4);
      LengthsAt(m, i);
      FromLEOfLE(4, ls[i]);
    }
  }

  lemma LengthsAt(m: seq<seq<byte>>, i: nat)
    requires i < |m|
    ensures Lengths(m)[i] == |m[i]| / WORD
  {
  }

  lemma ParseOfFrame(m: Message, pad: seq<byte>, rest: seq<byte>, limit: Option<nat>)
    requires |pad| == PadLen(|m|)
    requires Deliverable(m, limit)
    ensures Parse(FrameWith(m, pad) + rest, limit) == Frame(m, rest)
  {
    hide TableWith, Flatten, Lengths, TotalWords, Parse;
    var table, body := TableWith(m, pad), Flatten(m);
    TableReadsBack(m, pad, body + rest);
    Assoc(table, body, rest);
    TableLenIs(|m|);
    FlattenLength(m);
    Parts(table, body, rest);
    ParseOfParts(table + body + rest, m, limit);
  }

  lemma ParseOfParts(s: seq<byte>, m: Message, limit: Option<nat>)
    requires Deliverable(m, limit)
    requires |s| >= TableLen(|m|) + |Flatten(m)| && |s| >= 4 * (|m| + 1)
    requires SegmentCount(s) == |m| && ReadLengths(s, |m|) == Lengths(m)
    requires s[TableLen(|m|)..TableLen(|m|) + |Flatten(m)|] == Flatten(m)
    ensures Parse(s, limit) == Frame(m, s[TableLen(|m|) + |Flatten(m)|..])
  {
    hide *;
    DeliverableMeans(m, limit);
    TableLenIs(|m|);
    BodyOfParts(s, TableLen(|m|), m, limit);
    ParseUnfolds(s, |m|, limit);
  }

  lemma DeliverableMeans(m: Message, limit: Option<nat>)
    requires Deliverable(m, limit)
    ensures !BadCount(|m|) && !Exceeds(TotalWords(Lengths(m)), limit)
  {
  }

  lemma ParseUnfolds(s: seq<byte>, count: nat, limit: Option<nat>)
    requires |s| >= WORD && |s| >= TableLen(count) && |s| >= 4 * (count + 1)
    requires SegmentCount(s) == count && !BadCount(count)
    ensures Parse(s, limit) == ParseBody(s, TableLen(count), ReadLengths(s, count), limit)
  {
    hide ParseBody, ReadLengths, TableLen, SegmentCount;
  }

  lemma BodyOfParts(s: seq<byte>, at: nat, m: Message, limit: Option<nat>)
    requires !Exceeds(TotalWords(Lengths(m)), limit)
    requires |s| >= at + |Flatten(m)| && s[at..at + |Flatten(m)|] == Flatten(m)
    ensures ParseBody(s, at, Lengths(m), limit) == Frame(m, s[at + |Flatten(m)|..])
  {
    SplitOfFlatten(m);
    hide SplitBody, Flatten, Lengths;
  }

  lemma WordReadsBack(s: seq<byte>, i: nat)
    requires 4 * i + 4 <= |s|
    ensures WordAt(s, i) < U32
    ensures LE(4, WordAt(s, i)) == s[4 * i..4 * i + 4]
  {
    Pow256Values();
    FromLEBound(s[4 * i..4 * i + 4]);
    LEOfFromLE(s[4 * i..4 * i + 4]);
  }

  /** Lengths read from a table write back to the table's bytes. */
  lemma LengthsReadBack(s: seq<byte>, count: nat)
    requires |s| >= 4 * (count + 1)
    ensures s[4..4 * (count + 1)] == EncodeLengths(ReadLengths(s, count))
    ensures forall i :: 0 <= i < count ==> ReadLengths(s, count)[i] < U32
  {
    hide LE, FromLE, EncodeLengths, WordAt;
    var ls, words := ReadLengths(s, count), s[4..4 * (count + 1)];
    forall i | 0 <= i < count ensures words[4 * i..4 * i + 4] == LE(4, ls[i]) && ls[i] < U32 {
      SliceOfSlice(s, 4, 4 * (count + 1), 4 * i, 4 * i + 4);
      WordReadsBack(s, i + 1);
    }
    EncodeLengthsUnique(words, ls);
  }

  /** A table that parses is the table of every message with its lengths. */
  lemma TableOfParse(s: seq<byte>, m: Message)
    requires |s| >= WORD
    requires SegmentCount(s) == |m|
    requires |s| >= TableLen(|m|) && |s| >= 4 * (|m| + 1)
    requires ReadLengths(s, |m|) == Lengths(m)
    ensures s[..TableLen(|m|)] == TableWith(m, s[4 * (|m| + 1)..TableLen(|m|)])
    ensures TableLen(|m|) - 4 * (|m| + 1) == PadLen(|m|)
  {
    TableLenIs(|m|);
    WordReadsBack(s, 0);
    assert s[4 * 0..4 * 0 + 4] == s[..4];
    assert WordAt(s, 0) == |m| - 1;
    LengthsReadBack(s, |m|);
    CutInThree(s, 4, 4 * (|m| + 1), TableLen(|m|));
  }

  lemma FrameOfParse(s: seq<byte>, limit: Option<nat>)
    requires Parse(s, limit).Frame?
    ensures Deliverable(Parse(s, limit).message, limit)
    ensures StartsWithFrame(s, Parse(s, limit).message, Parse(s, limit).rest)
  {
    var m, rest := Parse(s, limit).message, Parse(s, limit).rest;
    var count := SegmentCount(s);
    var at, ls := TableLen(count), ReadLengths(s, count);
    TableLenIs(count);
    BodyOfParse(s, at, ls, limit);
    LengthsReadBack(s, count);
    TableOfParse(s, m);
    var pad := s[4 * (count + 1)..at];
    assert |pad| == PadLen(|m|) && s == FrameWith(m, pad) + rest;
  }

  lemma BodyOfParse(s: seq<byte>, at: nat, ls: seq<nat>, limit: Option<nat>)
    requires |ls| > 0 && ParseBody(s, at, ls, limit).Frame?
    ensures at <= |s| && Lengths(ParseBody(s, at, ls, limit).message) == ls
    ensures s == s[..at] + Flatten(ParseBody(s, at, ls, limit).message) + ParseBody(s, at, ls, limit).rest
  {
    var n := WORD * TotalWords(ls);
    FlattenOfSplit(s[at..at + n], ls);
    CutInThree(s, at, at + n, |s|);
  }

  /** A stream starts with a message exactly when it starts with some encoding of that message, and the message is
      one the limits let through. Padding is the only freedom an encoding has. */
  lemma ParsesExactlyFrames(s: seq<byte>, m: Message, rest: seq<byte>, limit: Option<nat>)
    ensures Parse(s, limit) == Frame(m, rest) <==> Deliverable(m, limit) && StartsWithFrame(s, m, rest)
  {
    if Parse(s, limit) == Frame(m, rest) {
      FrameOfParse(s, limit);
    }
    if Deliverable(m, limit) && StartsWithFrame(s, m, rest) {
      var pad: seq<byte> :| |pad| == PadLen(|m|) && s == FrameWith(m, pad) + rest;
      ParseOfFrame(m, pad, rest, limit);
    }
  }

  lemma ParseOfSerialize(m: Message, rest: seq<byte>, limit: Option<nat>)
    requires Deliverable(m, limit)
    ensures Parse(Serialize(m) + rest, limit) == Frame(m, rest)
  {
    ParseOfFrame(m, Zeros(PadLen(|m|)), rest, limit);
  }

  /** A verdict other than "more bytes needed" is final: bytes that arrive later do not change it. */
  lemma ParseExtends(s: seq<byte>, t: seq<byte>, limit: Option<nat>)
    requires !Parse(s, limit).End? && !Parse(s, limit).Premature?
    ensures Parse(s + t, limit) ==
            match Parse(s, limit)
            case Frame(m, rest) => Frame(m, rest + t)
            case other => other
  {
    assert (s + t)[4 * 0..4 * 0 + 4] == s[4 * 0..4 * 0 + 4];
    var count := SegmentCount(s);
    if !BadCount(count) {
      TableLenIs(count);
      LengthsExtend(s, t, count);
      BodyExtends(s, t, TableLen(count), ReadLengths(s, count), limit);
    }
  }

  lemma LengthsExtend(s: seq<byte>, t: seq<byte>, count: nat)
    requires |s| >= 4 * (count + 1)
    ensures ReadLengths(s + t, count) == ReadLengths(s, count)
  {
    forall i | 0 <= i < count ensures ReadLengths(s + t, count)[i] == ReadLengths(s, count)[i] {
      assert (s + t)[4 * (i + 1)..4 * (i + 1) + 4] == s[4 * (i + 1)..4 * (i + 1) + 4];
    }
  }

  lemma BodyExtends(s: seq<byte>, t: seq<byte>, at: nat, ls: seq<nat>, limit: Option<nat>)
    requires |ls| > 0 && !ParseBody(s, at, ls, limit).Premature?
    ensures ParseBody(s + t, at, ls, limit) ==
            match ParseBody(s, at, ls, limit)
            case Frame(m, rest) => Frame(m, rest + t)
            case other => other
  {
    if !Exceeds(TotalWords(ls), limit) {
      var n := WORD * TotalWords(ls);
      assert (s + t)[at..at + n] == s[at..at + n];
      assert (s + t)[at + n..] == s[at + n..] + t;
    }
  }

  /** On a 64-bit machine no table can make the length arithmetic overflow. */
  lemma {:induction false} TotalWordsBound(ls: seq<nat>)
    requires forall i :: 0 <= i < |ls| ==> ls[i] < U32
    ensures TotalWords(ls) <= |ls| * U32
  {
    if ls != [] {
      forall i | 0 <= i < |ls[1..]| ensures ls[1..][i] < U32 { assert ls[1..][i] == ls[i + 1]; }
      TotalWordsBound(ls[1..]);
    }
  }

  lemma BodyLengthFits(s: seq<byte>, count: nat)
    requires !BadCount(count) && |s| >= TableLen(count)
    ensures |s| >= 4 * (count + 1)
    ensures WORD * TotalWords(ReadLengths(s, count)) < 0x1_0000_0000_0000_0000
  {
    TableLenIs(count);
    var ls := ReadLengths(s, count);
    Pow256Values();
    forall i | 0 <= i < count ensures ls[i] < U32 {
      FromLEBound(s[4 * (i + 1)..4 * (i + 1) + 4]);
    }
    TotalWordsBound(ls);
  }

  // ---- the layout, byte by byte -----------------------------------------------------------------------------------

  /** The value of four bytes, least significant first. */
  ghost function Value(a: byte, b: byte, c: byte, d: byte): nat {
    a + 0x100 * b + 0x1_0000 * c + 0x100_0000 * d
  }

  lemma WordValue(s: seq<byte>, i: nat)
    requires 4 * i + 4 <= |s|
    ensures WordAt(s, i) == Value(s[4 * i], s[4 * i + 1], s[4 * i + 2], s[4 * i + 3])
  {
    var w := s[4 * i..4 * i + 4];
    assert FromLE(w) == w[0] + 256 * FromLE(w[1..]);
    assert FromLE(w[1..]) == w[1] + 256 * FromLE(w[1..][1..]) && w[1..][1..] == w[2..];
    assert FromLE(w[2..]) == w[2] + 256 * FromLE(w[2..][1..]) && w[2..][1..] == w[3..] == [w[3]];
    assert FromLE([w[3]]) == w[3] + 256 * FromLE([w[3]][1..]);
  }

  /** A serialized message as the Cap'n Proto encoding specification describes it, section "Serialization Over a
      Stream": the number of segments less one, the length of each segment in words, zero padding up to a word
      boundary, and the segments. */
  lemma SerializedLayout(m: Message)
    requires |m| <= U32 && forall i :: 0 <= i < |m| ==> |m[i]| / WORD < U32
    ensures var s, at := Serialize(m), 4 * (|m| + 1) + PadLen(|m|);
            && at <= |s| && at % WORD == 0 && |s| % WORD == 0
            && Value(s[0], s[1], s[2], s[3]) == |m| - 1
            && (forall i :: 0 <= i < |m| ==> WordAt(s, i + 1) == |m[i]| / WORD)
            && (forall k :: 4 * (|m| + 1) <= k < at ==> s[k] == 0)
            && s[at..] == Flatten(m)
  {
    hide Serialize, Value, WordAt;
    SerializedTable(m);
    SerializedBody(m);
    WordValue(Serialize(m), 0);
  }

  lemma SerializedTable(m: Message)
    requires |m| <= U32 && forall i :: 0 <= i < |m| ==> |m[i]| / WORD < U32
    ensures |Serialize(m)| >= 4 * (|m| + 1) && WordAt(Serialize(m), 0) == |m| - 1
    ensures forall i :: 0 <= i < |m| ==> WordAt(Serialize(m), i + 1) == |m[i]| / WORD
  {
    var s := Serialize(m);
    TableReadsBack(m, Zeros(PadLen(|m|)), Flatten(m));
    hide Flatten, EncodeLengths, Lengths, LE, FromLE;
    WordReadsBack(s, 0);
    Unwrapped(WordAt(s, 0), |m|);
    forall i | 0 <= i < |m| ensures WordAt(s, i + 1) == |m[i]| / WORD {
      LengthsAt(m, i);
      assert ReadLengths(s, |m|)[i] == WordAt(s, i + 1);
    }
  }

  lemma ZeroPart(head: seq<byte>, n: nat, tail: seq<byte>)
    ensures forall k :: |head| <= k < |head| + n ==> (head + Zeros(n) + tail)[k] == 0
  {
  }

  lemma Unwrapped(w: nat, n: nat)
    requires w < U32 && 0 < n <= U32 && (w + 1) % U32 == n % U32
    ensures w == n - 1
  {
  }

  lemma TableAligned(count: nat)
    ensures (4 * (count + 1) + PadLen(count)) % WORD == 0
  {
  }

  lemma SerializedBody(m: Message)
    ensures var s, at := Serialize(m), 4 * (|m| + 1) + PadLen(|m|);
            && at <= |s| && at % WORD == 0 && |s| % WORD == 0
            && (forall k :: 4 * (|m| + 1) <= k < at ==> s[k] == 0)
            && s[at..] == Flatten(m)
  {
    hide *;
    var n := PadLen(|m|);
    var head := SerializeParts(m);
    FlattenLength(m);
    TableAligned(|m|);
    AlignedSum(4 * (|m| + 1) + n, TotalWords(Lengths(m)));
    Parts(head, Zeros(n), Flatten(m));
    ZeroPart(head, n, Flatten(m));
  }

  lemma SerializeParts(m: Message) returns (head: seq<byte>)
    ensures |head| == 4 * (|m| + 1) && Serialize(m) == head + Zeros(PadLen(|m|)) + Flatten(m)
  {
    head := LE(4, |m| - 1) + EncodeLengths(Lengths(m));
  }

  lemma AlignedSum(a: nat, words: nat)
    requires a % WORD == 0
    ensures (a + WORD * words) % WORD == 0
  {
  }

  // ---- whole streams --------------------------------------------------------------------------------------------

  lemma {:induction false} SerializeAllAppend(a: seq<Message>, b: seq<Message>)
    ensures SerializeAll(a + b) == SerializeAll(a) + SerializeAll(b)
  {
    hide Serialize;
    if a == [] {
      assert a + b == b;
    } else {
      SerializeAllAppend(a[1..], b);
      assert (a + b)[1..] == a[1..] + b && (a + b)[0] == a[0];
      Assoc(Serialize(a[0]), SerializeAll(a[1..]), SerializeAll(b));
    }
  }

  lemma SerializeAllSnoc(a: seq<Message>, m: Message)
    ensures SerializeAll(a + [m]) == SerializeAll(a) + Serialize(m)
  {
    SerializeAllAppend(a, [m]);
    assert SerializeAll([m]) == Serialize(m);
  }

  /** Later messages only add bytes at the end. */
  lemma SerializeAllPrefix(ms: seq<Message>, k: nat)
    requires k <= |ms|
    ensures SerializeAll(ms[..k]) <= SerializeAll(ms)
  {
    hide SerializeAll;
    SerializeAllAppend(ms[..k], ms[k..]);
    assert ms[..k] + ms[k..] == ms;
  }

  lemma DecodeFirst(m: Message, rest: seq<byte>, limit: Option<nat>)
    requires Deliverable(m, limit)
    ensures Decode(Serialize(m) + rest, limit)
         == Decoded([m] + Decode(rest, limit).messages, Decode(rest, limit).ending)
  {
    hide Serialize, Parse;
    ParseOfSerialize(m, rest, limit);
  }

  lemma {:induction false} DecodeOfSerialize(ms: seq<Message>, limit: Option<nat>)
    requires AllDeliverable(ms, limit)
    ensures Decode(SerializeAll(ms), limit) == Decoded(ms, Clean)
  {
    hide Serialize, Decode, Deliverable;
    if ms == [] {
      CutNothing(limit);
    } else {
      DecodeFirst(ms[0], SerializeAll(ms[1..]), limit);
      DecodeOfSerialize(ms[1..], limit);
    }
  }

  lemma {:induction false} DecodeNeedsDeliverable(ms: seq<Message>, limit: Option<nat>)
    requires Decode(SerializeAll(ms), limit) == Decoded(ms, Clean)
    ensures AllDeliverable(ms, limit)
  {
    if ms != [] {
      var s := SerializeAll(ms);
      var p := Parse(s, limit);
      FrameOfParse(s, limit);
      assert p.message == ms[0];
      var pad: seq<byte> :| |pad| == PadLen(|ms[0]|) && s == FrameWith(ms[0], pad) + p.rest;
      assert |FrameWith(ms[0], pad)| == |Serialize(ms[0])|;
      assert p.rest == s[|Serialize(ms[0])|..] == SerializeAll(ms[1..]);
      assert ms == [ms[0]] + ms[1..];
      DecodeNeedsDeliverable(ms[1..], limit);
    }
  }

  /** A stream of messages arrives whole exactly when each of them is within the receiver's limits. */
  lemma RoundTripIff(ms: seq<Message>, limit: Option<nat>)
    ensures Decode(SerializeAll(ms), limit) == Decoded(ms, Clean) <==> AllDeliverable(ms, limit)
  {
    if AllDeliverable(ms, limit) { DecodeOfSerialize(ms, limit); }
    if Decode(SerializeAll(ms), limit) == Decoded(ms, Clean) { DecodeNeedsDeliverable(ms, limit); }
  }

  /** How many of `ms` are complete in the first `cut` bytes of their serialization. */
  ghost function Complete(ms: seq<Message>, cut: nat): (k: nat)
    ensures k <= |ms|
  {
    if ms == [] || cut < |Serialize(ms[0])| then 0
    else 1 + Complete(ms[1..], cut - |Serialize(ms[0])|)
  }

  ghost predicate OnBoundary(ms: seq<Message>, cut: nat) {
    cut == |SerializeAll(ms[..Complete(ms, cut)])|
  }

  /** `Complete` is the largest number of messages that fit in `cut` bytes. */
  lemma {:induction false} CompleteIsLargest(ms: seq<Message>, cut: nat, k: nat)
    requires k <= |ms|
    ensures k <= Complete(ms, cut) <==> |SerializeAll(ms[..k])| <= cut
  {
    hide Serialize;
    if k > 0 {
      var n := |Serialize(ms[0])|;
      assert ms[..k][1..] == ms[1..][..k - 1];
      if cut >= n {
        CompleteIsLargest(ms[1..], cut - n, k - 1);
      }
    }
  }

  lemma CompleteStep(ms: seq<Message>, cut: nat)
    requires ms != [] && cut >= |Serialize(ms[0])|
    ensures ms[..Complete(ms, cut)] == [ms[0]] + ms[1..][..Complete(ms[1..], cut - |Serialize(ms[0])|)]
    ensures OnBoundary(ms, cut) <==> OnBoundary(ms[1..], cut - |Serialize(ms[0])|)
  {
    var k := Complete(ms, cut);
    assert ms[..k][1..] == ms[1..][..k - 1];
  }

  /** A proper prefix of one message is an end of file in the middle, or nothing at all. */
  lemma CutInsideOne(m: Message, p: seq<byte>, limit: Option<nat>)
    requires Deliverable(m, limit)
    requires p <= Serialize(m) && p != Serialize(m)
    ensures Parse(p, limit) == if p == [] then End else Premature
  {
    if p != [] {
      var t := Serialize(m)[|p|..];
      assert Serialize(m) + [] == Serialize(m) == p + t;
      ParseOfSerialize(m, [], limit);
      assert t != [];
      if Parse(p, limit) != Premature {
        ParseExtends(p, t, limit);
        assert false;
      }
    }
  }

  lemma CutFirst(ms: seq<Message>, cut: nat, limit: Option<nat>)
    requires ms != [] && AllDeliverable(ms, limit) && cut < |Serialize(ms[0])|
    ensures cut <= |SerializeAll(ms)|
    ensures Decode(SerializeAll(ms)[..cut], limit) == Decoded([], if cut == 0 then Clean else Cut)
  {
    CutInsideOne(ms[0], SerializeAll(ms)[..cut], limit);
  }

  lemma CutAfterFirst(first: seq<byte>, rest: seq<byte>, cut: nat)
    requires |first| <= cut <= |first| + |rest|
    ensures (first + rest)[..cut] == first + rest[..cut - |first|]
  {
  }

  /** A stream that stops after any number of bytes yields exactly the messages that are complete in it. It ends
      cleanly on a message boundary and as cut short anywhere else. */
  lemma {:induction false} CutStream(ms: seq<Message>, cut: nat, limit: Option<nat>)
    requires AllDeliverable(ms, limit)
    requires cut <= |SerializeAll(ms)|
    ensures Decode(SerializeAll(ms)[..cut], limit)
         == Decoded(ms[..Complete(ms, cut)], if OnBoundary(ms, cut) then Clean else Cut)
  {
    hide Serialize, Parse;
    if ms == [] {
      CutNothing(limit);
    } else if cut < |Serialize(ms[0])| {
      CutFirst(ms, cut, limit);
    } else {
      var first, others := Serialize(ms[0]), SerializeAll(ms[1..]);
      CutAfterFirst(first, others, cut);
      CutStream(ms[1..], cut - |first|, limit);
      CompleteStep(ms, cut);
      hide Decode, Complete, OnBoundary;
      DecodeFirst(ms[0], others[..cut - |first|], limit);
    }
  }

  lemma CutNothing(limit: Option<nat>)
    ensures Decode([], limit) == Decoded([], Clean)
  {
  }

  lemma PrefixArrives(ms: seq<Message>, wire: seq<byte>, limit: Option<nat>)
    requires AllDeliverable(ms, limit) && wire <= SerializeAll(ms)
    ensures Decode(wire, limit) == Decoded(ms[..Complete(ms, |wire|)], if OnBoundary(ms, |wire|) then Clean else Cut)
  {
    hide Decode, SerializeAll, AllDeliverable;
    CutStream(ms, |wire|, limit);
    assert wire == SerializeAll(ms)[..|wire|];
  }
}
