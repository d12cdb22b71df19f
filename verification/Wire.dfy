/** The framing format of a Cap'n Proto message stream, stated without buffers: what a message looks like on the
    wire and what a whole byte stream decodes to. Everything incremental in this project is proved against it. */
module Wire {
  import opened Bytes

  const WORD: nat := 8
  const SEGMENTS_COUNT_LIMIT: nat := 512
  const U32: nat := 0x1_0000_0000

  predicate Aligned(m: seq<seq<byte>>) {
    forall i :: 0 <= i < |m| ==> |m[i]| % WORD == 0
  }

  /** The segments of one message: at least one, each a whole number of words. */
  type Message = m: seq<seq<byte>> | |m| > 0 && Aligned(m) witness [[]]

  // ---- writing --------------------------------------------------------------------------------------------------

  function Lengths(m: seq<seq<byte>>): (ls: seq<nat>)
    ensures |ls| == |m|
  {
    seq(|m|, i requires 0 <= i < |m| => |m[i]| / WORD)
  }

  function TotalWords(ls: seq<nat>): nat {
    if ls == [] then 0 else ls[0] + TotalWords(ls[1..])
  }

  function EncodeLengths(ls: seq<nat>): (s: seq<byte>)
    ensures |s| == 4 * |ls|
  {
    if ls == [] then [] else LE(4, ls[0]) + EncodeLengths(ls[1..])
  }

  function PadLen(count: nat): nat {
    if count % 2 == 0 then 4 else 0
  }

  function NextMultiple(x: nat, unit: nat): nat
    requires unit > 0
  {
    if x % unit == 0 then x else x + (unit - x % unit)
  }

  function TableLen(count: nat): nat {
    NextMultiple(4 * (count + 1), WORD)
  }

  lemma TableLenIs(count: nat)
    ensures TableLen(count) == 4 * (count + 1) + PadLen(count)
    ensures count > 0 ==> WORD <= TableLen(count)
  {
    var half := count / 2;
    if count % 2 == 0 {
      assert 4 * (count + 1) == 8 * half + 4;
    } else {
      assert 4 * (count + 1) == 8 * (half + 1);
    }
  }

  function Zeros(n: nat): (s: seq<byte>)
    ensures |s| == n
  {
    seq(n, _ => 0)
  }

  /** A segment table whose padding, if it has any, is `pad`. */
  function TableWith(m: Message, pad: seq<byte>): (s: seq<byte>)
    ensures |s| == 4 * (|m| + 1) + |pad|
  {
    LE(4, |m| - 1) + EncodeLengths(Lengths(m)) + pad
  }

  function Table(m: Message): (s: seq<byte>)
    ensures |s| == TableLen(|m|)
  {
    TableWith(m, Zeros(PadLen(|m|)))
  }

  function Serialize(m: Message): seq<byte> {
    Table(m) + Flatten(m)
  }

  function SerializeAll(ms: seq<Message>): seq<byte> {
    if ms == [] then [] else Serialize(ms[0]) + SerializeAll(ms[1..])
  }

  // ---- reading --------------------------------------------------------------------------------------------------

  datatype Parsed =
    | End
    | Premature
    | InvalidSegments(count: nat)
    | TooLarge(words: nat)
    | Frame(message: Message, rest: seq<byte>)

  function WordAt(s: seq<byte>, index: nat): nat
    requires 4 * index + 4 <= |s|
  {
    FromLE(s[4 * index..4 * index + 4])
  }

  function SegmentCount(s: seq<byte>): nat
    requires |s| >= 4
  {
    (WordAt(s, 0) + 1) % U32
  }

  predicate BadCount(count: nat) {
    count == 0 || count >= SEGMENTS_COUNT_LIMIT
  }

  predicate Exceeds(words: nat, limit: Option<nat>) {
    limit.Some? && words > limit.value
  }

  function ReadLengths(s: seq<byte>, count: nat): (ls: seq<nat>)
    requires |s| >= 4 * (count + 1)
    ensures |ls| == count
  {
    seq(count, i requires 0 <= i < count => WordAt(s, i + 1))
  }

  /** Cuts a message body into segments of the given lengths. */
  function SplitBody(body: seq<byte>, ls: seq<nat>): (m: seq<seq<byte>>)
    requires |body| == WORD * TotalWords(ls)
    ensures |m| == |ls|
    ensures forall i :: 0 <= i < |m| ==> |m[i]| == WORD * ls[i]
  {
    if ls == [] then []
    else [body[..WORD * ls[0]]] + SplitBody(body[WORD * ls[0]..], ls[1..])
  }

  /** What follows a table that ended at `at` and announced segments of the given lengths. */
  function ParseBody(s: seq<byte>, at: nat, ls: seq<nat>, limit: Option<nat>): Parsed
    requires |ls| > 0
  {
    var words := TotalWords(ls);
    if Exceeds(words, limit) then TooLarge(words)
    else if |s| < at + WORD * words then Premature
    else Frame(SplitBody(s[at..at + WORD * words], ls), s[at + WORD * words..])
  }

  /** What a stream starts with: the checks in the order the format makes them. */
  function Parse(s: seq<byte>, limit: Option<nat>): Parsed {
    if s == [] then End
    else if |s| < WORD then Premature
    else
      var count := SegmentCount(s);
      if BadCount(count) then InvalidSegments(count)
      else if |s| < TableLen(count) then Premature
      else ParseBody(s, TableLen(count), ReadLengths(s, count), limit)
  }

  datatype Ending = Clean | Cut | BadTable(count: nat) | OverLimit(words: nat)

  datatype Decoded = Decoded(messages: seq<Message>, ending: Ending)

  /** Everything a stream decodes to: its messages, then how it ends. */
  function Decode(s: seq<byte>, limit: Option<nat>): Decoded
    decreases |s|
  {
    match Parse(s, limit)
    case End => Decoded([], Clean)
    case Premature => Decoded([], Cut)
    case InvalidSegments(count) => Decoded([], BadTable(count))
    case TooLarge(words) => Decoded([], OverLimit(words))
    case Frame(m, rest) =>
      var tail := Decode(rest, limit);
      Decoded([m] + tail.messages, tail.ending)
  }

  // ---- segment tables -------------------------------------------------------------------------------------------

  lemma {:induction false} EncodeLengthsAt(ls: seq<nat>, i: nat)
    requires i < |ls|
    ensures EncodeLengths(ls)[4 * i..4 * i + 4] == LE(4, ls[i])
  {
    if i > 0 {
      EncodeLengthsAt(ls[1..], i - 1);
      assert EncodeLengths(ls)[4 * i..4 * i + 4] == EncodeLengths(ls[1..])[4 * (i - 1)..4 * (i - 1) + 4];
    }
  }

  lemma {:induction false} EncodeLengthsUnique(s: seq<byte>, ls: seq<nat>)
    requires |s| == 4 * |ls|
    requires forall i :: 0 <= i < |ls| ==> s[4 * i..4 * i + 4] == LE(4, ls[i])
    ensures s == EncodeLengths(ls)
  {
    if ls != [] {
      var t := s[4..];
      forall i | 0 <= i < |ls| - 1 ensures t[4 * i..4 * i + 4] == LE(4, ls[1..][i]) {
        assert t[4 * i..4 * i + 4] == s[4 * (i + 1)..4 * (i + 1) + 4];
      }
      EncodeLengthsUnique(t, ls[1..]);
      assert s[4 * 0..4 * 0 + 4] == LE(4, ls[0]);
      assert s == s[..4] + t;
    }
  }

  lemma {:induction false} TotalWordsSnoc(ls: seq<nat>, l: nat)
    ensures TotalWords(ls + [l]) == TotalWords(ls) + l
  {
    if ls != [] {
      TotalWordsSnoc(ls[1..], l);
      assert (ls + [l])[1..] == ls[1..] + [l];
    }
  }

  lemma {:induction false} FlattenLength(m: seq<seq<byte>>)
    requires Aligned(m)
    ensures |Flatten(m)| == WORD * TotalWords(Lengths(m))
  {
    if m != [] {
      FlattenLength(m[1..]);
      assert Lengths(m)[1..] == Lengths(m[1..]);
      assert |m[0]| == WORD * Lengths(m)[0];
    }
  }

  // ---- bodies ---------------------------------------------------------------------------------------------------

  lemma {:induction false} SplitOfFlatten(m: seq<seq<byte>>)
    requires Aligned(m)
    ensures |Flatten(m)| == WORD * TotalWords(Lengths(m))
    ensures SplitBody(Flatten(m), Lengths(m)) == m
  {
    FlattenLength(m);
    if m != [] {
      FlattenLength(m[1..]);
      SplitOfFlatten(m[1..]);
      SplitFirst(m[0], Flatten(m[1..]), Lengths(m));
      assert Lengths(m)[1..] == Lengths(m[1..]);
      assert m == [m[0]] + m[1..];
    }
  }

  lemma SplitFirst(first: seq<byte>, rest: seq<byte>, ls: seq<nat>)
    requires ls != [] && |first| == WORD * ls[0] && |rest| == WORD * TotalWords(ls[1..])
    ensures |first + rest| == WORD * TotalWords(ls)
    ensures SplitBody(first + rest, ls) == [first] + SplitBody(rest, ls[1..])
  {
    assert (first + rest)[..WORD * ls[0]] == first;
    assert (first + rest)[WORD * ls[0]..] == rest;
  }

  lemma {:induction false} FlattenOfSplit(body: seq<byte>, ls: seq<nat>)
    requires |body| == WORD * TotalWords(ls)
    ensures Flatten(SplitBody(body, ls)) == body
  {
    if ls != [] {
      FlattenOfSplit(body[WORD * ls[0]..], ls[1..]);
    }
  }
}
