/** The outgoing batch of `src/rpc/frame.rs`: small segments are gathered into inline buffers, large ones are sent by
    reference, and spent buffers go back to a bounded pool. */
module Outbound {
  import opened Bytes
  import opened Wire
  import opened Framing

  const SPARE_BUDGET: nat := 2 * 1024 * 1024

  /** An owned byte vector: its contents and how much it can hold without growing. */
  datatype Buffer = Buffer(bytes: seq<byte>, capacity: nat)

  datatype Chunk = Inline(buffer: Buffer) | Segment(message: Message, index: nat)

  ghost predicate WellFormed(c: Chunk) {
    match c
    case Inline(b) => |b.bytes| <= b.capacity
    case Segment(m, i) => i < |m|
  }

  ghost predicate AllWellFormed(chunks: seq<Chunk>) {
    forall i :: 0 <= i < |chunks| ==> WellFormed(chunks[i])
  }

  /** A chunk as the wire sees it, and whether it was copied. */
  datatype Piece = Piece(copied: bool, bytes: seq<byte>)

  function PieceOf(c: Chunk): Piece {
    match c
    case Inline(b) => Piece(true, b.bytes)
    case Segment(m, i) => Piece(false, if i < |m| then m[i] else [])
  }

  function Pieces(chunks: seq<Chunk>): (ps: seq<Piece>)
    ensures |ps| == |chunks|
  {
    seq(|chunks|, i requires 0 <= i < |chunks| => PieceOf(chunks[i]))
  }

  function PieceBytes(ps: seq<Piece>): seq<byte> {
    if ps == [] then [] else PieceBytes(ps[..|ps| - 1]) + ps[|ps| - 1].bytes
  }

  // ---- how messages are laid out in pieces ----------------------------------------------------------------------

  predicate EndsCopied(ps: seq<Piece>) {
    ps != [] && ps[|ps| - 1].copied
  }

  /** The last copied piece, opened anew if the layout does not end with one. */
  function OpenTail(ps: seq<Piece>): seq<Piece> {
    if EndsCopied(ps) then ps else ps + [Piece(true, [])]
  }

  function AddCopied(ps: seq<Piece>, bs: seq<byte>): seq<Piece> {
    var open := OpenTail(ps);
    var last := |open| - 1;
    open[..last] + [Piece(true, open[last].bytes + bs)]
  }

  function AddSegment(ps: seq<Piece>, s: seq<byte>, inlineLimit: nat): seq<Piece> {
    if s == [] then ps
    else if |s| <= inlineLimit then AddCopied(ps, s)
    else ps + [Piece(false, s)]
  }

  function AddSegments(ps: seq<Piece>, m: seq<seq<byte>>, inlineLimit: nat): seq<Piece> {
    if m == [] then ps
    else AddSegment(AddSegments(ps, m[..|m| - 1], inlineLimit), m[|m| - 1], inlineLimit)
  }

  function AddMessage(ps: seq<Piece>, m: Message, inlineLimit: nat): seq<Piece> {
    AddSegments(AddCopied(ps, Table(m)), m, inlineLimit)
  }

  function Layout(ms: seq<Message>, inlineLimit: nat): seq<Piece> {
    if ms == [] then []
    else AddMessage(Layout(ms[..|ms| - 1], inlineLimit), ms[|ms| - 1], inlineLimit)
  }

  /** What the tests ask of every batch: nothing empty, only large segments by reference, and copied pieces merged. */
  ghost predicate Tidy(ps: seq<Piece>, inlineLimit: nat) {
    && (forall i :: 0 <= i < |ps| ==> ps[i].bytes != [] && (!ps[i].copied ==> |ps[i].bytes| > inlineLimit))
    && (forall i :: 0 < i < |ps| ==> !(ps[i - 1].copied && ps[i].copied))
  }

  lemma AddCopiedBytes(ps: seq<Piece>, bs: seq<byte>)
    ensures PieceBytes(AddCopied(ps, bs)) == PieceBytes(ps) + bs
    ensures |AddCopied(ps, bs)| <= |ps| + 1
  {
    var open := OpenTail(ps);
    var last := |open| - 1;
    assert PieceBytes(open) == PieceBytes(ps) by {
      if !EndsCopied(ps) { assert open[..last] == ps; }
    }
    assert AddCopied(ps, bs)[..last] == open[..last];
    Assoc(PieceBytes(open[..last]), open[last].bytes, bs);
  }

  lemma AddCopiedTwice(ps: seq<Piece>, a: seq<byte>, b: seq<byte>)
    ensures AddCopied(AddCopied(ps, a), b) == AddCopied(ps, a + b)
  {
    var open := OpenTail(ps);
    Assoc(open[|open| - 1].bytes, a, b);
  }

  lemma AddSegmentBytes(ps: seq<Piece>, s: seq<byte>, inlineLimit: nat)
    ensures PieceBytes(AddSegment(ps, s, inlineLimit)) == PieceBytes(ps) + s
    ensures |AddSegment(ps, s, inlineLimit)| <= |ps| + 1
  {
    if s != [] {
      if |s| <= inlineLimit {
        AddCopiedBytes(ps, s);
      } else {
        assert (ps + [Piece(false, s)])[..|ps|] == ps;
      }
    }
  }

  lemma {:induction false} AddSegmentsBytes(ps: seq<Piece>, m: seq<seq<byte>>, inlineLimit: nat)
    ensures PieceBytes(AddSegments(ps, m, inlineLimit)) == PieceBytes(ps) + Flatten(m)
    ensures |AddSegments(ps, m, inlineLimit)| <= |ps| + |m|
  {
    hide AddSegment, PieceBytes;
    if m != [] {
      var init, last := m[..|m| - 1], m[|m| - 1];
      AddSegmentsBytes(ps, init, inlineLimit);
      AddSegmentBytes(AddSegments(ps, init, inlineLimit), last, inlineLimit);
      FlattenSnoc(init, last);
      assert m == init + [last];
      Assoc(PieceBytes(ps), Flatten(init), last);
    }
  }

  /** One more message adds its serialization and at most one piece more than it has segments. */
  lemma AddMessageBytes(ps: seq<Piece>, m: Message, inlineLimit: nat)
    ensures PieceBytes(AddMessage(ps, m, inlineLimit)) == PieceBytes(ps) + Serialize(m)
    ensures |AddMessage(ps, m, inlineLimit)| <= |ps| + |m| + 1
  {
    hide Table, AddCopied, AddSegments, PieceBytes;
    AddCopiedBytes(ps, Table(m));
    AddSegmentsBytes(AddCopied(ps, Table(m)), m, inlineLimit);
    Assoc(PieceBytes(ps), Table(m), Flatten(m));
  }

  /** The pieces of a batch, put end to end, are the messages' serializations put end to end. */
  lemma {:induction false} LayoutBytes(ms: seq<Message>, inlineLimit: nat)
    ensures PieceBytes(Layout(ms, inlineLimit)) == SerializeAll(ms)
  {
    hide Serialize, AddMessage;
    if ms != [] {
      var init, last := ms[..|ms| - 1], ms[|ms| - 1];
      LayoutBytes(init, inlineLimit);
      AddMessageBytes(Layout(init, inlineLimit), last, inlineLimit);
      SerializeAllSnoc(init, last);
      assert ms == init + [last];
    }
  }

  /** The bytes of the pieces sent by reference, in order. */
  function Referenced(ps: seq<Piece>): seq<seq<byte>> {
    if ps == [] then []
    else Referenced(ps[..|ps| - 1]) + if ps[|ps| - 1].copied then [] else [ps[|ps| - 1].bytes]
  }

  /** The segments above the limit, in order. */
  function Large(m: seq<seq<byte>>, inlineLimit: nat): seq<seq<byte>> {
    if m == [] then []
    else Large(m[..|m| - 1], inlineLimit) + if |m[|m| - 1]| > inlineLimit then [m[|m| - 1]] else []
  }

  function AllLarge(ms: seq<Message>, inlineLimit: nat): seq<seq<byte>> {
    if ms == [] then [] else AllLarge(ms[..|ms| - 1], inlineLimit) + Large(ms[|ms| - 1], inlineLimit)
  }

  lemma AddCopiedReferences(ps: seq<Piece>, bs: seq<byte>)
    ensures Referenced(AddCopied(ps, bs)) == Referenced(ps)
  {
    var open := OpenTail(ps);
    var last := |open| - 1;
    assert AddCopied(ps, bs)[..last] == open[..last];
    assert !EndsCopied(ps) ==> open[..last] == ps;
  }

  lemma {:induction false} AddSegmentsReferences(ps: seq<Piece>, m: seq<seq<byte>>, inlineLimit: nat)
    ensures Referenced(AddSegments(ps, m, inlineLimit)) == Referenced(ps) + Large(m, inlineLimit)
  {
    hide AddCopied;
    if m != [] {
      AddSegmentsReferences(ps, m[..|m| - 1], inlineLimit);
      var before, s := AddSegments(ps, m[..|m| - 1], inlineLimit), m[|m| - 1];
      if |s| > inlineLimit {
        assert (before + [Piece(false, s)])[..|before|] == before;
      } else {
        AddCopiedReferences(before, s);
      }
    }
  }

  /** Exactly the segments above the limit are sent by reference. */
  lemma {:induction false} LayoutReferences(ms: seq<Message>, inlineLimit: nat)
    ensures Referenced(Layout(ms, inlineLimit)) == AllLarge(ms, inlineLimit)
  {
    hide AddCopied, AddSegments, Table, Large;
    if ms != [] {
      var before, m := Layout(ms[..|ms| - 1], inlineLimit), ms[|ms| - 1];
      LayoutReferences(ms[..|ms| - 1], inlineLimit);
      AddCopiedReferences(before, Table(m));
      AddSegmentsReferences(AddCopied(before, Table(m)), m, inlineLimit);
    }
  }

  lemma AddCopiedTidy(ps: seq<Piece>, bs: seq<byte>, inlineLimit: nat)
    requires Tidy(ps, inlineLimit) && bs != []
    ensures Tidy(AddCopied(ps, bs), inlineLimit)
  {
  }

  lemma {:induction false} AddSegmentsTidy(ps: seq<Piece>, m: seq<seq<byte>>, inlineLimit: nat)
    requires Tidy(ps, inlineLimit)
    ensures Tidy(AddSegments(ps, m, inlineLimit), inlineLimit)
  {
    if m != [] {
      AddSegmentsTidy(ps, m[..|m| - 1], inlineLimit);
      var before, s := AddSegments(ps, m[..|m| - 1], inlineLimit), m[|m| - 1];
      if s != [] && |s| <= inlineLimit { AddCopiedTidy(before, s, inlineLimit); }
    }
  }

  lemma {:induction false} LayoutTidy(ms: seq<Message>, inlineLimit: nat)
    ensures Tidy(Layout(ms, inlineLimit), inlineLimit)
    ensures Layout(ms, inlineLimit) == [] <==> ms == []
  {
    hide Table, AddCopied, AddSegments, Tidy;
    if ms == [] {
      NothingTidy(inlineLimit);
    } else {
      var init, m := ms[..|ms| - 1], ms[|ms| - 1];
      LayoutTidy(init, inlineLimit);
      AddCopiedTidy(Layout(init, inlineLimit), Table(m), inlineLimit);
      AddSegmentsTidy(AddCopied(Layout(init, inlineLimit), Table(m)), m, inlineLimit);
      LayoutBytes(ms, inlineLimit);
      SerializeAllSnoc(init, m);
      assert ms == init + [m];
      assert SerializeAll(ms) != [];
    }
  }

  lemma NothingTidy(inlineLimit: nat)
    ensures Tidy([], inlineLimit)
  {
  }

  // ---- the batch ------------------------------------------------------------------------------------------------

  function PooledBytes(pool: seq<Buffer>): nat {
    if pool == [] then 0 else PooledBytes(pool[..|pool| - 1]) + pool[|pool| - 1].capacity
  }

  /** The pool after the buffers of `spent` have been offered to it, in order: each is emptied and kept if the budget
      has room for its capacity. */
  function PoolAfter(pool: seq<Buffer>, spent: seq<Chunk>): seq<Buffer> {
    if spent == [] then pool
    else
      var before, last := PoolAfter(pool, spent[..|spent| - 1]), spent[|spent| - 1];
      if last.Inline? && PooledBytes(before) + last.buffer.capacity <= SPARE_BUDGET
      then before + [Buffer([], last.buffer.capacity)]
      else before
  }

  /** The buffers kept are those of some of the written chunks, in order and emptied; one is turned away only if it does
      not fit beside those that were kept, and the budget of 2 MiB is never exceeded. */
  lemma {:induction false} PoolTakes(pool: seq<Buffer>, spent: seq<Chunk>) returns (kept: seq<nat>)
    requires PooledBytes(pool) <= 0x20_0000
    ensures forall i :: 0 <= i < |kept| ==> kept[i] < |spent| && spent[kept[i]].Inline?
    ensures forall i, j :: 0 <= i < j < |kept| ==> kept[i] < kept[j]
    ensures |PoolAfter(pool, spent)| == |pool| + |kept| && pool <= PoolAfter(pool, spent)
    ensures forall i :: 0 <= i < |kept| ==>
              PoolAfter(pool, spent)[|pool| + i] == Buffer([], spent[kept[i]].buffer.capacity)
    ensures forall k :: 0 <= k < |spent| && spent[k].Inline? && k !in kept ==>
              PooledBytes(PoolAfter(pool, spent)) + spent[k].buffer.capacity > 0x20_0000
    ensures PooledBytes(pool) <= PooledBytes(PoolAfter(pool, spent)) <= 0x20_0000
  {
    hide PooledBytes;
    if spent == [] {
      kept := [];
    } else {
      var init, last := spent[..|spent| - 1], spent[|spent| - 1];
      kept := PoolTakes(pool, init);
      if last.Inline? {
        PooledOneMore(PoolAfter(pool, init), Buffer([], last.buffer.capacity));
        if PooledBytes(PoolAfter(pool, init)) + last.buffer.capacity <= SPARE_BUDGET { kept := kept + [|init|]; }
      }
    }
  }

  /** Appends to a vector, which grows by any amount when it has to and not at all otherwise. */
  method Extend(b: Buffer, bs: seq<byte>) returns (r: Buffer)
    requires |b.bytes| <= b.capacity
    ensures r.bytes == b.bytes + bs
    ensures |r.bytes| <= r.capacity
    ensures |b.bytes| + |bs| <= b.capacity ==> r.capacity == b.capacity
  {
    var capacity := b.capacity;
    if capacity < |b.bytes| + |bs| {
      capacity :| capacity >= |b.bytes| + |bs|;
    }
    r := Buffer(b.bytes + bs, capacity);
  }

  class Batch {
    var chunks: seq<Chunk>
    var spare: seq<Buffer>
    var spareBytes: nat
    var bytes: nat
    const inlineLimit: nat
    /** The messages pushed since the batch was last emptied. */
    ghost var pushed: seq<Message>

    ghost predicate PoolValid()
      reads this
    {
      && spareBytes == PooledBytes(spare) <= SPARE_BUDGET
      && (forall i :: 0 <= i < |spare| ==> spare[i].bytes == [])
    }

    ghost predicate ChunksValid()
      reads this
    {
      AllWellFormed(chunks)
    }

    ghost predicate Valid()
      reads this
    {
      && PoolValid()
      && ChunksValid()
      && Pieces(chunks) == Layout(pushed, inlineLimit)
      && bytes == |SerializeAll(pushed)|
    }

    constructor (inlineLimit: nat)
      ensures Valid() && pushed == [] && this.inlineLimit == inlineLimit
    {
      chunks, spare, spareBytes, bytes := [], [], 0, 0;
      this.inlineLimit := inlineLimit;
      pushed := [];
    }

    /** An empty buffer, from the pool if it has one. */
    method FetchBuffer() returns (buffer: Buffer)
      requires PoolValid()
      modifies this`spare, this`spareBytes
      ensures PoolValid() && buffer.bytes == []
      ensures old(spare) == [] ==> spare == [] && buffer.capacity == 0
      ensures old(spare) != [] ==> old(spare) == spare + [buffer]
    {
      buffer := Buffer([], 0);
      if spare != [] {
        buffer := spare[|spare| - 1];
        spareBytes := spareBytes - buffer.capacity;
        spare := spare[..|spare| - 1];
      }
    }

    /** Makes sure the last chunk is an inline one. */
    method OpenInline()
      requires PoolValid() && ChunksValid()
      modifies this`chunks, this`spare, this`spareBytes
      ensures PoolValid() && ChunksValid()
      ensures chunks != [] && chunks[|chunks| - 1].Inline?
      ensures Pieces(chunks) == OpenTail(old(Pieces(chunks)))
      ensures old(chunks) != [] && old(chunks)[|old(chunks)| - 1].Inline? ==>
                chunks == old(chunks) && spare == old(spare)
      ensures |chunks| > |old(chunks)| && old(spare) != [] ==>
                old(spare) == spare + [chunks[|chunks| - 1].buffer]
    {
      hide PooledBytes;
      if chunks == [] || !chunks[|chunks| - 1].Inline? {
        var buffer := FetchBuffer();
        chunks := chunks + [Inline(buffer)];
        assert Pieces(chunks) == OpenTail(old(Pieces(chunks)));
      }
    }

    method AppendInline(bs: seq<byte>)
      requires PoolValid() && ChunksValid()
      modifies this`chunks, this`spare, this`spareBytes
      ensures PoolValid() && ChunksValid()
      ensures Pieces(chunks) == AddCopied(old(Pieces(chunks)), bs)
    {
      hide PooledBytes, Pieces, OpenTail, AllWellFormed;
      OpenInline();
      var last := |chunks| - 1;
      LastIsWellFormed(chunks);
      var buffer := Extend(chunks[last].buffer, bs);
      ReplaceLast(chunks, buffer);
      chunks := chunks[..last] + [Inline(buffer)];
    }

    method AppendSegment(message: Message, index: nat)
      requires PoolValid() && ChunksValid() && index < |message|
      modifies this`chunks, this`spare, this`spareBytes, this`bytes
      ensures PoolValid() && ChunksValid()
      ensures Pieces(chunks) == AddSegment(old(Pieces(chunks)), message[index], inlineLimit)
      ensures bytes == old(bytes) + |message[index]|
    {
      var segment := message[index];
      if segment == [] { return; }
      if |segment| <= inlineLimit {
        AppendInline(segment);
      } else {
        chunks := chunks + [Segment(message, index)];
        assert Pieces(chunks) == old(Pieces(chunks)) + [Piece(false, segment)];
      }
      bytes := bytes + |segment|;
    }

    method PushTable(message: Message)
      requires PoolValid() && ChunksValid()
      modifies this`chunks, this`spare, this`spareBytes, this`bytes
      ensures PoolValid() && ChunksValid()
      ensures Pieces(chunks) == AddCopied(old(Pieces(chunks)), Table(message))
      ensures bytes == old(bytes) + |Table(message)|
    {
      hide AddCopied, PieceOf;
      ghost var start := Pieces(chunks);
      ghost var lengths, table := Lengths(message), LE(4, |message| - 1);
      AppendInline(LE(4, |message| - 1));
      for i := 0 to |message|
        invariant PoolValid() && ChunksValid() && bytes == old(bytes)
        invariant table == LE(4, |message| - 1) + EncodeLengths(lengths[..i])
        invariant Pieces(chunks) == AddCopied(start, table)
      {
        AppendInline(LE(4, |message[i]| / WORD));
        AddCopiedTwice(start, table, LE(4, lengths[i]));
        EncodeLengthsSnoc(lengths, i);
        table := table + LE(4, lengths[i]);
      }
      assert lengths[..|message|] == lengths;
      if |message| % 2 == 0 {
        AppendInline([0, 0, 0, 0]);
        AddCopiedTwice(start, table, [0, 0, 0, 0]);
        table := table + [0, 0, 0, 0];
      }
      assert table == Table(message);
      bytes := bytes + NextMultiple(4 * (|message| + 1), WORD);
    }

    method PushBody(message: Message)
      requires PoolValid() && ChunksValid()
      modifies this`chunks, this`spare, this`spareBytes, this`bytes
      ensures PoolValid() && ChunksValid()
      ensures Pieces(chunks) == AddSegments(old(Pieces(chunks)), message, inlineLimit)
      ensures bytes == old(bytes) + |Flatten(message)|
    {
      hide AddSegment, PieceOf;
      assert message[..0] == [];
      for i := 0 to |message|
        invariant PoolValid() && ChunksValid()
        invariant Pieces(chunks) == AddSegments(old(Pieces(chunks)), message[..i], inlineLimit)
        invariant bytes == old(bytes) + |Flatten(message[..i])|
      {
        AppendSegment(message, i);
        assert message[..i + 1][..i] == message[..i];
        FlattenSnoc(message[..i], message[i]);
        assert message[..i + 1] == message[..i] + [message[i]];
      }
      assert message[..|message|] == message;
    }

    method Push(message: Message)
      requires Valid()
      modifies this
      ensures Valid() && pushed == old(pushed) + [message]
    {
      hide AddCopied, AddSegments, Table, Layout, SerializeAll, PieceOf;
      PushTable(message);
      PushBody(message);
      PushedOneMore(pushed, message, inlineLimit);
      pushed := pushed + [message];
    }

    method IsEmpty() returns (empty: bool)
      requires Valid()
      ensures empty <==> pushed == []
    {
      LayoutTidy(pushed, inlineLimit);
      empty := chunks == [];
    }

    /** Hands out the chunks to be written. */
    method Take() returns (taken: seq<Chunk>)
      requires Valid()
      modifies this`chunks, this`bytes, this`pushed
      ensures Valid() && pushed == []
      ensures Pieces(taken) == Layout(old(pushed), inlineLimit)
      ensures AllWellFormed(taken)
      ensures PieceBytes(Pieces(taken)) == SerializeAll(old(pushed)) && old(bytes) == |SerializeAll(old(pushed))|
    {
      hide Layout, SerializeAll, PieceBytes, PieceOf;
      LayoutBytes(pushed, inlineLimit);
      LayoutTidy([], inlineLimit);
      EmptySerialization([]);
      bytes := 0;
      taken := chunks;
      chunks := [];
      pushed := [];
    }

    /** Offers the buffers of written chunks to the pool. */
    method PoolBuffers(spent: seq<Chunk>)
      requires PoolValid()
      modifies this`spare, this`spareBytes
      ensures PoolValid() && spare == PoolAfter(old(spare), spent)
    {
      hide PooledBytes, PoolAfter;
      PoolAfterStep(old(spare), spent, 0);
      for i := 0 to |spent|
        invariant PoolValid() && spare == PoolAfter(old(spare), spent[..i])
      {
        PoolAfterStep(old(spare), spent, i);
        if spent[i].Inline? && spareBytes + spent[i].buffer.capacity <= SPARE_BUDGET {
          var cleared := Buffer([], spent[i].buffer.capacity);
          spareBytes := spareBytes + cleared.capacity;
          PooledOneMore(spare, cleared);
          spare := spare + [cleared];
        }
      }
      assert spent[..|spent|] == spent;
    }

    /** Puts the buffers of written chunks back into the pool. Chunks pushed in the meantime are lost, and the byte
        count is then wrong: the batch stays sound exactly when it was empty. */
    method Recycle(spent: seq<Chunk>)
      requires Valid()
      modifies this
      ensures PoolValid() && chunks == [] && pushed == []
      ensures spare == PoolAfter(old(spare), spent)
      ensures Valid() <==> old(pushed) == []
    {
      hide Layout, SerializeAll, PoolAfter, PooledBytes;
      EmptySerialization(pushed);
      EmptySerialization([]);
      LayoutTidy([], inlineLimit);
      PoolBuffers(spent);
      chunks := [];
      pushed := [];
    }
  }

  lemma LastIsWellFormed(chunks: seq<Chunk>)
    requires chunks != [] && AllWellFormed(chunks)
    ensures WellFormed(chunks[|chunks| - 1]) && Pieces(chunks)[|chunks| - 1] == PieceOf(chunks[|chunks| - 1])
  {
  }

  lemma ReplaceLast(chunks: seq<Chunk>, buffer: Buffer)
    requires chunks != [] && AllWellFormed(chunks) && |buffer.bytes| <= buffer.capacity
    ensures var last := |chunks| - 1;
            && Pieces(chunks[..last] + [Inline(buffer)]) == Pieces(chunks)[..last] + [Piece(true, buffer.bytes)]
            && AllWellFormed(chunks[..last] + [Inline(buffer)])
  {
  }

  lemma PooledOneMore(pool: seq<Buffer>, b: Buffer)
    ensures PooledBytes(pool + [b]) == PooledBytes(pool) + b.capacity
  {
    assert (pool + [b])[..|pool|] == pool;
  }

  lemma PoolAfterStep(pool: seq<Buffer>, spent: seq<Chunk>, i: nat)
    requires i <= |spent|
    ensures PoolAfter(pool, spent[..0]) == pool
    ensures i < |spent| ==>
              var before := PoolAfter(pool, spent[..i]);
              PoolAfter(pool, spent[..i + 1]) ==
              if spent[i].Inline? && PooledBytes(before) + spent[i].buffer.capacity <= SPARE_BUDGET
              then before + [Buffer([], spent[i].buffer.capacity)]
              else before
  {
    hide PooledBytes;
    if i < |spent| { assert spent[..i + 1][..i] == spent[..i]; }
  }

  lemma EmptySerialization(ms: seq<Message>)
    ensures |SerializeAll(ms)| == 0 <==> ms == []
  {
  }

  lemma PushedOneMore(ms: seq<Message>, m: Message, inlineLimit: nat)
    ensures Layout(ms + [m], inlineLimit) == AddSegments(AddCopied(Layout(ms, inlineLimit), Table(m)), m, inlineLimit)
    ensures |SerializeAll(ms + [m])| == |SerializeAll(ms)| + |Table(m)| + |Flatten(m)|
  {
    hide SerializeAll, AddSegments, AddCopied, Table;
    assert (ms + [m])[..|ms|] == ms;
    SerializeAllSnoc(ms, m);
  }

  lemma EncodeLengthsSnoc(ls: seq<nat>, i: nat)
    requires i < |ls|
    ensures EncodeLengths(ls[..i + 1]) == EncodeLengths(ls[..i]) + LE(4, ls[i])
  {
    if i == 0 {
      assert ls[..1][1..] == [];
    } else {
      EncodeLengthsSnoc(ls[1..], i - 1);
      assert ls[..i + 1][1..] == ls[1..][..i] && ls[..i][1..] == ls[1..][..i - 1];
      Assoc(LE(4, ls[0]), EncodeLengths(ls[..i][1..]), LE(4, ls[i]));
    }
  }

  /** Any number of rounds of pushing, taking and recycling. Each round's chunks hold that round's messages and nothing
      of the rounds before it. */
  method Rounds(rounds: seq<seq<Message>>, inlineLimit: nat) returns (written: seq<seq<Chunk>>)
    ensures |written| == |rounds|
    ensures forall r :: 0 <= r < |rounds| ==> PieceBytes(Pieces(written[r])) == SerializeAll(rounds[r])
    ensures forall r :: 0 <= r < |rounds| ==>
                          && Tidy(Pieces(written[r]), inlineLimit)
                          && Referenced(Pieces(written[r])) == AllLarge(rounds[r], inlineLimit)
  {
    hide AllLarge, Referenced, PieceBytes, Pieces, Tidy, SerializeAll, Layout;
    var batch := new Batch(inlineLimit);
    written := [];
    for r := 0 to |rounds|
      invariant batch.Valid() && batch.pushed == [] && batch.inlineLimit == inlineLimit
      invariant |written| == r
      invariant forall k :: 0 <= k < r ==> PieceBytes(Pieces(written[k])) == SerializeAll(rounds[k])
      invariant forall k :: 0 <= k < r ==>
                              && Tidy(Pieces(written[k]), inlineLimit)
                              && Referenced(Pieces(written[k])) == AllLarge(rounds[k], inlineLimit)
    {
      for i := 0 to |rounds[r]|
        invariant batch.Valid() && batch.pushed == rounds[r][..i]
      {
        batch.Push(rounds[r][i]);
      }
      assert rounds[r][..|rounds[r]|] == rounds[r];
      LayoutTidy(rounds[r], inlineLimit);
      LayoutReferences(rounds[r], inlineLimit);
      var taken := batch.Take();
      batch.Recycle(taken);
      written := written + [taken];
    }
  }
}
