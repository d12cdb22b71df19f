/** The reading end of a transport: bytes arrive in pieces of any size, and a read of nothing means end of stream. */
module Streams {
  import opened Bytes

  datatype Chunk = Got(bytes: seq<byte>) | Broken

  class Source {
    var unread: seq<byte>
    const reliable: bool

    constructor (stream: seq<byte>, reliable: bool)
      ensures unread == stream && this.reliable == reliable
    {
      unread := stream;
      this.reliable := reliable;
    }

    /** One read into `room` bytes of space. How much of the stream it returns is not up to the caller. */
    method Read(room: nat) returns (r: Chunk)
      requires room > 0
      modifies this`unread
      ensures r.Broken? ==> !reliable && unread == old(unread)
      ensures r.Got? ==> |r.bytes| <= room && r.bytes + unread == old(unread)
      ensures r.Got? && r.bytes == [] ==> old(unread) == []
    {
      var broken: bool := *;
      if broken && !reliable { return Broken; }
      if unread == [] { return Got([]); }
      var n :| 1 <= n <= room && n <= |unread|;
      r := Got(unread[..n]);
      unread := unread[n..];
    }

    /** Reads until `buffer` is full from `from` on; fails at end of stream. */
    method ReadExact(buffer: array<byte>, from: nat) returns (r: ExactRead)
      requires from <= buffer.Length
      modifies this`unread, buffer
      ensures buffer[..from] == old(buffer[..from])
      ensures r == Full ==> buffer[from..] + unread == old(unread)
      ensures r == Short ==> |old(unread)| < buffer.Length - from
      ensures r == Interrupted ==> !reliable
    {
      var filled := from;
      while filled < buffer.Length
        invariant from <= filled <= buffer.Length
        invariant buffer[..from] == old(buffer[..from])
        invariant buffer[from..filled] + unread == old(unread)
      {
        var c := Read(buffer.Length - filled);
        if c.Broken? { return Interrupted; }
        if c.bytes == [] { return Short; }
        ghost var before := buffer[from..filled];
        forall i | 0 <= i < |c.bytes| { buffer[filled + i] := c.bytes[i]; }
        assert buffer[from..filled + |c.bytes|] == before + c.bytes;
        Assoc(before, c.bytes, unread);
        filled := filled + |c.bytes|;
      }
      return Full;
    }
  }

  datatype ExactRead = Full | Short | Interrupted
}
