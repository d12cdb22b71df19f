/** The two handshake halves as they run against a connection, with short reads, I/O errors and timeouts, and against
    any peer. Each is proved to do what a function of the bytes it is sent says. */
module HandshakeHalves {
  import opened Bytes
  import opened Packets
  import opened Handshake
  import opened Streams

  /** What a half sends, concludes and leaves unread, given everything its peer sends. */
  datatype Half = Half(out: seq<byte>, result: Result<Option<Version>>, rest: seq<byte>)

  function Learned(r: Result<Version>): Result<Option<Version>> {
    match r
    case Ok(v) => Ok(Some(v))
    case Err(e) => Err(e)
  }

  function FailedRead(t: Taken): HandshakeError {
    if t.TooLong? then MalformedPacket else Io
  }

  function ServerHalf(env: Env, s: Server, stream: seq<byte>): Half {
    if s.mode.Disabled? then Half([], Ok(None), stream)
    else if Opening(s).Err? then Half([], Err(Opening(s).error), stream)
    else
      var hello := Framed(Opening(s).value);
      match TakePacket(stream)
      case Packet(body, rest) =>
        var reply := OnAuth(env, s, body);
        Half(if reply.ack.Some? then hello + Framed(reply.ack.value) else hello, Learned(reply.result), rest)
      case failed => Half(hello, Err(FailedRead(failed)), [])
  }

  function ClientHalf(env: Env, c: Client, stream: seq<byte>): Half {
    if c.mode.Disabled? then Half([], Ok(None), stream)
    else
      match TakePacket(stream)
      case Packet(body, rest) =>
        (match OnHello(env, c, body)
         case Stop(error) => Half([], Err(error), rest)
         case Proceed(auth, verdict) =>
           if verdict.Err? then Half(Framed(auth), Err(verdict.error), rest)
           else
             match TakePacket(rest)
             case Packet(ack, after) => Half(Framed(auth), Learned(OnAck(ack, verdict.value)), after)
             case failed => Half(Framed(auth), Err(FailedRead(failed)), []))
      case failed => Half([], Err(FailedRead(failed)), [])
  }

  lemma TakeFramed(body: seq<byte>, rest: seq<byte>)
    requires |body| <= MAX_PACKET_LEN
    ensures TakePacket(Framed(body) + rest) == Packet(body, rest)
  {
    Pow256Values();
    FromLEOfLE(4, |body|);
    var s := Framed(body) + rest;
    assert s[..4] == LE(4, |body|);
    Parts(LE(4, |body|), body, rest);
  }

  /** What an honest client has sent by the time it has concluded: its auth, or nothing if it never got to that. */
  ghost function ClientSays(env: Env, s: Server, c: Client): seq<byte> {
    if Opening(s).Ok? && SchemeId(s.mode) == SchemeId(c.mode) then Framed(Auth(env, s, c)) else []
  }

  /** Two honest halves fed with each other's output come to the outcomes of their configurations, in every
      configuration, and leave exactly what follows the other's packets. */
  lemma HalvesConverse(env: Env, s: Server, c: Client, serverRpc: seq<byte>, clientRpc: seq<byte>)
    requires Honest(env, s, c)
    requires !Compatible(env, s, c) ==> serverRpc == [] && clientRpc == []
    ensures var server := ServerHalf(env, s, ClientSays(env, s, c) + clientRpc);
            var client := ClientHalf(env, c, server.out + serverRpc);
            && client.out == ClientSays(env, s, c)
            && server.result == Learned(ServerOutcome(env, s, c)) && client.result == Learned(ClientOutcome(env, s, c))
            && (Compatible(env, s, c) ==> server.rest == clientRpc && client.rest == serverRpc)
  {
    hide Honest, OnHello, OnAuth, Auth, Framed, TakePacket, ServerHalf, ClientHalf;
    OutcomesAgree(env, s, c);
    if Opening(s).Ok? && SchemeId(s.mode) == SchemeId(c.mode) {
      SameSchemeConverse(env, s, c, serverRpc, clientRpc);
    } else {
      NoAuthConverse(env, s, c);
      assert ClientSays(env, s, c) + clientRpc == [];
      assert ServerHalf(env, s, []).out + serverRpc == ServerHalf(env, s, []).out;
    }
  }

  lemma SameSchemeConverse(env: Env, s: Server, c: Client, serverRpc: seq<byte>, clientRpc: seq<byte>)
    requires Honest(env, s, c) && Opening(s).Ok? && SchemeId(s.mode) == SchemeId(c.mode)
    ensures var server := ServerHalf(env, s, Framed(Auth(env, s, c)) + clientRpc);
            var client := ClientHalf(env, c, server.out + serverRpc);
            && client.out == Framed(Auth(env, s, c))
            && server.result == Learned(ServerOutcome(env, s, c)) && client.result == Learned(ClientOutcome(env, s, c))
            && server.rest == clientRpc && (client.result.Ok? ==> client.rest == serverRpc)
  {
    HelloIsUnderstood(env, s, c);
    AuthIsUnderstood(env, s, c);
    hide OnHello, OnAuth, Auth, Framed, TakePacket, ServerOutcome, DecodeAck;
    var ack := OnAuth(env, s, Auth(env, s, c)).ack.value;
    TakeFramed(Auth(env, s, c), clientRpc);
    Assoc(Framed(Hello(s)), Framed(ack), serverRpc);
    TakeFramed(Hello(s), Framed(ack) + serverRpc);
    TakeFramed(ack, serverRpc);
    OutcomesMatch(env, s, c);
  }

  lemma NoAuthConverse(env: Env, s: Server, c: Client)
    requires Honest(env, s, c) && (Opening(s).Err? || SchemeId(s.mode) != SchemeId(c.mode))
    ensures var server := ServerHalf(env, s, []);
            var client := ClientHalf(env, c, server.out);
            && client.out == []
            && server.result == Learned(ServerOutcome(env, s, c)) && client.result == Learned(ClientOutcome(env, s, c))
  {
    if Opening(s).Ok? {
      HelloIsUnderstood(env, s, c);
      hide OnHello, Framed;
      TakeFramed(Hello(s), []);
      assert Framed(Hello(s)) + [] == Framed(Hello(s));
    }
  }

  lemma OutcomesMatch(env: Env, s: Server, c: Client)
    requires Opening(s).Ok? && SchemeId(s.mode) == SchemeId(c.mode)
    ensures ClientOutcome(env, s, c) ==
            if Mismatch(s.protocol, c.protocol).Some? then Err(Mismatch(s.protocol, c.protocol).value)
            else if ServerOutcome(env, s, c).Ok? then Ok(s.protocol.version)
            else Err(Rejected)
  {
  }

  // ---- the halves at work ---------------------------------------------------------------------------------------

  class Conn {
    const source: Source
    var sent: seq<byte>

    constructor (source: Source)
      ensures this.source == source && sent == []
    {
      this.source, sent := source, [];
    }

    /** Sends a packet; a write that fails may have sent a part of it. */
    method WritePacket(body: seq<byte>) returns (ok: bool)
      modifies this`sent
      ensures ok ==> sent == old(sent) + Framed(body)
      ensures old(sent) <= sent <= old(sent) + Framed(body)
      ensures source.reliable ==> ok
    {
      var frame := LE(4, |body|) + body;
      var failing: bool := *;
      if failing && !source.reliable {
        var n :| 0 <= n <= |frame|;
        sent := sent + frame[..n];
        return false;
      }
      sent := sent + frame;
      return true;
    }

    method ReadPacket() returns (r: Result<seq<byte>>)
      modifies source`unread
      ensures r.Ok? ==> TakePacket(old(source.unread)) == Packet(r.value, source.unread)
      ensures source.reliable && r.Err? ==>
                !TakePacket(old(source.unread)).Packet? && r.error == FailedRead(TakePacket(old(source.unread)))
      ensures r.Err? ==> r.error == Io || r.error == Timeout || TakePacket(old(source.unread)) == TooLong
      ensures r.Err? ==> r.error == Io || r.error == Timeout || r.error == MalformedPacket
    {
      ghost var stream := source.unread;
      var late: bool := *;
      if late && !source.reliable { return Err(Timeout); }
      var header := new byte[4](_ => 0);
      var e := source.ReadExact(header, 0);
      if e != Full { return Err(Io); }
      assert header[0..] == header[..] == stream[..4] && source.unread == stream[4..];
      var len := FromLE(header[..]);
      if len > MAX_PACKET_LEN { return Err(MalformedPacket); }
      var body := new byte[len](_ => 0);
      e := source.ReadExact(body, 0);
      if e != Full { return Err(Io); }
      assert body[0..] == body[..];
      Parts(stream[..4], body[..], source.unread);
      assert stream == stream[..4] + stream[4..];
      Assoc(stream[..4], body[..], source.unread);
      return Ok(body[..]);
    }
  }

  method AuthenticateServer(env: Env, s: Server, conn: Conn) returns (r: Result<Option<Version>>)
    modifies conn`sent, conn.source`unread
    ensures r.Ok? || conn.source.reliable ==>
              && r == ServerHalf(env, s, old(conn.source.unread)).result
              && conn.sent == old(conn.sent) + ServerHalf(env, s, old(conn.source.unread)).out
    ensures r.Ok? ==> conn.source.unread == ServerHalf(env, s, old(conn.source.unread)).rest
    ensures r == ServerHalf(env, s, old(conn.source.unread)).result || r == Err(Io) || r == Err(Timeout)
    ensures old(conn.sent) <= conn.sent <= old(conn.sent) + ServerHalf(env, s, old(conn.source.unread)).out
  {
    hide OnAuth, Framed, TakePacket;
    if s.mode.Disabled? { return Ok(None); }
    var opening := Opening(s);
    if opening.Err? { return Err(opening.error); }
    var ok := conn.WritePacket(opening.value);
    if !ok { return Err(Io); }
    var body := conn.ReadPacket();
    if body.Err? { return Err(body.error); }
    var reply := OnAuth(env, s, body.value);
    if reply.ack.Some? {
      Assoc(old(conn.sent), Framed(opening.value), Framed(reply.ack.value));
      ok := conn.WritePacket(reply.ack.value);
      if reply.result.Ok? && !ok { return Err(Io); }
    }
    assert reply.result.Ok? ==> reply.ack.Some? by { AcceptsWithAck(env, s, body.value); }
    return Learned(reply.result);
  }

  lemma AcceptsWithAck(env: Env, s: Server, body: seq<byte>)
    requires Opening(s).Ok?
    ensures OnAuth(env, s, body).result.Ok? ==> OnAuth(env, s, body).ack.Some?
  {
  }

  method AuthenticateClient(env: Env, c: Client, conn: Conn) returns (r: Result<Option<Version>>)
    modifies conn`sent, conn.source`unread
    ensures r.Ok? || conn.source.reliable ==>
              && r == ClientHalf(env, c, old(conn.source.unread)).result
              && conn.sent == old(conn.sent) + ClientHalf(env, c, old(conn.source.unread)).out
    ensures r.Ok? ==> conn.source.unread == ClientHalf(env, c, old(conn.source.unread)).rest
    ensures r == ClientHalf(env, c, old(conn.source.unread)).result || r == Err(Io) || r == Err(Timeout)
    ensures old(conn.sent) <= conn.sent <= old(conn.sent) + ClientHalf(env, c, old(conn.source.unread)).out
  {
    hide OnHello, Framed, TakePacket;
    if c.mode.Disabled? { return Ok(None); }
    var hello := conn.ReadPacket();
    if hello.Err? { return Err(hello.error); }
    var move := OnHello(env, c, hello.value);
    if move.Stop? { return Err(move.error); }
    var ok := conn.WritePacket(move.auth);
    if !ok { return Err(Io); }
    if move.verdict.Err? { return Err(move.verdict.error); }
    var ack := conn.ReadPacket();
    if ack.Err? { return Err(ack.error); }
    return Learned(OnAck(ack.value, move.verdict.value));
  }
}
