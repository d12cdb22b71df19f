/** What each handshake half answers to every packet and every stream an arbitrary peer may send: the exact condition
    for each error, and what is sent with it. */
module AnyPeer {
  import opened Bytes
  import opened Packets
  import opened Handshake
  import opened HandshakeHalves
  import Framing

  // ---- bodies ---------------------------------------------------------------------------------------------------

  ghost predicate IsHello(body: seq<byte>, scheme: byte) {
    exists p: Protocol, nonce: seq<byte> :: |nonce| < 0x1_0000 && body == EncodeHello(scheme, p, nonce)
  }

  ghost predicate IsAuth(body: seq<byte>, scheme: byte) {
    exists p: Protocol, proof: seq<byte> :: |proof| < 0x1_0000 && body == EncodeClientAuth(scheme, p, proof)
  }

  ghost predicate IsAck(body: seq<byte>, status: byte) {
    exists reason: seq<byte> :: |reason| < 0x1_0000 && body == EncodeAck(status, reason)
  }

  ghost predicate IsRejection(body: seq<byte>) {
    exists status: byte :: status != 0 && IsAck(body, status)
  }

  /** The version field is there and is not 3. */
  ghost predicate OtherVersion(body: seq<byte>) {
    |body| >= 3 && !(body[1] == 3 && body[2] == 0)
  }

  lemma VersionField(body: seq<byte>)
    ensures OtherVersion(body) <==> PacketVersion(body).Some? && PacketVersion(body).value != HANDSHAKE_VERSION
    ensures OtherVersion(body) ==> body != []
  {
    if |body| >= 3 {
      var w := body[1..3];
      assert FromLE(w) == w[0] + 256 * FromLE(w[1..]);
      assert FromLE(w[1..]) == w[1] + 256 * FromLE(w[1..][1..]) && w[1..][1..] == [];
    }
  }

  lemma GreetingStart(body: seq<byte>)
    ensures forall scheme: byte :: IsHello(body, scheme) ==> |body| >= 3 && body[0] == 1 && !OtherVersion(body)
    ensures forall scheme: byte :: IsAuth(body, scheme) ==> |body| >= 3 && body[0] == 2 && !OtherVersion(body)
  {
    assert LE(2, 3) == [3] + LE(1, 0) == [3, 0];
    forall scheme: byte, p: Protocol, payload: seq<byte>
      ensures EncodeHello(scheme, p, payload)[..3] == [1, 3, 0]
      ensures EncodeClientAuth(scheme, p, payload)[..3] == [2, 3, 0]
    {
    }
    hide EncodeHello, EncodeClientAuth;
  }

  /** A body of the third version decodes exactly when it is the encoding of what it decodes to. */
  lemma GreetingsDecode(body: seq<byte>, scheme: byte)
    requires !OtherVersion(body)
    ensures IsHello(body, scheme) <==> DecodeHello(body).Ok? && DecodeHello(body).value.scheme == scheme
    ensures IsAuth(body, scheme) <==> DecodeClientAuth(body).Ok? && DecodeClientAuth(body).value.scheme == scheme
    ensures DecodeHello(body).Err? ==> DecodeHello(body).error == MalformedPacket
    ensures DecodeClientAuth(body).Err? ==> DecodeClientAuth(body).error == MalformedPacket
  {
    VersionField(body);
    GoodBody(body);
    hide EncodeHello, EncodeClientAuth, PacketVersion, OtherVersion, ReadGreeting;
    forall p: Protocol, payload: seq<byte> | |payload| < 0x1_0000
      ensures DecodeHello(EncodeHello(scheme, p, payload)).Ok?
      ensures DecodeHello(EncodeHello(scheme, p, payload)).value.scheme == scheme
      ensures DecodeClientAuth(EncodeClientAuth(scheme, p, payload)).Ok?
      ensures DecodeClientAuth(EncodeClientAuth(scheme, p, payload)).value.scheme == scheme
    {
      DecodesBack(scheme, p, payload, 0);
    }
  }

  lemma AckStatus(body: seq<byte>, status: byte)
    ensures IsAck(body, status)
       <==> ReadAck(body).Some? && ReadAck(body).value.tag == TAG_ACK && ReadAck(body).value.status == status
    ensures IsAck(body, status) ==> body != [] && body[0] == 3
  {
    hide WriteAck, ReadAck;
    if ReadAck(body).Some? {
      var a := ReadAck(body).value;
      AckBytes(body);
      AckRoundTrip(a);
      assert a.tag == TAG_ACK ==> body == EncodeAck(a.status, a.reason);
    }
    forall reason: seq<byte> | |reason| < 0x1_0000 && body == EncodeAck(status, reason)
      ensures ReadAck(body) == Some(Ack(TAG_ACK, status, reason)) && body != [] && body[0] == 3
    {
      AckRoundTrip(Ack(TAG_ACK, status, reason));
      AckParts(Ack(TAG_ACK, status, reason));
    }
  }

  lemma AcksDecode(body: seq<byte>)
    ensures DecodeAck(body).Ok? <==> IsAck(body, 0)
    ensures DecodeAck(body) == Err(Rejected) <==> IsRejection(body)
    ensures DecodeAck(body).Ok? || DecodeAck(body) == Err(Rejected) || DecodeAck(body) == Err(MalformedPacket)
    ensures IsAck(body, 0) || IsRejection(body) ==> body != [] && body[0] == 3
  {
    hide IsAck, ReadAck;
    forall status: byte
      ensures IsAck(body, status)
         <==> ReadAck(body).Some? && ReadAck(body).value.tag == TAG_ACK && ReadAck(body).value.status == status
      ensures IsAck(body, status) ==> body != [] && body[0] == 3
    {
      AckStatus(body, status);
    }
    if DecodeAck(body) == Err(Rejected) { assert IsAck(body, ReadAck(body).value.status); }
  }

  /** What the body of an ack comes to, once the client waits for one. */
  lemma AckVerdicts(body: seq<byte>, v: Version)
    ensures OnAck(body, v) == Ok(v) <==> IsAck(body, 0)
    ensures OnAck(body, v) == Err(Rejected) <==> IsRejection(body)
    ensures OnAck(body, v) == Err(MalformedPacket) <==> !IsAck(body, 0) && !IsRejection(body)
  {
    AcksDecode(body);
    hide IsAck, IsRejection, DecodeAck;
  }

  /** Every answer of a client to the first body it is sent. A rejection may come in place of the hello; an ack that
      accepts may not. */
  lemma HelloVerdicts(env: Env, c: Client, body: seq<byte>)
    ensures OnHello(env, c, body) == Stop(Rejected) <==> IsRejection(body)
    ensures OnHello(env, c, body) == Stop(UnsupportedVersion) <==> OtherVersion(body) && body[0] != 3
    ensures OnHello(env, c, body) == Stop(SchemeMismatch)
       <==> exists scheme: byte :: scheme != SchemeId(c.mode) && IsHello(body, scheme)
    ensures OnHello(env, c, body).Proceed? <==> IsHello(body, SchemeId(c.mode))
    ensures OnHello(env, c, body) == Stop(MalformedPacket)
       <==> if body != [] && body[0] == 3 then !IsRejection(body)
            else !OtherVersion(body) && !exists scheme: byte :: IsHello(body, scheme)
  {
    AcksDecode(body);
    VersionField(body);
    GreetingStart(body);
    hide IsAck, IsRejection, IsHello, OtherVersion, DecodeAck, DecodeHello, PacketVersion, Incompatibility, Proof;
    hide EncodeClientAuth;
    if !OtherVersion(body) {
      forall scheme: byte
        ensures IsHello(body, scheme) <==> DecodeHello(body).Ok? && DecodeHello(body).value.scheme == scheme
      {
        GreetingsDecode(body, scheme);
      }
      GreetingsDecode(body, if DecodeHello(body).Ok? then DecodeHello(body).value.scheme else 0);
    }
  }

  /** What a client makes of a hello of any scheme and protocol. */
  lemma HelloAnswered(env: Env, c: Client, scheme: byte, p: Protocol, nonce: seq<byte>)
    requires |nonce| < 0x1_0000
    ensures OnHello(env, c, EncodeHello(scheme, p, nonce)) ==
            if scheme != SchemeId(c.mode) then Stop(SchemeMismatch)
            else Proceed(EncodeClientAuth(scheme, c.protocol, Proof(env, c, nonce)),
                         if Mismatch(c.protocol, p).Some? then Err(Mismatch(c.protocol, p).value) else Ok(p.version))
  {
    DecodesBack(scheme, p, nonce, 0);
    IncompatibilityIsMismatch(c.protocol, p);
    assert EncodeHello(scheme, p, nonce)[0] == TAG_HELLO;
    hide DecodeHello, PacketVersion, Incompatibility, EncodeClientAuth, EncodeHello, Proof, DecodeAck;
  }

  /** The error a server has for a proof that does not hold. */
  ghost function ProofError(env: Env, s: Server, proof: seq<byte>): HandshakeError
    requires Opening(s).Ok? && !ProofHolds(env, s, proof)
  {
    match s.mode
    case SignedProcess(key) => env.attest(s.pid.value, key).value
    case _ => InvalidProof
  }

  /** The reply is a conclusion and an ack that tells the client so. */
  ghost predicate Tells(reply: Reply, result: Result<Version>) {
    && reply.result == result && reply.ack.Some? && |reply.ack.value| <= MAX_PACKET_LEN
    && (if result.Ok? then IsAck(reply.ack.value, 0) else IsRejection(reply.ack.value))
  }

  /** What a server is to conclude of an auth, by the first of its fields that is wrong. */
  ghost function AuthResult(env: Env, s: Server, scheme: byte, p: Protocol, proof: seq<byte>): Result<Version>
    requires Opening(s).Ok?
  {
    if scheme != SchemeId(s.mode) then Err(SchemeMismatch)
    else if Mismatch(s.protocol, p).Some? then Err(Mismatch(s.protocol, p).value)
    else if ProofHolds(env, s, proof) then Ok(p.version)
    else Err(ProofError(env, s, proof))
  }

  /** What a server makes of the auth of any scheme, protocol and proof, in the order of its checks. */
  lemma AuthAnswered(env: Env, s: Server, scheme: byte, p: Protocol, proof: seq<byte>)
    requires Opening(s).Ok? && |proof| < 0x1_0000
    ensures Tells(OnAuth(env, s, EncodeClientAuth(scheme, p, proof)), AuthResult(env, s, scheme, p, proof))
  {
    hide DecodeClientAuth, PacketVersion, Incompatibility, EncodeClientAuth, EncodeAck, IsAck, IsRejection, Decimal;
    hide ProofHolds, Ascii, CheckProof, ProofError;
    DecodesBack(scheme, p, proof, ACK_OK);
    IncompatibilityIsMismatch(s.protocol, p);
    ProofRefused(env, s, proof);
    ReasonsFit(scheme, SchemeId(s.mode));
    if scheme != SchemeId(s.mode) {
      RejectionsTell("handshake auth mismatch: client=" + Decimal(scheme) + " server=" + Decimal(SchemeId(s.mode)));
    } else if Incompatibility(s.protocol, p).Some? {
      RejectionsTell(Incompatibility(s.protocol, p).value.reason);
    } else if CheckProof(env, s, proof).Some? {
      RejectionsTell(CheckProof(env, s, proof).value.reason);
    } else {
      AcceptanceTells();
    }
  }

  lemma ProofRefused(env: Env, s: Server, proof: seq<byte>)
    requires Opening(s).Ok?
    ensures CheckProof(env, s, proof) == None <==> ProofHolds(env, s, proof)
    ensures !ProofHolds(env, s, proof) ==>
              && CheckProof(env, s, proof).value.error == ProofError(env, s, proof)
              && |CheckProof(env, s, proof).value.reason| <= 40
  {
    CheckProofIs(env, s, proof);
  }

  lemma AcceptanceTells()
    ensures |EncodeAck(ACK_OK, [])| <= MAX_PACKET_LEN && IsAck(EncodeAck(ACK_OK, []), 0)
  {
    hide WriteAck;
  }

  lemma ReasonsFit(a: nat, b: nat)
    requires a < 0x1_0000 && b < 0x1_0000
    ensures |Decimal(a)| <= 10 && |Decimal(b)| <= 10
  {
    U32Length(a);
    U32Length(b);
  }

  lemma RejectionsTell(reason: string)
    requires |reason| <= 4000
    ensures |EncodeAck(ACK_REJECTED, Ascii(reason))| <= MAX_PACKET_LEN
    ensures IsRejection(EncodeAck(ACK_REJECTED, Ascii(reason)))
  {
    hide WriteAck, Ascii;
    assert IsAck(EncodeAck(ACK_REJECTED, Ascii(reason)), ACK_REJECTED);
  }

  /** Every answer of a server to the body it is sent: another version is told so, what is not an auth is not answered,
      and an auth is judged by its fields. */
  lemma AuthVerdicts(env: Env, s: Server, body: seq<byte>)
    requires Opening(s).Ok?
    ensures OtherVersion(body) ==> Tells(OnAuth(env, s, body), Err(UnsupportedVersion))
    ensures OnAuth(env, s, body) == Reply(None, Err(MalformedPacket))
       <==> !OtherVersion(body) && forall scheme: byte :: !IsAuth(body, scheme)
    ensures OnAuth(env, s, body).ack.None? ==> OnAuth(env, s, body) == Reply(None, Err(MalformedPacket))
  {
    hide DecodeClientAuth, PacketVersion, Incompatibility, EncodeAck, IsRejection, IsAuth, OtherVersion, Decimal;
    hide CheckProof, Ascii, IsAck;
    GreetingStart(body);
    VersionField(body);
    if OtherVersion(body) {
      var version := PacketVersion(body).value;
      ReasonsFit(version, HANDSHAKE_VERSION);
      RejectionsTell("unsupported handshake version: client=" + Decimal(version)
                     + " server=" + Decimal(HANDSHAKE_VERSION));
    } else {
      forall scheme: byte
        ensures IsAuth(body, scheme) <==> DecodeClientAuth(body).Ok? && DecodeClientAuth(body).value.scheme == scheme
      {
        GreetingsDecode(body, scheme);
      }
      GreetingsDecode(body, if DecodeClientAuth(body).Ok? then DecodeClientAuth(body).value.scheme else 0);
    }
  }

  // ---- streams --------------------------------------------------------------------------------------------------

  /** The length the first four bytes announce. */
  ghost function Announced(s: seq<byte>): nat
    requires |s| >= 4
  {
    Framing.Value(s[0], s[1], s[2], s[3])
  }

  lemma AnnouncedIs(s: seq<byte>)
    requires |s| >= 4
    ensures FromLE(s[..4]) == Announced(s)
    ensures LE(4, Announced(s)) == s[..4]
  {
    Framing.WordValue(s, 0);
    LEOfFromLE(s[..4]);
    assert s[4 * 0..4 * 0 + 4] == s[..4];
  }

  /** What the first packet of a stream is, from its bytes. */
  lemma TakesExactly(s: seq<byte>, body: seq<byte>, rest: seq<byte>)
    ensures TakePacket(s) == Packet(body, rest) <==> |body| <= 4096 && s == Framed(body) + rest
    ensures TakePacket(s) == TooLong <==> |s| >= 4 && Announced(s) > 4096
    ensures TakePacket(s) == Truncated <==> |s| < 4 || (Announced(s) <= 4096 && |s| < 4 + Announced(s))
  {
    hide Announced, FromLE, LE;
    if |s| >= 4 { AnnouncedIs(s); }
    if |body| <= 4096 && s == Framed(body) + rest { TakeFramed(body, rest); }
    if TakePacket(s) == Packet(body, rest) {
      CutInThree(s, 4, 4 + |body|, |s|);
      assert s == s[..|s|];
    }
  }

  /** Both halves on a stream whose first packet cannot be read: too long a packet is malformed, a stream that ends
      early is an I/O error. The server has sent its hello by then, the client nothing. */
  lemma UnreadableFirst(env: Env, s: Server, c: Client, stream: seq<byte>)
    requires !s.mode.Disabled? && Opening(s).Ok? && !c.mode.Disabled?
    requires |stream| < 4 || Announced(stream) > 4096 || |stream| < 4 + Announced(stream)
    ensures var error := if |stream| >= 4 && Announced(stream) > 4096 then MalformedPacket else Io;
            && ServerHalf(env, s, stream).out == Framed(Hello(s)) && ServerHalf(env, s, stream).result == Err(error)
            && ClientHalf(env, c, stream).out == [] && ClientHalf(env, c, stream).result == Err(error)
  {
    hide TakePacket, Announced, Framed;
    TakesExactly(stream, [], []);
  }

  /** A client that was sent a good hello has sent its auth; what follows decides: a readable ack by its status, and an
      unreadable one as before. */
  lemma AfterGoodHello(env: Env, c: Client, p: Protocol, nonce: seq<byte>, rest: seq<byte>)
    requires !c.mode.Disabled? && |nonce| <= 4070 && SameLine(c.protocol, p)
    ensures var half := ClientHalf(env, c, Framed(EncodeHello(SchemeId(c.mode), p, nonce)) + rest);
            && half.out == Framed(EncodeClientAuth(SchemeId(c.mode), c.protocol, Proof(env, c, nonce)))
            && match TakePacket(rest)
               case Packet(ack, after) =>
                 && half.rest == after
                 && (half.result == Ok(Some(p.version)) <==> IsAck(ack, 0))
                 && (half.result == Err(Rejected) <==> IsRejection(ack))
                 && (half.result == Err(MalformedPacket) <==> !IsAck(ack, 0) && !IsRejection(ack))
               case TooLong => half.result == Err(MalformedPacket)
               case Truncated => half.result == Err(Io)
  {
    hide TakePacket, OnHello, OnAck, Framed, WriteGreeting, Proof, IsAck, IsRejection;
    HelloAnswered(env, c, SchemeId(c.mode), p, nonce);
    TakeFramed(EncodeHello(SchemeId(c.mode), p, nonce), rest);
    if TakePacket(rest).Packet? { AckVerdicts(TakePacket(rest).body, p.version); }
  }

  /** A client that was sent a hello it cannot go on from reads no further: it gives up silently on another scheme, and
      on another protocol or major it does so after its auth, so that the server learns of it too. */
  lemma AfterOtherHello(env: Env, c: Client, scheme: byte, p: Protocol, nonce: seq<byte>, rest: seq<byte>)
    requires !c.mode.Disabled? && |nonce| <= 4070 && (scheme != SchemeId(c.mode) || Mismatch(c.protocol, p).Some?)
    ensures ClientHalf(env, c, Framed(EncodeHello(scheme, p, nonce)) + rest) ==
            if scheme != SchemeId(c.mode) then Half([], Err(SchemeMismatch), rest)
            else Half(Framed(EncodeClientAuth(scheme, c.protocol, Proof(env, c, nonce))),
                      Err(Mismatch(c.protocol, p).value), rest)
  {
    hide TakePacket, OnHello, OnAck, Framed, WriteGreeting, Proof;
    HelloAnswered(env, c, scheme, p, nonce);
    TakeFramed(EncodeHello(scheme, p, nonce), rest);
  }

  /** A server that was sent an auth has sent its hello and an ack that tells its conclusion, and reads no further. */
  lemma AfterAuth(env: Env, s: Server, scheme: byte, p: Protocol, proof: seq<byte>, rest: seq<byte>)
      returns (reply: Reply)
    requires !s.mode.Disabled? && Opening(s).Ok? && |proof| <= 4070
    ensures Tells(reply, AuthResult(env, s, scheme, p, proof))
    ensures ServerHalf(env, s, Framed(EncodeClientAuth(scheme, p, proof)) + rest)
         == Half(Framed(Hello(s)) + Framed(reply.ack.value), Learned(AuthResult(env, s, scheme, p, proof)), rest)
  {
    hide TakePacket, OnAuth, Framed, WriteGreeting, AuthResult, IsAck, IsRejection;
    AuthAnswered(env, s, scheme, p, proof);
    TakeFramed(EncodeClientAuth(scheme, p, proof), rest);
    reply := OnAuth(env, s, EncodeClientAuth(scheme, p, proof));
  }

  /** An ack in place of the hello: a rejection is reported as one, an acceptance as malformed, and nothing is sent. */
  lemma AckInPlaceOfHello(env: Env, c: Client, status: byte, reason: seq<byte>)
    requires |reason| < 0x1_0000
    ensures OnHello(env, c, EncodeAck(status, reason)) == Stop(if status == 0 then MalformedPacket else Rejected)
  {
    DecodesBack(0, c.protocol, reason, status);
    AckParts(Ack(TAG_ACK, status, reason));
    hide WriteAck, DecodeAck, DecodeHello, PacketVersion;
  }

  /** The same on the stream, with the longest reason that arrives: a longer packet is not read at all. */
  lemma AckInPlaceOfHelloArrives(env: Env, c: Client, status: byte, reason: seq<byte>, rest: seq<byte>)
    requires !c.mode.Disabled? && 4 + |reason| < 0x1_0000_0000
    ensures var half := ClientHalf(env, c, Framed(EncodeAck(status, reason)) + rest);
            && half.out == []
            && half.result == Err(if status != 0 && |reason| <= 4092 then Rejected else MalformedPacket)
            && (|reason| <= 4092 ==> half.rest == rest)
  {
    hide TakePacket, OnHello, WriteAck, Framed;
    var body := EncodeAck(status, reason);
    if |reason| <= 4092 {
      AckInPlaceOfHello(env, c, status, reason);
      TakeFramed(body, rest);
    } else {
      FramedLength(body, rest);
      TakesExactly(Framed(body) + rest, [], []);
    }
  }

  lemma FramedLength(body: seq<byte>, rest: seq<byte>)
    requires |body| < 0x1_0000_0000
    ensures Announced(Framed(body) + rest) == |body|
  {
    hide Announced, FromLE, LE;
    Pow256Values();
    FromLEOfLE(4, |body|);
    AnnouncedIs(Framed(body) + rest);
    assert (Framed(body) + rest)[..4] == LE(4, |body|);
  }

  /** Turns a connection away before any handshake. */
  method RejectConnection(conn: Conn, reason: seq<byte>) returns (ok: bool)
    modifies conn`sent
    ensures ok ==> conn.sent == old(conn.sent) + Framed(EncodeAck(ACK_REJECTED, reason))
    ensures conn.source.reliable ==> ok
  {
    ok := conn.WritePacket(EncodeAck(ACK_REJECTED, reason));
  }
}
