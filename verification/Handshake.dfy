/** The decisions of the two handshake halves of `src/auth/handshake.rs`: what each side sends and concludes when a
    packet has arrived. HMAC and process attestation are arbitrary functions. */
module Handshake {
  import opened Bytes
  import opened Packets

  const HMAC_LABEL: string := "ogurpchik/handshake/v1"

  datatype Mode = Disabled | VersionOnly | HmacSha256(secret: seq<byte>) | SignedProcess(publicKey: seq<byte>)

  /** What lies outside the handshake: the MAC, and the verdict on a process that claims a signing key. */
  datatype Env = Env(hmac: (seq<byte>, seq<byte>) -> seq<byte>,
                     attest: (nat, seq<byte>) -> Option<HandshakeError>)

  /** The nonce is missing when the random source fails, the pid when the transport cannot name its peer. */
  datatype Server = Server(mode: Mode, protocol: Protocol, nonce: Option<seq<byte>>, pid: Option<nat>)

  datatype Client = Client(mode: Mode, protocol: Protocol)

  datatype Refusal = Refusal(error: HandshakeError, reason: string)

  function SchemeId(mode: Mode): byte {
    match mode
    case Disabled | VersionOnly => 0
    case HmacSha256(_) => 1
    case SignedProcess(_) => 2
  }

  function Incompatibility(local: Protocol, peer: Protocol): Option<Refusal> {
    if peer.id != local.id then
      Some(Refusal(ProtocolMismatch,
                   "peer speaks protocol " + ShowProtocol(peer) + ", this side " + ShowProtocol(local)))
    else if peer.version.major != local.version.major then
      Some(Refusal(IncompatibleVersion,
                   "peer speaks v" + ShowVersion(peer.version) + ", this side v" + ShowVersion(local.version)))
    else None
  }

  function Tag(env: Env, secret: seq<byte>, nonce: seq<byte>): seq<byte> {
    env.hmac(secret, Ascii(HMAC_LABEL) + LE(2, HANDSHAKE_VERSION) + nonce)
  }

  /** The server's first move: the body of its hello, or the error that keeps it from sending one. */
  function Opening(s: Server): Result<seq<byte>> {
    if s.mode.SignedProcess? && s.pid.None? then Err(PeerAttestationUnavailable)
    else if s.nonce.None? then Err(Io)
    else Ok(EncodeHello(SchemeId(s.mode), s.protocol, s.nonce.value))
  }

  /** A server's conclusion, and the ack it sends before it. */
  datatype Reply = Reply(ack: Option<seq<byte>>, result: Result<Version>)

  function Reject(error: HandshakeError, reason: string): Reply {
    Reply(Some(EncodeAck(ACK_REJECTED, Ascii(reason))), Err(error))
  }

  /** The check of the client's proof, by the server's mode. */
  function CheckProof(env: Env, s: Server, proof: seq<byte>): Option<Refusal>
    requires Opening(s).Ok?
  {
    match s.mode
    case HmacSha256(secret) =>
      if proof == Tag(env, secret, s.nonce.value) then None
      else Some(Refusal(InvalidProof, "invalid handshake proof"))
    case SignedProcess(key) =>
      (match env.attest(s.pid.value, key)
       case Some(error) => Some(Refusal(error, "signed-process verification failed"))
       case None => None)
    case _ =>
      if proof == [] then None else Some(Refusal(InvalidProof, "unexpected auth proof"))
  }

  function OnAuth(env: Env, s: Server, body: seq<byte>): Reply
    requires Opening(s).Ok?
  {
    var version := PacketVersion(body);
    if version.Some? && version.value != HANDSHAKE_VERSION then
      Reject(UnsupportedVersion,
             "unsupported handshake version: client=" + Decimal(version.value)
             + " server=" + Decimal(HANDSHAKE_VERSION))
    else
      match DecodeClientAuth(body)
      case Err(error) => Reply(None, Err(error))
      case Ok(auth) =>
        if auth.scheme != SchemeId(s.mode) then
          Reject(SchemeMismatch,
                 "handshake auth mismatch: client=" + Decimal(auth.scheme) + " server=" + Decimal(SchemeId(s.mode)))
        else
          match Incompatibility(s.protocol, auth.protocol)
          case Some(refusal) => Reject(refusal.error, refusal.reason)
          case None =>
            match CheckProof(env, s, auth.payload)
            case Some(refusal) => Reject(refusal.error, refusal.reason)
            case None => Reply(Some(EncodeAck(ACK_OK, [])), Ok(auth.protocol.version))
  }

  /** A client's move on a hello: give up, or send its auth and then either give up or wait for the ack. */
  datatype Move = Stop(error: HandshakeError) | Proceed(auth: seq<byte>, verdict: Result<Version>)

  function Proof(env: Env, c: Client, nonce: seq<byte>): seq<byte> {
    if c.mode.HmacSha256? then Tag(env, c.mode.secret, nonce) else []
  }

  function OnHello(env: Env, c: Client, body: seq<byte>): Move {
    var version := PacketVersion(body);
    if body != [] && body[0] == TAG_ACK then
      Stop(if DecodeAck(body).Err? then DecodeAck(body).error else MalformedPacket)
    else if version.Some? && version.value != HANDSHAKE_VERSION then Stop(UnsupportedVersion)
    else
      match DecodeHello(body)
      case Err(error) => Stop(error)
      case Ok(hello) =>
        if hello.scheme != SchemeId(c.mode) then Stop(SchemeMismatch)
        else
          Proceed(EncodeClientAuth(hello.scheme, c.protocol, Proof(env, c, hello.payload)),
                  match Incompatibility(c.protocol, hello.protocol)
                  case Some(refusal) => Err(refusal.error)
                  case None => Ok(hello.protocol.version))
  }

  function OnAck(body: seq<byte>, server: Version): Result<Version> {
    match DecodeAck(body)
    case Err(error) => Err(error)
    case Ok(_) => Ok(server)
  }

  // ---- what a handshake between two such sides should come to ---------------------------------------------------

  ghost predicate Honest(env: Env, s: Server, c: Client) {
    && !s.mode.Disabled? && !c.mode.Disabled?
    && (s.nonce.Some? ==> |s.nonce.value| == NONCE_LEN)
    && (forall k, m :: |env.hmac(k, m)| == 32)
  }

  /** The server has a nonce, and the identity of its peer if its mode needs one. */
  predicate CanOpen(s: Server) {
    s.nonce.Some? && (s.mode.SignedProcess? ==> s.pid.Some?)
  }

  /** The client's proof, or the operating system's word about it, satisfies the server. */
  predicate Proven(env: Env, s: Server, c: Client)
    requires CanOpen(s)
  {
    match (s.mode, c.mode)
    case (HmacSha256(ours), HmacSha256(theirs)) => Tag(env, theirs, s.nonce.value) == Tag(env, ours, s.nonce.value)
    case (SignedProcess(key), _) => env.attest(s.pid.value, key).None?
    case _ => true
  }

  /** The condition for two sides to connect. */
  predicate Compatible(env: Env, s: Server, c: Client) {
    && CanOpen(s)
    && SchemeId(s.mode) == SchemeId(c.mode)
    && s.protocol.id == c.protocol.id
    && s.protocol.version.major == c.protocol.version.major
    && Proven(env, s, c)
  }

  function Mismatch(s: Protocol, c: Protocol): Option<HandshakeError> {
    if s.id != c.id then Some(ProtocolMismatch)
    else if s.version.major != c.version.major then Some(IncompatibleVersion)
    else None
  }

  function ServerOutcome(env: Env, s: Server, c: Client): Result<Version> {
    if !CanOpen(s) then Err(if s.mode.SignedProcess? && s.pid.None? then PeerAttestationUnavailable else Io)
    else if SchemeId(s.mode) != SchemeId(c.mode) then Err(Io)
    else if Mismatch(s.protocol, c.protocol).Some? then Err(Mismatch(s.protocol, c.protocol).value)
    else if Proven(env, s, c) then Ok(c.protocol.version)
    else if s.mode.SignedProcess? then Err(env.attest(s.pid.value, s.mode.publicKey).value)
    else Err(InvalidProof)
  }

  function ClientOutcome(env: Env, s: Server, c: Client): Result<Version> {
    if !CanOpen(s) then Err(Io)
    else if SchemeId(s.mode) != SchemeId(c.mode) then Err(SchemeMismatch)
    else if Mismatch(s.protocol, c.protocol).Some? then Err(Mismatch(s.protocol, c.protocol).value)
    else if Proven(env, s, c) then Ok(s.protocol.version)
    else Err(Rejected)
  }

  /** One side succeeds exactly when the other does, and exactly when the two are compatible. Each then learns the
      other's version. */
  lemma OutcomesAgree(env: Env, s: Server, c: Client)
    ensures ServerOutcome(env, s, c).Ok? <==> Compatible(env, s, c)
    ensures ClientOutcome(env, s, c).Ok? <==> Compatible(env, s, c)
    ensures Compatible(env, s, c) ==>
              ServerOutcome(env, s, c) == Ok(c.protocol.version) && ClientOutcome(env, s, c) == Ok(s.protocol.version)
    ensures CanOpen(s) && SchemeId(s.mode) == SchemeId(c.mode) && Mismatch(s.protocol, c.protocol).Some? ==>
              ServerOutcome(env, s, c) == ClientOutcome(env, s, c) == Err(Mismatch(s.protocol, c.protocol).value)
  {
  }

  lemma IncompatibilityIsMismatch(local: Protocol, peer: Protocol)
    ensures Incompatibility(local, peer).Some? <==> Mismatch(local, peer).Some?
    ensures Mismatch(local, peer) == Mismatch(peer, local)
    ensures Mismatch(local, peer).Some? ==>
              && Incompatibility(local, peer).value.error == Mismatch(local, peer).value
              && |Incompatibility(local, peer).value.reason| <= 200
  {
    ShowLength(local);
    ShowLength(peer);
    hide ShowProtocol, ShowVersion;
  }

  // ---- the packets honest sides exchange ------------------------------------------------------------------------

  function Hello(s: Server): seq<byte>
    requires Opening(s).Ok?
  {
    Opening(s).value
  }

  function Auth(env: Env, s: Server, c: Client): seq<byte>
    requires Opening(s).Ok?
  {
    EncodeClientAuth(SchemeId(s.mode), c.protocol, Proof(env, c, s.nonce.value))
  }

  lemma HelloIsUnderstood(env: Env, s: Server, c: Client)
    requires Honest(env, s, c) && Opening(s).Ok?
    ensures |Hello(s)| <= MAX_PACKET_LEN
    ensures OnHello(env, c, Hello(s)) ==
            if SchemeId(s.mode) != SchemeId(c.mode) then Stop(SchemeMismatch)
            else Proceed(Auth(env, s, c),
                         if Mismatch(s.protocol, c.protocol).Some? then Err(Mismatch(s.protocol, c.protocol).value)
                         else Ok(s.protocol.version))
  {
    DecodesBack(SchemeId(s.mode), s.protocol, s.nonce.value, 0);
    IncompatibilityIsMismatch(c.protocol, s.protocol);
    hide DecodeHello, PacketVersion, Incompatibility, EncodeClientAuth, Proof;
    assert Hello(s)[0] == TAG_HELLO;
  }

  lemma AuthIsUnderstood(env: Env, s: Server, c: Client)
    requires Honest(env, s, c) && Opening(s).Ok? && SchemeId(s.mode) == SchemeId(c.mode)
    ensures |Auth(env, s, c)| <= MAX_PACKET_LEN
    ensures OnAuth(env, s, Auth(env, s, c)).result == ServerOutcome(env, s, c)
    ensures var ack := OnAuth(env, s, Auth(env, s, c)).ack;
            && ack.Some? && |ack.value| <= MAX_PACKET_LEN
            && DecodeAck(ack.value) == if ServerOutcome(env, s, c).Ok? then Ok(()) else Err(Rejected)
  {
    DecodesBack(SchemeId(s.mode), c.protocol, Proof(env, c, s.nonce.value), 0);
    IncompatibilityIsMismatch(s.protocol, c.protocol);
    CheckIsProven(env, s, c);
    hide DecodeClientAuth, PacketVersion, Incompatibility, DecodeAck, EncodeClientAuth, EncodeAck;
    hide CheckProof, Proof, Proven;
    DecodesBack(0, c.protocol, [], ACK_OK);
    AckOfReject("invalid handshake proof");
    AckOfReject("signed-process verification failed");
    if Incompatibility(s.protocol, c.protocol).Some? {
      AckOfReject(Incompatibility(s.protocol, c.protocol).value.reason);
    }
  }

  lemma CheckIsProven(env: Env, s: Server, c: Client)
    requires Honest(env, s, c) && Opening(s).Ok? && SchemeId(s.mode) == SchemeId(c.mode)
    ensures |Proof(env, c, s.nonce.value)| <= 32
    ensures CheckProof(env, s, Proof(env, c, s.nonce.value)) ==
            if Proven(env, s, c) then None
            else if s.mode.SignedProcess? then
              Some(Refusal(env.attest(s.pid.value, s.mode.publicKey).value, "signed-process verification failed"))
            else Some(Refusal(InvalidProof, "invalid handshake proof"))
  {
  }

  lemma AckOfReject(reason: string)
    requires |reason| <= 4000
    ensures |EncodeAck(ACK_REJECTED, Ascii(reason))| <= MAX_PACKET_LEN
    ensures DecodeAck(EncodeAck(ACK_REJECTED, Ascii(reason))) == Err(Rejected)
  {
    DecodesBack(0, Protocol(0, Version(0, 0, 0)), Ascii(reason), ACK_REJECTED);
  }

  /** Whatever a peer sends, every packet either side emits fits the packet limit. */
  lemma EmittedPacketsFit(env: Env, s: Server, c: Client, body: seq<byte>)
    requires Honest(env, s, c)
    ensures Opening(s).Ok? ==> |Hello(s)| <= MAX_PACKET_LEN
    ensures Opening(s).Ok? && OnAuth(env, s, body).ack.Some? ==> |OnAuth(env, s, body).ack.value| <= MAX_PACKET_LEN
    ensures OnHello(env, c, body).Proceed? ==> |OnHello(env, c, body).auth| <= MAX_PACKET_LEN
  {
    hide ShowProtocol, ShowVersion, Decimal;
    if PacketVersion(body).Some? { U32Length(PacketVersion(body).value); }
    U32Length(HANDSHAKE_VERSION);
    U32Length(SchemeId(s.mode));
    if ReadGreeting(body).Some? {
      var g := ReadGreeting(body).value;
      U32Length(g.scheme);
      IncompatibilityIsMismatch(s.protocol, g.protocol);
      hide Incompatibility;
    }
  }

  /** The proof a server of this mode asks for, spelled out. */
  ghost predicate ProofHolds(env: Env, s: Server, proof: seq<byte>)
    requires Opening(s).Ok?
  {
    match s.mode
    case HmacSha256(secret) => proof == env.hmac(secret, Ascii("ogurpchik/handshake/v1") + [3, 0] + s.nonce.value)
    case SignedProcess(key) => env.attest(s.pid.value, key) == None
    case _ => proof == []
  }

  ghost predicate SameLine(a: Protocol, b: Protocol) {
    a.id == b.id && a.version.major == b.version.major
  }

  ghost predicate IsGoodAuth(env: Env, s: Server, body: seq<byte>, p: Protocol, proof: seq<byte>)
    requires Opening(s).Ok?
  {
    && |proof| < 0x1_0000
    && body == EncodeClientAuth(SchemeId(s.mode), p, proof)
    && SameLine(s.protocol, p)
    && ProofHolds(env, s, proof)
  }

  lemma CheckProofIs(env: Env, s: Server, proof: seq<byte>)
    requires Opening(s).Ok?
    ensures CheckProof(env, s, proof) == None <==> ProofHolds(env, s, proof)
  {
    assert LE(2, 3) == [3] + LE(1, 0) == [3, 0];
  }

  /** Against any peer, a server accepts a body with version `v` exactly when the body is the encoding of a client of
      that version, with the server's scheme, protocol id and major, and a proof that holds. */
  lemma ServerAcceptsExactly(env: Env, s: Server, body: seq<byte>, v: Version)
    requires Opening(s).Ok?
    ensures OnAuth(env, s, body).result == Ok(v)
       <==> exists p: Protocol, proof: seq<byte> :: p.version == v && IsGoodAuth(env, s, body, p, proof)
  {
    hide CheckProof, ProofHolds, EncodeClientAuth, DecodeClientAuth, PacketVersion, ShowProtocol, ShowVersion;
    if OnAuth(env, s, body).result == Ok(v) {
      var g := DecodeClientAuth(body).value;
      GoodBody(body);
      CheckProofIs(env, s, g.payload);
      assert IsGoodAuth(env, s, body, g.protocol, g.payload);
    }
    forall p: Protocol, proof: seq<byte> | p.version == v && IsGoodAuth(env, s, body, p, proof)
      ensures OnAuth(env, s, body).result == Ok(v)
    {
      DecodesBack(SchemeId(s.mode), p, proof, 0);
      CheckProofIs(env, s, proof);
    }
  }

  lemma GoodBody(body: seq<byte>)
    ensures DecodeClientAuth(body).Ok? ==>
              PacketVersion(body).Some? && |DecodeClientAuth(body).value.payload| < 0x1_0000
    ensures DecodeHello(body).Ok? ==> PacketVersion(body).Some? && |DecodeHello(body).value.payload| < 0x1_0000
    ensures DecodeClientAuth(body).Ok? && PacketVersion(body) == Some(HANDSHAKE_VERSION) ==>
              var g := DecodeClientAuth(body).value; EncodeClientAuth(g.scheme, g.protocol, g.payload) == body
    ensures DecodeHello(body).Ok? && PacketVersion(body) == Some(HANDSHAKE_VERSION) ==>
              var g := DecodeHello(body).value; EncodeHello(g.scheme, g.protocol, g.payload) == body
    ensures DecodeHello(body).Ok? ==> body[0] == TAG_HELLO
  {
    DecodedBodiesReencode(body);
  }

  ghost predicate IsGoodHello(c: Client, body: seq<byte>, p: Protocol, nonce: seq<byte>) {
    |nonce| < 0x1_0000 && body == EncodeHello(SchemeId(c.mode), p, nonce) && SameLine(c.protocol, p)
  }

  /** Against any peer, a client goes on to wait for the ack of a server of version `v` exactly when it was sent the
      encoding of a hello of that version, with its own scheme, protocol id and major; its answer is then the proof of
      that hello's nonce. */
  lemma ClientProceedsExactly(env: Env, c: Client, body: seq<byte>, v: Version, auth: seq<byte>)
    ensures OnHello(env, c, body) == Proceed(auth, Ok(v))
       <==> exists p: Protocol, nonce: seq<byte> ::
              && p.version == v && IsGoodHello(c, body, p, nonce)
              && auth == EncodeClientAuth(SchemeId(c.mode), c.protocol, Proof(env, c, nonce))
  {
    hide Proof, EncodeClientAuth, EncodeHello, DecodeHello, PacketVersion, ShowProtocol, ShowVersion, DecodeAck;
    if OnHello(env, c, body) == Proceed(auth, Ok(v)) {
      var g := DecodeHello(body).value;
      GoodBody(body);
      assert IsGoodHello(c, body, g.protocol, g.payload);
    }
    forall p: Protocol, nonce: seq<byte>
      | && p.version == v && IsGoodHello(c, body, p, nonce)
        && auth == EncodeClientAuth(SchemeId(c.mode), c.protocol, Proof(env, c, nonce))
      ensures OnHello(env, c, body) == Proceed(auth, Ok(v))
    {
      DecodesBack(SchemeId(c.mode), p, nonce, 0);
      GoodBody(body);
    }
  }

  /** A peer of another handshake version is told so, whatever the rest of its packet looks like. */
  lemma OtherVersionsAreNamed(env: Env, s: Server, c: Client, tag: byte, version: u16, tail: seq<byte>)
    requires version != HANDSHAKE_VERSION
    ensures var body := [tag] + LE(2, version) + tail;
            && (Opening(s).Ok? ==>
                  && OnAuth(env, s, body).result == Err(UnsupportedVersion)
                  && OnAuth(env, s, body).ack.Some? && DecodeAck(OnAuth(env, s, body).ack.value) == Err(Rejected))
            && (tag != TAG_ACK ==> OnHello(env, c, body) == Stop(UnsupportedVersion))
  {
    VersionOf(tag, version, tail);
    U32Length(version);
    U32Length(HANDSHAKE_VERSION);
    hide Decimal, DecodeAck, LE, PacketVersion, DecodeClientAuth, DecodeHello, CheckProof, Incompatibility, EncodeAck;
    AckOfReject("unsupported handshake version: client=" + Decimal(version) + " server=" + Decimal(HANDSHAKE_VERSION));
  }

  lemma VersionOf(tag: byte, version: u16, tail: seq<byte>)
    ensures var body := [tag] + LE(2, version) + tail;
            body[0] == tag && PacketVersion(body) == Some(version)
  {
    hide LE, FromLE;
    Parts([tag], LE(2, version), tail);
    U16OfLE(version);
  }
}
