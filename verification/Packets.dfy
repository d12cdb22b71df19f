/** The handshake's packets and their binary form, as `src/auth/handshake.rs` writes and reads them. */
module Packets {
  import opened Bytes

  type u16 = x: int | 0 <= x < 0x1_0000
  type u32 = x: int | 0 <= x < 0x1_0000_0000
  type u64 = x: int | 0 <= x < 0x1_0000_0000_0000_0000

  const HANDSHAKE_VERSION: u16 := 3
  const MAX_PACKET_LEN: nat := 4096
  const NONCE_LEN: nat := 32
  const TAG_HELLO: byte := 1
  const TAG_CLIENT_AUTH: byte := 2
  const TAG_ACK: byte := 3
  const ACK_OK: byte := 0
  const ACK_REJECTED: byte := 1

  datatype HandshakeError =
    | UnsupportedVersion | SchemeMismatch | ProtocolMismatch | IncompatibleVersion | InvalidProof | Rejected
    | Timeout | MalformedPacket | PeerAttestationUnavailable | SignedProcessVerificationFailed | Io

  datatype Result<+T> = Ok(value: T) | Err(error: HandshakeError)

  datatype Version = Version(major: u32, minor: u32, patch: u32)

  datatype Protocol = Protocol(id: u64, version: Version)

  /** Hello and client-auth packets have the same shape; only the tag tells them apart. */
  datatype Greeting = Greeting(tag: byte, version: u16, scheme: byte, protocol: Protocol, payload: seq<byte>)

  datatype Ack = Ack(tag: byte, status: byte, reason: seq<byte>)

  function U16At(s: seq<byte>, i: nat): u16
    requires i + 2 <= |s|
  {
    FromLEBound(s[i..i + 2]);
    Pow256Values();
    FromLE(s[i..i + 2])
  }

  function U32At(s: seq<byte>, i: nat): u32
    requires i + 4 <= |s|
  {
    FromLEBound(s[i..i + 4]);
    Pow256Values();
    FromLE(s[i..i + 4])
  }

  function U64At(s: seq<byte>, i: nat): u64
    requires i + 8 <= |s|
  {
    FromLEBound(s[i..i + 8]);
    Pow256Values();
    FromLE(s[i..i + 8])
  }

  function WriteProtocol(p: Protocol): (s: seq<byte>)
    ensures |s| == 20
  {
    LE(8, p.id) + LE(4, p.version.major) + LE(4, p.version.minor) + LE(4, p.version.patch)
  }

  function ReadProtocol(s: seq<byte>): Protocol
    requires |s| == 20
  {
    Protocol(U64At(s, 0), Version(U32At(s, 8), U32At(s, 12), U32At(s, 16)))
  }

  /** The payload length is narrowed to 16 bits; the payload itself is not. */
  function WriteGreeting(g: Greeting): (s: seq<byte>)
    ensures |s| == 26 + |g.payload|
  {
    [g.tag] + LE(2, g.version) + [g.scheme] + WriteProtocol(g.protocol) + LE(2, |g.payload|) + g.payload
  }

  function ReadGreeting(s: seq<byte>): Option<Greeting> {
    if |s| < 26 || |s| != 26 + U16At(s, 24) then None
    else Some(Greeting(s[0], U16At(s, 1), s[3], ReadProtocol(s[4..24]), s[26..]))
  }

  function WriteAck(a: Ack): (s: seq<byte>)
    ensures |s| == 4 + |a.reason|
  {
    [a.tag, a.status] + LE(2, |a.reason|) + a.reason
  }

  function ReadAck(s: seq<byte>): Option<Ack> {
    if |s| < 4 || |s| != 4 + U16At(s, 2) then None
    else Some(Ack(s[0], s[1], s[4..]))
  }

  function PacketVersion(body: seq<byte>): Option<u16> {
    if |body| < 3 then None else Some(U16At(body, 1))
  }

  function EncodeHello(scheme: byte, p: Protocol, nonce: seq<byte>): seq<byte> {
    WriteGreeting(Greeting(TAG_HELLO, HANDSHAKE_VERSION, scheme, p, nonce))
  }

  function EncodeClientAuth(scheme: byte, p: Protocol, proof: seq<byte>): seq<byte> {
    WriteGreeting(Greeting(TAG_CLIENT_AUTH, HANDSHAKE_VERSION, scheme, p, proof))
  }

  function EncodeAck(status: byte, reason: seq<byte>): seq<byte> {
    WriteAck(Ack(TAG_ACK, status, reason))
  }

  function DecodeGreeting(tag: byte, body: seq<byte>): Result<Greeting> {
    match ReadGreeting(body)
    case None => Err(MalformedPacket)
    case Some(g) => if g.tag != tag then Err(MalformedPacket) else Ok(g)
  }

  function DecodeHello(body: seq<byte>): Result<Greeting> { DecodeGreeting(TAG_HELLO, body) }

  function DecodeClientAuth(body: seq<byte>): Result<Greeting> { DecodeGreeting(TAG_CLIENT_AUTH, body) }

  function DecodeAck(body: seq<byte>): Result<()> {
    match ReadAck(body)
    case None => Err(MalformedPacket)
    case Some(a) =>
      if a.tag != TAG_ACK then Err(MalformedPacket)
      else if a.status == ACK_OK then Ok(())
      else Err(Rejected)
  }

  // ---- the codecs are inverse -----------------------------------------------------------------------------------

  lemma TwoDigits(x: nat)
    ensures x % 256 + 256 * (x / 256 % 256) == x % 0x1_0000
  {
    var low, high, above := x % 256, x / 256 % 256, x / 256 / 256;
    assert x == 0x1_0000 * above + (low + 256 * high);
  }

  lemma U16OfLE(x: nat)
    ensures FromLE(LE(2, x)) == x % 0x1_0000
  {
    TwoDigits(x);
    var low: byte, high: byte := x % 256, x / 256 % 256;
    assert LE(2, x) == [low] + LE(1, x / 256);
    assert LE(2, x)[1..] == LE(1, x / 256);
    assert LE(1, x / 256) == [high] + LE(0, x / 256 / 256);
    assert LE(1, x / 256)[1..] == [];
    assert FromLE(LE(1, x / 256)) == high;
  }

  /** Where the fields of a protocol stand. */
  lemma ProtocolParts(p: Protocol)
    ensures var s := WriteProtocol(p);
            && s[0..8] == LE(8, p.id) && s[8..12] == LE(4, p.version.major)
            && s[12..16] == LE(4, p.version.minor) && s[16..20] == LE(4, p.version.patch)
  {
    hide LE;
  }

  lemma ProtocolRoundTrip(p: Protocol)
    ensures ReadProtocol(WriteProtocol(p)) == p
  {
    ProtocolParts(p);
    Pow256Values();
    FromLEOfLE(8, p.id);
    FromLEOfLE(4, p.version.major);
    FromLEOfLE(4, p.version.minor);
    FromLEOfLE(4, p.version.patch);
  }

  lemma ProtocolBytes(s: seq<byte>)
    requires |s| == 20
    ensures WriteProtocol(ReadProtocol(s)) == s
  {
    LEOfFromLE(s[0..8]);
    LEOfFromLE(s[8..12]);
    LEOfFromLE(s[12..16]);
    LEOfFromLE(s[16..20]);
    assert s == s[0..8] + s[8..12] + s[12..16] + s[16..20];
  }

  lemma GreetingParts(g: Greeting)
    ensures var s := WriteGreeting(g);
            && s[0] == g.tag && s[1..3] == LE(2, g.version) && s[3] == g.scheme
            && s[4..24] == WriteProtocol(g.protocol) && s[24..26] == LE(2, |g.payload|) && s[26..] == g.payload
  {
    hide LE, WriteProtocol;
  }

  /** Reading back a written greeting gives it unchanged exactly when its payload length fits the length field. */
  lemma GreetingRoundTrip(g: Greeting)
    ensures ReadGreeting(WriteGreeting(g)) == Some(g) <==> |g.payload| < 0x1_0000
    ensures |g.payload| >= 0x1_0000 ==> ReadGreeting(WriteGreeting(g)) == None
    ensures PacketVersion(WriteGreeting(g)) == Some(g.version)
  {
    GreetingParts(g);
    hide LE, WriteProtocol, WriteGreeting, ReadProtocol, FromLE;
    U16OfLE(|g.payload|);
    U16OfLE(g.version);
    ProtocolRoundTrip(g.protocol);
  }

  /** An accepted body is the one its fields write to. */
  lemma GreetingBytes(s: seq<byte>)
    requires ReadGreeting(s).Some?
    ensures WriteGreeting(ReadGreeting(s).value) == s
  {
    LEOfFromLE(s[1..3]);
    LEOfFromLE(s[24..26]);
    ProtocolBytes(s[4..24]);
    hide LE, WriteProtocol, ReadProtocol, FromLE;
    assert s == [s[0]] + s[1..3] + [s[3]] + s[4..24] + s[24..26] + s[26..];
  }

  lemma AckParts(a: Ack)
    ensures var s := WriteAck(a);
            s[0] == a.tag && s[1] == a.status && s[2..4] == LE(2, |a.reason|) && s[4..] == a.reason
  {
    hide LE;
  }

  lemma AckRoundTrip(a: Ack)
    ensures ReadAck(WriteAck(a)) == Some(a) <==> |a.reason| < 0x1_0000
    ensures |a.reason| >= 0x1_0000 ==> ReadAck(WriteAck(a)) == None
  {
    U16OfLE(|a.reason|);
    var s := WriteAck(a);
    assert s[2..4] == LE(2, |a.reason|);
    assert s[4..] == a.reason;
  }

  lemma AckBytes(s: seq<byte>)
    requires ReadAck(s).Some?
    ensures WriteAck(ReadAck(s).value) == s
  {
    LEOfFromLE(s[2..4]);
    assert s == [s[0], s[1]] + s[2..4] + s[4..];
  }

  /** A version-3 body that decodes as a hello is the encoding of its scheme, protocol and nonce, and likewise for the
      proof of a client-auth and the reason of an ack. */
  lemma DecodedBodiesReencode(body: seq<byte>)
    ensures DecodeHello(body).Ok? && PacketVersion(body) == Some(HANDSHAKE_VERSION) ==>
              var g := DecodeHello(body).value; EncodeHello(g.scheme, g.protocol, g.payload) == body
    ensures DecodeClientAuth(body).Ok? && PacketVersion(body) == Some(HANDSHAKE_VERSION) ==>
              var g := DecodeClientAuth(body).value; EncodeClientAuth(g.scheme, g.protocol, g.payload) == body
    ensures DecodeAck(body).Ok? ==> EncodeAck(ACK_OK, body[4..]) == body
  {
    hide WriteGreeting, WriteAck;
    if ReadGreeting(body).Some? { GreetingBytes(body); }
    if ReadAck(body).Some? { AckBytes(body); }
  }

  /** No body is accepted as two kinds of packet. */
  lemma OneKindOnly(body: seq<byte>)
    ensures !(DecodeHello(body).Ok? && DecodeClientAuth(body).Ok?)
    ensures !(DecodeHello(body).Ok? && (DecodeAck(body).Ok? || DecodeAck(body) == Err(Rejected)))
    ensures !(DecodeClientAuth(body).Ok? && (DecodeAck(body).Ok? || DecodeAck(body) == Err(Rejected)))
  {
  }

  lemma DecodesBack(scheme: byte, p: Protocol, payload: seq<byte>, status: byte)
    requires |payload| < 0x1_0000
    ensures DecodeHello(EncodeHello(scheme, p, payload))
         == Ok(Greeting(TAG_HELLO, HANDSHAKE_VERSION, scheme, p, payload))
    ensures DecodeClientAuth(EncodeClientAuth(scheme, p, payload))
         == Ok(Greeting(TAG_CLIENT_AUTH, HANDSHAKE_VERSION, scheme, p, payload))
    ensures PacketVersion(EncodeHello(scheme, p, payload)) == Some(HANDSHAKE_VERSION)
    ensures PacketVersion(EncodeClientAuth(scheme, p, payload)) == Some(HANDSHAKE_VERSION)
    ensures DecodeAck(EncodeAck(status, payload)) == if status == ACK_OK then Ok(()) else Err(Rejected)
  {
    GreetingRoundTrip(Greeting(TAG_HELLO, HANDSHAKE_VERSION, scheme, p, payload));
    GreetingRoundTrip(Greeting(TAG_CLIENT_AUTH, HANDSHAKE_VERSION, scheme, p, payload));
    AckRoundTrip(Ack(TAG_ACK, status, payload));
    hide WriteGreeting, WriteAck, ReadGreeting, ReadAck, PacketVersion;
  }

  // ---- frames ---------------------------------------------------------------------------------------------------

  /** A packet on the wire: its body after a 32-bit length. */
  function Framed(body: seq<byte>): (s: seq<byte>)
    ensures |s| == 4 + |body|
  {
    LE(4, |body|) + body
  }

  datatype Taken = Packet(body: seq<byte>, rest: seq<byte>) | TooLong | Truncated

  /** The first packet of a stream. */
  function TakePacket(s: seq<byte>): Taken {
    if |s| < 4 then Truncated
    else
      var len := FromLE(s[..4]);
      if len > MAX_PACKET_LEN then TooLong
      else if |s| < 4 + len then Truncated
      else Packet(s[4..4 + len], s[4 + len..])
  }

  /** How far reading a packet has come, given the bytes taken for it so far. */
  datatype Reading = NeedMore(count: nat) | Oversized | Complete(body: seq<byte>)

  function ReadingOf(got: seq<byte>): Reading {
    match TakePacket(got)
    case Packet(body, _) => Complete(body)
    case TooLong => Oversized
    case Truncated => NeedMore(if |got| < 4 then 4 - |got| else 4 + FromLE(got[..4]) - |got|)
  }

  /** More bytes do not change a packet that is there, nor one that is too long. */
  lemma TakeExtends(s: seq<byte>, t: seq<byte>)
    requires !TakePacket(s).Truncated?
    ensures TakePacket(s + t) == match TakePacket(s)
                                 case Packet(body, rest) => Packet(body, rest + t)
                                 case other => other
  {
    assert (s + t)[..4] == s[..4];
    var len := FromLE(s[..4]);
    if len <= MAX_PACKET_LEN {
      assert (s + t)[4..4 + len] == s[4..4 + len];
      assert (s + t)[4 + len..] == s[4 + len..] + t;
    }
  }

  /** A reader that asks for no more than it needs never takes a byte beyond its packet. */
  lemma BoundedReading(got: seq<byte>, more: seq<byte>)
    requires ReadingOf(got).NeedMore? && |more| <= ReadingOf(got).count
    ensures TakePacket(got + more).Packet? ==> TakePacket(got + more).rest == []
  {
    if |got| >= 4 { assert (got + more)[..4] == got[..4]; }
  }

  /** A reader that takes only as many bytes as it needs ends up with exactly one packet, whatever follows it. */
  lemma FrameReading(body: seq<byte>, got: seq<byte>)
    requires |body| <= MAX_PACKET_LEN && got <= Framed(body)
    ensures got == Framed(body) ==> ReadingOf(got) == Complete(body)
    ensures got != Framed(body) ==> ReadingOf(got).NeedMore? && 0 < ReadingOf(got).count <= |Framed(body)| - |got|
  {
    Pow256Values();
    FromLEOfLE(4, |body|);
    if |got| >= 4 { assert got[..4] == LE(4, |body|); }
    if got == Framed(body) { assert got[4..] == body; }
  }

  // ---- text of the reasons --------------------------------------------------------------------------------------

  function Digit(d: nat): char
    requires d < 16
  {
    "0123456789abcdef"[d]
  }

  function Decimal(n: nat): string {
    if n < 10 then [Digit(n)] else Decimal(n / 10) + [Digit(n % 10)]
  }

  function Pow10(k: nat): nat {
    if k == 0 then 1 else 10 * Pow10(k - 1)
  }

  lemma {:induction false} DecimalLength(n: nat, k: nat)
    requires k > 0 && n < Pow10(k)
    ensures |Decimal(n)| <= k
  {
    if n >= 10 {
      DecimalLength(n / 10, k - 1);
    }
  }

  function Hex(width: nat, n: nat): (s: string)
    ensures |s| == width
  {
    if width == 0 then "" else Hex(width - 1, n / 16) + [Digit(n % 16)]
  }

  function ShowVersion(v: Version): string {
    Decimal(v.major) + "." + Decimal(v.minor) + "." + Decimal(v.patch)
  }

  function ShowProtocol(p: Protocol): string {
    Hex(16, p.id) + " v" + ShowVersion(p.version)
  }

  lemma U32Length(n: u32)
    ensures |Decimal(n)| <= 10
  {
    assert Pow10(10) == 10 * Pow10(9) == 100 * Pow10(8) == 1000 * Pow10(7) == 10000 * Pow10(6);
    assert Pow10(6) == 10 * Pow10(5) == 100 * Pow10(4) == 1000 * Pow10(3) == 10000 * Pow10(2);
    assert Pow10(2) == 100;
    DecimalLength(n, 10);
  }

  lemma ShowLength(p: Protocol)
    ensures |ShowVersion(p.version)| <= 32 && |ShowProtocol(p)| <= 50
  {
    U32Length(p.version.major);
    U32Length(p.version.minor);
    U32Length(p.version.patch);
  }

  function Ascii(s: string): (bs: seq<byte>)
    ensures |bs| == |s|
  {
    seq(|s|, i requires 0 <= i < |s| => s[i] as int % 256)
  }
}
