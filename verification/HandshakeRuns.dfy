/** Two handshake halves connected by two byte channels, run in any interleaving and with every fragmentation of the
    channels, up to and beyond the point where both start sending RPC bytes. */
module HandshakeRuns {
  import opened Bytes
  import opened Packets
  import opened Handshake
  import Wire
  import Framing

  datatype ServerState = Unopened | AwaitAuth(got: seq<byte>) | ServerDone(result: Result<Version>)

  datatype ClientState =
    | AwaitHello(got: seq<byte>)
    | AwaitAck(got: seq<byte>, server: Version)
    | ClientDone(result: Result<Version>)

  /** The local states, the bytes in flight each way, the RPC bytes each side has sent so far, and all bytes it has. */
  datatype State = State(server: ServerState, client: ClientState, toClient: seq<byte>, toServer: seq<byte>,
                         serverRpc: seq<byte>, clientRpc: seq<byte>, fromServer: seq<byte>, fromClient: seq<byte>)
  {
    function ServerWrites(bs: seq<byte>): State {
      this.(toClient := toClient + bs, fromServer := fromServer + bs)
    }

    function ClientWrites(bs: seq<byte>): State {
      this.(toServer := toServer + bs, fromClient := fromClient + bs)
    }
  }

  datatype Action =
    | ServerOpens
    | ServerReads(n: nat)
    | ServerSeesEnd
    | ClientReads(n: nat)
    | ClientSeesEnd
    | ServerSends(rpc: seq<byte>)
    | ClientSends(rpc: seq<byte>)

  const INITIAL: State := State(Unopened, AwaitHello([]), [], [], [], [], [], [])

  /** A side that failed has closed its connection. */
  predicate ServerClosed(st: State) { st.server.ServerDone? && st.server.result.Err? }

  predicate ClientClosed(st: State) { st.client.ClientDone? && st.client.result.Err? }

  /** A read takes some bytes, never more than the packet it is reading still needs. */
  predicate CanRead(got: seq<byte>, channel: seq<byte>, n: nat) {
    0 < n <= |channel| && ReadingOf(got).NeedMore? && n <= ReadingOf(got).count
  }

  predicate Enabled(s: Server, st: State, a: Action) {
    match a
    case ServerOpens => st.server.Unopened?
    case ServerReads(n) => st.server.AwaitAuth? && Opening(s).Ok? && CanRead(st.server.got, st.toServer, n)
    case ServerSeesEnd => st.server.AwaitAuth? && st.toServer == [] && ClientClosed(st)
    case ClientReads(n) => !st.client.ClientDone? && CanRead(st.client.got, st.toClient, n)
    case ClientSeesEnd => !st.client.ClientDone? && st.toClient == [] && ServerClosed(st)
    case ServerSends(_) => st.server.ServerDone? && st.server.result.Ok?
    case ClientSends(_) => st.client.ClientDone? && st.client.result.Ok?
  }

  function AfterServerRead(env: Env, s: Server, st: State, got: seq<byte>, rest: seq<byte>): State
    requires Opening(s).Ok?
  {
    match ReadingOf(got)
    case NeedMore(_) => st.(server := AwaitAuth(got), toServer := rest)
    case Oversized => st.(server := ServerDone(Err(MalformedPacket)), toServer := rest)
    case Complete(body) =>
      var reply := OnAuth(env, s, body);
      var done := st.(server := ServerDone(reply.result), toServer := rest);
      if reply.ack.Some? then done.ServerWrites(Framed(reply.ack.value)) else done
  }

  function AfterClientRead(env: Env, c: Client, st: State, got: seq<byte>, rest: seq<byte>): State
    requires !st.client.ClientDone?
  {
    match ReadingOf(got)
    case NeedMore(_) =>
      st.(client := if st.client.AwaitHello? then AwaitHello(got) else AwaitAck(got, st.client.server),
          toClient := rest)
    case Oversized => st.(client := ClientDone(Err(MalformedPacket)), toClient := rest)
    case Complete(body) =>
      if st.client.AwaitAck? then st.(client := ClientDone(OnAck(body, st.client.server)), toClient := rest)
      else
        match OnHello(env, c, body)
        case Stop(error) => st.(client := ClientDone(Err(error)), toClient := rest)
        case Proceed(auth, verdict) =>
          st.(client := if verdict.Ok? then AwaitAck([], verdict.value) else ClientDone(Err(verdict.error)),
              toClient := rest).ClientWrites(Framed(auth))
  }

  function Step(env: Env, s: Server, c: Client, st: State, a: Action): State
    requires Enabled(s, st, a)
  {
    match a
    case ServerOpens =>
      (match Opening(s)
       case Err(error) => st.(server := ServerDone(Err(error)))
       case Ok(hello) => st.(server := AwaitAuth([])).ServerWrites(Framed(hello)))
    case ServerReads(n) => AfterServerRead(env, s, st, st.server.got + st.toServer[..n], st.toServer[n..])
    case ServerSeesEnd => st.(server := ServerDone(Err(Io)))
    case ClientReads(n) => AfterClientRead(env, c, st, st.client.got + st.toClient[..n], st.toClient[n..])
    case ClientSeesEnd => st.(client := ClientDone(Err(Io)))
    case ServerSends(rpc) => st.(serverRpc := st.serverRpc + rpc).ServerWrites(rpc)
    case ClientSends(rpc) => st.(clientRpc := st.clientRpc + rpc).ClientWrites(rpc)
  }

  /** `states` is a run from the initial state under `actions`. */
  ghost predicate IsRun(env: Env, s: Server, c: Client, states: seq<State>, actions: seq<Action>) {
    && |states| == |actions| + 1 && states[0] == INITIAL
    && forall i :: 0 <= i < |actions| ==>
                     Enabled(s, states[i], actions[i]) && states[i + 1] == Step(env, s, c, states[i], actions[i])
  }

  // ---- what every reachable state looks like --------------------------------------------------------------------

  ghost predicate Silent(st: State) {
    st.serverRpc == [] && st.clientRpc == []
  }

  /** The server could not open: nothing is ever sent. */
  ghost predicate NeverOpened(s: Server, st: State)
    requires Opening(s).Err?
  {
    && st.toClient == [] && st.toServer == [] && Silent(st)
    && st.server == ServerDone(Err(Opening(s).error))
    && (st.client == AwaitHello([]) || st.client == ClientDone(Err(Io)))
  }

  /** The client is still reading the hello. */
  ghost predicate HelloUnderWay(s: Server, st: State)
    requires Opening(s).Ok?
  {
    && st.server == AwaitAuth([]) && st.toServer == [] && Silent(st)
    && st.client.AwaitHello? && st.client.got + st.toClient == Framed(Hello(s))
    && st.client.got != Framed(Hello(s))
  }

  /** The client turned away on the hello, without a word. */
  ghost predicate TurnedAway(st: State, error: HandshakeError) {
    && st.toClient == [] && st.toServer == [] && Silent(st)
    && st.client == ClientDone(Err(error))
    && (st.server == AwaitAuth([]) || st.server == ServerDone(Err(Io)))
  }

  /** The client has sent its auth and the server is reading it. */
  ghost predicate AuthUnderWay(env: Env, s: Server, c: Client, st: State, verdict: Result<Version>)
    requires Opening(s).Ok?
  {
    && st.toClient == [] && Silent(st)
    && st.server.AwaitAuth? && st.server.got + st.toServer == Framed(Auth(env, s, c))
    && st.server.got != Framed(Auth(env, s, c))
    && st.client == if verdict.Ok? then AwaitAck([], verdict.value) else ClientDone(Err(verdict.error))
  }

  /** The server has answered; what is left on each channel is the ack, as far as it is unread, and then RPC bytes. */
  ghost predicate Answered(env: Env, s: Server, c: Client, st: State, verdict: Result<Version>)
    requires Opening(s).Ok? && OnAuth(env, s, Auth(env, s, c)).ack.Some?
  {
    var reply := OnAuth(env, s, Auth(env, s, c));
    && st.server == ServerDone(reply.result) && st.toServer == st.clientRpc
    && (reply.result.Err? ==> st.serverRpc == [])
    && (verdict.Err? ==> st.client == ClientDone(Err(verdict.error)) && st.clientRpc == [])
    && (verdict.Ok? ==>
          if st.client.ClientDone? then
            && st.client.result == OnAck(reply.ack.value, verdict.value) && st.toClient == st.serverRpc
            && (st.client.result.Err? ==> st.clientRpc == [])
          else
            && st.client.AwaitAck? && st.client.server == verdict.value && st.clientRpc == []
            && st.client.got + st.toClient == Framed(reply.ack.value) + st.serverRpc
            && st.client.got < Framed(reply.ack.value))
  }

  ghost predicate Inv(env: Env, s: Server, c: Client, st: State) {
    if st.server.Unopened? then st == INITIAL
    else if Opening(s).Err? then NeverOpened(s, st)
    else
      || HelloUnderWay(s, st)
      || match OnHello(env, c, Hello(s))
         case Stop(error) => TurnedAway(st, error)
         case Proceed(_, verdict) =>
           || AuthUnderWay(env, s, c, st, verdict)
           || (OnAuth(env, s, Auth(env, s, c)).ack.Some? && Answered(env, s, c, st, verdict))
  }

  /** What is known of the packets two honest sides send. */
  ghost predicate Understood(env: Env, s: Server, c: Client) {
    Opening(s).Ok? ==>
      && |Hello(s)| <= MAX_PACKET_LEN
      && match OnHello(env, c, Hello(s))
         case Stop(_) => true
         case Proceed(auth, _) =>
           && auth == Auth(env, s, c) && |auth| <= MAX_PACKET_LEN
           && OnAuth(env, s, auth).ack.Some? && |OnAuth(env, s, auth).ack.value| <= MAX_PACKET_LEN
  }

  lemma HonestIsUnderstood(env: Env, s: Server, c: Client)
    requires Honest(env, s, c)
    ensures Understood(env, s, c)
  {
    hide Honest, OnHello, OnAuth, Auth, Hello;
    if Opening(s).Ok? {
      HelloIsUnderstood(env, s, c);
      if SchemeId(s.mode) == SchemeId(c.mode) { AuthIsUnderstood(env, s, c); }
    }
  }

  /** Bytes taken from the front of a channel. */
  lemma Taking(got: seq<byte>, channel: seq<byte>, n: nat, all: seq<byte>)
    requires n <= |channel| && got + channel == all
    ensures (got + channel[..n]) + channel[n..] == all
    ensures got + channel[..n] <= all
  {
    assert channel == channel[..n] + channel[n..];
  }

  lemma SameTail(a: seq<byte>, b: seq<byte>, c: seq<byte>)
    requires a + b == a + c
    ensures b == c
  {
    assert (a + b)[|a|..] == b && (a + c)[|a|..] == c;
  }

  lemma ServerReadsAuth(env: Env, s: Server, c: Client, st: State, verdict: Result<Version>, n: nat)
    requires Opening(s).Ok? && AuthUnderWay(env, s, c, st, verdict)
    requires |Auth(env, s, c)| <= MAX_PACKET_LEN && OnAuth(env, s, Auth(env, s, c)).ack.Some?
    requires |OnAuth(env, s, Auth(env, s, c)).ack.value| <= MAX_PACKET_LEN
    requires Enabled(s, st, ServerReads(n))
    ensures var after := Step(env, s, c, st, ServerReads(n));
            AuthUnderWay(env, s, c, after, verdict) || Answered(env, s, c, after, verdict)
  {
    hide OnAuth, Auth, ReadingOf, Framed;
    var got := st.server.got + st.toServer[..n];
    Taking(st.server.got, st.toServer, n, Framed(Auth(env, s, c)));
    FrameReading(Auth(env, s, c), got);
    if got == Framed(Auth(env, s, c)) {
      assert st.toServer[n..] == [];
      EmptyFrame(OnAuth(env, s, Auth(env, s, c)).ack.value);
    }
  }

  lemma ClientReadsHello(env: Env, s: Server, c: Client, st: State, n: nat)
    requires Opening(s).Ok? && HelloUnderWay(s, st) && Understood(env, s, c)
    requires Enabled(s, st, ClientReads(n))
    ensures Inv(env, s, c, Step(env, s, c, st, ClientReads(n)))
  {
    hide OnHello, OnAuth, Auth, ReadingOf, Framed, Hello;
    var got := st.client.got + st.toClient[..n];
    Taking(st.client.got, st.toClient, n, Framed(Hello(s)));
    FrameReading(Hello(s), got);
    if got == Framed(Hello(s)) { assert st.toClient[n..] == []; }
    EmptyFrame(Auth(env, s, c));
  }

  lemma EmptyFrame(body: seq<byte>)
    ensures Framed(body) != []
    ensures [] + Framed(body) == Framed(body)
  {
  }

  lemma ClientReadsAck(env: Env, s: Server, c: Client, st: State, verdict: Result<Version>, n: nat)
    requires Opening(s).Ok? && OnAuth(env, s, Auth(env, s, c)).ack.Some?
    requires |OnAuth(env, s, Auth(env, s, c)).ack.value| <= MAX_PACKET_LEN
    requires Answered(env, s, c, st, verdict)
    requires Enabled(s, st, ClientReads(n))
    ensures Answered(env, s, c, Step(env, s, c, st, ClientReads(n)), verdict)
  {
    hide OnAuth, Auth, ReadingOf, Framed;
    var ack := OnAuth(env, s, Auth(env, s, c)).ack.value;
    var before := st.client.got;
    FrameReading(ack, before);
    var got := before + st.toClient[..n];
    Taking(before, st.toClient, n, Framed(ack) + st.serverRpc);
    assert got <= Framed(ack);
    FrameReading(ack, got);
    if got == Framed(ack) { SameTail(got, st.toClient[n..], st.serverRpc); }
  }

  lemma SendsKeep(env: Env, s: Server, c: Client, st: State, verdict: Result<Version>, a: Action)
    requires Opening(s).Ok? && OnAuth(env, s, Auth(env, s, c)).ack.Some?
    requires Answered(env, s, c, st, verdict)
    requires a.ServerSends? || a.ClientSends?
    requires Enabled(s, st, a)
    ensures Answered(env, s, c, Step(env, s, c, st, a), verdict)
  {
    hide OnAuth, Auth, ReadingOf, Framed;
    var ack := OnAuth(env, s, Auth(env, s, c)).ack.value;
    if a.ServerSends? && !st.client.ClientDone? {
      Assoc(st.client.got, st.toClient, a.rpc);
      Assoc(Framed(ack), st.serverRpc, a.rpc);
    }
  }

  lemma InvStep(env: Env, s: Server, c: Client, st: State, a: Action)
    requires Understood(env, s, c) && Inv(env, s, c, st) && Enabled(s, st, a)
    ensures Inv(env, s, c, Step(env, s, c, st, a))
  {
    hide OnHello, OnAuth, Auth, ReadingOf, Framed;
    if st.server.Unopened? {
      ReadingOfNothing();
      if Opening(s).Ok? { EmptyFrame(Hello(s)); }
    } else if Opening(s).Ok? {
      if HelloUnderWay(s, st) {
        match a {
          case ClientReads(n) => ClientReadsHello(env, s, c, st, n);
          case _ => assert false;
        }
      } else if OnHello(env, c, Hello(s)).Proceed? {
        var verdict := OnHello(env, c, Hello(s)).verdict;
        if AuthUnderWay(env, s, c, st, verdict) {
          match a {
            case ServerReads(n) => ServerReadsAuth(env, s, c, st, verdict, n);
            case _ => assert false;
          }
        } else {
          match a {
            case ClientReads(n) => ClientReadsAck(env, s, c, st, verdict, n);
            case ServerSends(_) => SendsKeep(env, s, c, st, verdict, a);
            case ClientSends(_) => SendsKeep(env, s, c, st, verdict, a);
            case _ => assert false;
          }
        }
      }
    }
  }

  lemma ReadingOfNothing()
    ensures ReadingOf([]) == NeedMore(4)
  {
  }

  lemma {:induction false} InvRun(env: Env, s: Server, c: Client, states: seq<State>, actions: seq<Action>, i: nat)
    requires Honest(env, s, c) && IsRun(env, s, c, states, actions) && i < |states|
    ensures Inv(env, s, c, states[i])
  {
    if i > 0 {
      InvRun(env, s, c, states, actions, i - 1);
      HonestIsUnderstood(env, s, c);
      InvStep(env, s, c, states[i - 1], actions[i - 1]);
    }
  }

  // ---- results --------------------------------------------------------------------------------------------------

  lemma InvMeansOutcomes(env: Env, s: Server, c: Client, st: State)
    requires Honest(env, s, c) && Inv(env, s, c, st)
    ensures st.server.ServerDone? ==> st.server.result == ServerOutcome(env, s, c)
    ensures st.client.ClientDone? ==> st.client.result == ClientOutcome(env, s, c)
  {
    hide Honest, OnHello, OnAuth, Auth, Hello, Proven, Mismatch, DecodeAck;
    if Opening(s).Ok? {
      HelloIsUnderstood(env, s, c);
      if SchemeId(s.mode) == SchemeId(c.mode) { AuthIsUnderstood(env, s, c); }
    }
  }

  /** Agreement, in every run: whenever a side has finished, its result is the one its configuration and its peer's
      call for, whatever the interleaving and however the bytes were split. So the client succeeds exactly when the
      server does, exactly when the two are compatible, and each then has the other's version. With matching schemes
      and an opened server, another id or major is the same error on both sides. */
  lemma Agreement(env: Env, s: Server, c: Client, states: seq<State>, actions: seq<Action>, i: nat)
    requires Honest(env, s, c) && IsRun(env, s, c, states, actions) && i < |states|
    ensures states[i].server.ServerDone? ==>
              && states[i].server.result == ServerOutcome(env, s, c)
              && (states[i].server.result.Ok? <==> Compatible(env, s, c))
              && (Compatible(env, s, c) ==> states[i].server.result == Ok(c.protocol.version))
    ensures states[i].client.ClientDone? ==>
              && states[i].client.result == ClientOutcome(env, s, c)
              && (states[i].client.result.Ok? <==> Compatible(env, s, c))
              && (Compatible(env, s, c) ==> states[i].client.result == Ok(s.protocol.version))
    ensures states[i].server.ServerDone? && states[i].client.ClientDone?
            && CanOpen(s) && SchemeId(s.mode) == SchemeId(c.mode)
            && (s.protocol.id != c.protocol.id || s.protocol.version.major != c.protocol.version.major) ==>
              && states[i].server.result == states[i].client.result
              && states[i].server.result
              == Err(if s.protocol.id != c.protocol.id then ProtocolMismatch else IncompatibleVersion)
  {
    hide Inv, Honest;
    InvRun(env, s, c, states, actions, i);
    InvMeansOutcomes(env, s, c, states[i]);
    OutcomesAgree(env, s, c);
  }

  /** Handover: a side that has succeeded finds on its channel exactly the RPC bytes the other has sent, from the first
      one on. The handshake has consumed its own packets and nothing else. */
  lemma Handover(env: Env, s: Server, c: Client, states: seq<State>, actions: seq<Action>, i: nat)
    requires Honest(env, s, c) && IsRun(env, s, c, states, actions) && i < |states|
    ensures states[i].server.ServerDone? && states[i].server.result.Ok? ==> states[i].toServer == states[i].clientRpc
    ensures states[i].client.ClientDone? && states[i].client.result.Ok? ==> states[i].toClient == states[i].serverRpc
  {
    hide OnHello, OnAuth, Auth, Honest, Hello, Framed;
    InvRun(env, s, c, states, actions, i);
  }

  /** So a decoder put on either end of the connection starts on a message boundary: while the other side is somewhere
      in the middle of sending its messages, what is on the channel decodes to those of them that are complete. */
  lemma HandoverToRpc(env: Env, s: Server, c: Client, states: seq<State>, actions: seq<Action>, i: nat,
                      fromServer: seq<Wire.Message>, fromClient: seq<Wire.Message>, limit: Option<nat>)
    requires Honest(env, s, c) && IsRun(env, s, c, states, actions) && i < |states|
    requires states[i].serverRpc <= Wire.SerializeAll(fromServer) && Framing.AllDeliverable(fromServer, limit)
    requires states[i].clientRpc <= Wire.SerializeAll(fromClient) && Framing.AllDeliverable(fromClient, limit)
    ensures states[i].client.ClientDone? && states[i].client.result.Ok? ==>
              var n := |states[i].serverRpc|;
              Wire.Decode(states[i].toClient, limit)
              == Wire.Decoded(fromServer[..Framing.Complete(fromServer, n)],
                              if Framing.OnBoundary(fromServer, n) then Wire.Clean else Wire.Cut)
    ensures states[i].server.ServerDone? && states[i].server.result.Ok? ==>
              var n := |states[i].clientRpc|;
              Wire.Decode(states[i].toServer, limit)
              == Wire.Decoded(fromClient[..Framing.Complete(fromClient, n)],
                              if Framing.OnBoundary(fromClient, n) then Wire.Clean else Wire.Cut)
  {
    hide Honest, IsRun, Wire.Decode, Wire.SerializeAll, Framing.AllDeliverable;
    Handover(env, s, c, states, actions, i);
    Framing.PrefixArrives(fromServer, states[i].serverRpc, limit);
    Framing.PrefixArrives(fromClient, states[i].clientRpc, limit);
  }

  // ---- progress -------------------------------------------------------------------------------------------------

  predicate IsHandshake(a: Action) { !a.ServerSends? && !a.ClientSends? }

  /** Until both sides have finished, one of them can take a handshake step. */
  lemma NeverStuck(env: Env, s: Server, c: Client, states: seq<State>, actions: seq<Action>, i: nat)
    requires Honest(env, s, c) && IsRun(env, s, c, states, actions) && i < |states|
    requires !states[i].server.ServerDone? || !states[i].client.ClientDone?
    ensures exists a :: IsHandshake(a) && Enabled(s, states[i], a)
  {
    var st := states[i];
    InvRun(env, s, c, states, actions, i);
    HonestIsUnderstood(env, s, c);
    var a := NextAction(env, s, c, st);
    assert IsHandshake(a) && Enabled(s, st, a);
  }

  lemma NextAction(env: Env, s: Server, c: Client, st: State) returns (a: Action)
    requires Understood(env, s, c) && Inv(env, s, c, st)
    requires !st.server.ServerDone? || !st.client.ClientDone?
    ensures IsHandshake(a) && Enabled(s, st, a)
  {
    hide OnHello, OnAuth, Auth, Hello, Framed, ReadingOf;
    if st.server.Unopened? { return ServerOpens; }
    if Opening(s).Err? { return ClientSeesEnd; }
    if HelloUnderWay(s, st) {
      FrameReading(Hello(s), st.client.got);
      return ClientReads(1);
    }
    if OnHello(env, c, Hello(s)).Stop? { return ServerSeesEnd; }
    var verdict := OnHello(env, c, Hello(s)).verdict;
    if AuthUnderWay(env, s, c, st, verdict) {
      FrameReading(Auth(env, s, c), st.server.got);
      return ServerReads(1);
    }
    var ack := OnAuth(env, s, Auth(env, s, c)).ack.value;
    FrameReading(ack, st.client.got);
    return ClientReads(1);
  }

  /** More than any packet has bytes. */
  const FRAME_BOUND: nat := 4 + MAX_PACKET_LEN + 1

  function Left(got: seq<byte>): nat {
    if |got| < FRAME_BOUND then FRAME_BOUND - |got| else 0
  }

  /** How much handshake there can still be. RPC bytes do not count. */
  function Measure(st: State): nat {
    (match st.server
     case Unopened => FRAME_BOUND + 1
     case AwaitAuth(got) => Left(got)
     case ServerDone(_) => 0)
    + (match st.client
       case AwaitHello(got) => FRAME_BOUND + 1 + Left(got)
       case AwaitAck(got, _) => Left(got)
       case ClientDone(_) => 0)
  }

  /** Reading stays within one packet. */
  ghost predicate WithinFrames(st: State) {
    && (st.server.AwaitAuth? ==> ReadingOf(st.server.got).NeedMore?)
    && (!st.client.ClientDone? ==> ReadingOf(st.client.got).NeedMore?)
  }

  lemma ReadingIsShort(got: seq<byte>)
    requires ReadingOf(got).NeedMore?
    ensures |got| + ReadingOf(got).count < FRAME_BOUND
  {
  }

  /** Every handshake step makes the measure smaller and every other step leaves it alone, so every run has a bounded
      number of handshake steps: the handshake terminates under every schedule. */
  lemma MeasureDecreases(env: Env, s: Server, c: Client, st: State, a: Action)
    requires WithinFrames(st) && Enabled(s, st, a)
    ensures WithinFrames(Step(env, s, c, st, a))
    ensures IsHandshake(a) ==> Measure(Step(env, s, c, st, a)) < Measure(st)
    ensures !IsHandshake(a) ==> Measure(Step(env, s, c, st, a)) == Measure(st)
  {
    hide OnHello, OnAuth, ReadingOf, Opening;
    ReadingOfNothing();
    if st.server.AwaitAuth? { ReadingIsShort(st.server.got); }
    if !st.client.ClientDone? { ReadingIsShort(st.client.got); }
  }

  ghost function HandshakeSteps(actions: seq<Action>): nat {
    if actions == [] then 0
    else HandshakeSteps(actions[..|actions| - 1]) + if IsHandshake(actions[|actions| - 1]) then 1 else 0
  }

  lemma {:induction false} HandshakeIsBounded(env: Env, s: Server, c: Client, states: seq<State>, actions: seq<Action>)
    requires IsRun(env, s, c, states, actions)
    ensures HandshakeSteps(actions) + Measure(states[|actions|]) <= Measure(INITIAL)
    ensures WithinFrames(states[|actions|])
  {
    hide Step, Enabled, Measure;
    var n := |actions|;
    if n == 0 {
      ReadingOfNothing();
    } else {
      assert IsRun(env, s, c, states[..n], actions[..n - 1]);
      HandshakeIsBounded(env, s, c, states[..n], actions[..n - 1]);
      MeasureDecreases(env, s, c, states[n - 1], actions[n - 1]);
    }
  }
}
