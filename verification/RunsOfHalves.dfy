/** The runs of the transition system are runs of the two halves: what a side concludes in a run is what its half
    computes from the bytes its peer has sent. */
module RunsOfHalves {
  import opened Bytes
  import opened Packets
  import opened Handshake
  import opened HandshakeHalves
  import opened HandshakeRuns

  /** The client's conclusion no longer depends on what the server may still send. */
  ghost predicate Concluded(env: Env, c: Client, stream: seq<byte>) {
    var first := TakePacket(stream);
    && !first.Truncated?
    && (first.Packet? && OnHello(env, c, first.body).Proceed? && OnHello(env, c, first.body).verdict.Ok? ==>
          !TakePacket(first.rest).Truncated?)
  }

  ghost predicate IsServerHalf(env: Env, s: Server, st: State) {
    match st.server
    case Unopened => st.fromServer == [] && st.serverRpc == [] && st.toServer == st.fromClient
    case AwaitAuth(got) =>
      && Opening(s).Ok? && st.fromServer == Framed(Hello(s)) && st.serverRpc == []
      && got + st.toServer == st.fromClient && TakePacket(got).Truncated?
    case ServerDone(r) =>
      var half := ServerHalf(env, s, st.fromClient);
      && Learned(r) == half.result && st.fromServer == half.out + st.serverRpc
      && (r.Ok? ==> st.toServer == half.rest) && (r.Err? ==> st.serverRpc == [])
      && (Opening(s).Err? || !TakePacket(st.fromClient).Truncated? || ClientClosed(st))
  }

  ghost predicate IsClientHalf(env: Env, c: Client, st: State) {
    match st.client
    case AwaitHello(got) =>
      && st.fromClient == [] && st.clientRpc == []
      && got + st.toClient == st.fromServer && TakePacket(got).Truncated?
    case AwaitAck(got, v) =>
      var first := TakePacket(st.fromServer);
      && first.Packet? && first.rest == got + st.toClient && TakePacket(got).Truncated? && st.clientRpc == []
      && OnHello(env, c, first.body).Proceed? && OnHello(env, c, first.body).verdict == Ok(v)
      && st.fromClient == Framed(OnHello(env, c, first.body).auth)
    case ClientDone(r) =>
      var half := ClientHalf(env, c, st.fromServer);
      && Learned(r) == half.result && st.fromClient == half.out + st.clientRpc
      && (r.Ok? ==> st.toClient == half.rest) && (r.Err? ==> st.clientRpc == [])
      && (Concluded(env, c, st.fromServer) || ServerClosed(st))
  }

  ghost predicate AreHalves(env: Env, s: Server, c: Client, st: State) {
    IsServerHalf(env, s, st) && IsClientHalf(env, c, st)
  }

  /** What the client sends after the server has concluded does not touch the conclusion. */
  lemma ServerUnmoved(env: Env, s: Server, st: State, bs: seq<byte>)
    requires IsServerHalf(env, s, st) && !ClientClosed(st) && !s.mode.Disabled?
    ensures IsServerHalf(env, s, st.ClientWrites(bs))
  {
    hide OnAuth, TakePacket, Framed;
    match st.server {
      case Unopened =>
      case AwaitAuth(got) => Assoc(got, st.toServer, bs);
      case ServerDone(_) => if Opening(s).Ok? { TakeExtends(st.fromClient, bs); }
    }
  }

  lemma ClientHalfExtends(env: Env, c: Client, stream: seq<byte>, bs: seq<byte>)
    requires Concluded(env, c, stream) && !c.mode.Disabled?
    ensures Concluded(env, c, stream + bs)
    ensures var half, more := ClientHalf(env, c, stream), ClientHalf(env, c, stream + bs);
            && more.result == half.result && more.out == half.out
            && (half.result.Ok? ==> more.rest == half.rest + bs)
  {
    hide OnHello, TakePacket, Framed;
    TakeExtends(stream, bs);
    var first := TakePacket(stream);
    if first.Packet? && OnHello(env, c, first.body).Proceed? && OnHello(env, c, first.body).verdict.Ok? {
      TakeExtends(first.rest, bs);
    }
  }

  lemma ClientUnmoved(env: Env, c: Client, st: State, bs: seq<byte>)
    requires IsClientHalf(env, c, st) && !ServerClosed(st) && !c.mode.Disabled?
    ensures IsClientHalf(env, c, st.ServerWrites(bs))
  {
    hide OnHello, TakePacket, Framed, ClientHalf, Concluded;
    match st.client {
      case AwaitHello(got) => Assoc(got, st.toClient, bs);
      case AwaitAck(got, _) =>
        TakeExtends(st.fromServer, bs);
        Assoc(got, st.toClient, bs);
      case ClientDone(_) => ClientHalfExtends(env, c, st.fromServer, bs);
    }
  }

  /** A bounded read of a packet: what it leaves unread follows the packet on the stream. */
  lemma ReadsOn(got: seq<byte>, channel: seq<byte>, n: nat)
    requires CanRead(got, channel, n)
    ensures (got + channel[..n]) + channel[n..] == got + channel
    ensures var now, all := got + channel[..n], got + channel;
            && (ReadingOf(now).NeedMore? <==> TakePacket(now).Truncated?)
            && (ReadingOf(now).Oversized? ==> TakePacket(all).TooLong?)
            && (ReadingOf(now).Complete? ==> TakePacket(all) == Packet(ReadingOf(now).body, channel[n..]))
  {
    var now := got + channel[..n];
    Taking(got, channel, n, got + channel);
    BoundedReading(got, channel[..n]);
    hide TakePacket;
    if !TakePacket(now).Truncated? {
      TakeExtends(now, channel[n..]);
      assert [] + channel[n..] == channel[n..];
    }
  }

  /** Steps of the server that send nothing leave the client's side as it is. */
  lemma ClientSideKept(env: Env, c: Client, st: State, after: State)
    requires IsClientHalf(env, c, st) && (ServerClosed(st) ==> ServerClosed(after))
    requires after == st.(server := after.server, toServer := after.toServer)
    ensures IsClientHalf(env, c, after)
  {
    hide ClientHalf, Concluded, TakePacket, OnHello, Framed;
  }

  lemma ServerSideKept(env: Env, s: Server, st: State, after: State)
    requires IsServerHalf(env, s, st) && (ClientClosed(st) ==> ClientClosed(after))
    requires after == st.(client := after.client, toClient := after.toClient)
    ensures IsServerHalf(env, s, after)
  {
    hide ServerHalf, TakePacket, Framed;
  }

  lemma ServerReadIsHalf(env: Env, s: Server, c: Client, st: State, n: nat)
    requires AreHalves(env, s, c, st) && !s.mode.Disabled? && !c.mode.Disabled?
    requires Enabled(s, st, ServerReads(n))
    ensures AreHalves(env, s, c, Step(env, s, c, st, ServerReads(n)))
  {
    var got, rest := st.server.got + st.toServer[..n], st.toServer[n..];
    ReadsOn(st.server.got, st.toServer, n);
    hide TakePacket, ReadingOf, OnAuth, Framed, IsClientHalf;
    match ReadingOf(got) {
      case NeedMore(_) => ClientSideKept(env, c, st, st.(server := AwaitAuth(got), toServer := rest));
      case Oversized =>
        ClientSideKept(env, c, st, st.(server := ServerDone(Err(MalformedPacket)), toServer := rest));
        assert st.fromServer + [] == st.fromServer;
      case Complete(body) =>
        var reply := OnAuth(env, s, body);
        var done := st.(server := ServerDone(reply.result), toServer := rest);
        var ack := if reply.ack.Some? then Framed(reply.ack.value) else [];
        ClientUnmoved(env, c, st, ack);
        ClientSideKept(env, c, st.ServerWrites(ack), done.ServerWrites(ack));
        assert st.fromServer + [] == st.fromServer && st.toClient + [] == st.toClient;
        assert (st.fromServer + ack) + [] == st.fromServer + ack;
    }
  }

  lemma ClientReadsHelloIsHalf(env: Env, s: Server, c: Client, st: State, n: nat)
    requires AreHalves(env, s, c, st) && !s.mode.Disabled? && !c.mode.Disabled? && st.client.AwaitHello?
    requires Enabled(s, st, ClientReads(n))
    ensures AreHalves(env, s, c, Step(env, s, c, st, ClientReads(n)))
  {
    var got, rest := st.client.got + st.toClient[..n], st.toClient[n..];
    ReadsOn(st.client.got, st.toClient, n);
    var after := Step(env, s, c, st, ClientReads(n));
    hide TakePacket, ReadingOf, OnHello, Framed, IsServerHalf;
    if ReadingOf(got).Complete? && OnHello(env, c, ReadingOf(got).body).Proceed? {
      var auth := Framed(OnHello(env, c, ReadingOf(got).body).auth);
      ServerUnmoved(env, s, st, auth);
      ServerSideKept(env, s, st.ClientWrites(auth), after);
      ProceedsIsHalf(env, c, st, after, ReadingOf(got).body, rest);
    } else {
      ServerSideKept(env, s, st, after);
    }
  }

  lemma ProceedsIsHalf(env: Env, c: Client, st: State, after: State, body: seq<byte>, rest: seq<byte>)
    requires IsClientHalf(env, c, st) && st.client.AwaitHello? && !c.mode.Disabled?
    requires TakePacket(st.fromServer) == Packet(body, rest) && OnHello(env, c, body).Proceed?
    requires var move := OnHello(env, c, body);
             after == st.(client := if move.verdict.Ok? then AwaitAck([], move.verdict.value)
                                    else ClientDone(Err(move.verdict.error)),
                          toClient := rest).ClientWrites(Framed(move.auth))
    ensures IsClientHalf(env, c, after)
  {
    ReadingOfNothing();
    hide TakePacket, OnHello, Framed;
    var auth := Framed(OnHello(env, c, body).auth);
    assert [] + auth == auth && auth + [] == auth && [] + rest == rest;
  }

  lemma ClientReadsAckIsHalf(env: Env, s: Server, c: Client, st: State, n: nat)
    requires AreHalves(env, s, c, st) && !s.mode.Disabled? && !c.mode.Disabled? && st.client.AwaitAck?
    requires Enabled(s, st, ClientReads(n))
    ensures AreHalves(env, s, c, Step(env, s, c, st, ClientReads(n)))
  {
    ReadsOn(st.client.got, st.toClient, n);
    hide TakePacket, ReadingOf, OnHello, OnAck, Framed, IsServerHalf;
    ServerSideKept(env, s, st, Step(env, s, c, st, ClientReads(n)));
    assert st.fromClient + [] == st.fromClient;
  }

  lemma EndIsHalf(env: Env, s: Server, c: Client, st: State, a: Action)
    requires AreHalves(env, s, c, st) && !s.mode.Disabled? && !c.mode.Disabled?
    requires (a.ServerSeesEnd? || a.ClientSeesEnd?) && Enabled(s, st, a)
    ensures AreHalves(env, s, c, Step(env, s, c, st, a))
  {
    hide TakePacket, OnHello, OnAuth, Framed, Concluded;
    if a.ServerSeesEnd? {
      assert st.server.got + [] == st.server.got && st.fromServer + [] == st.fromServer;
      ClientSideKept(env, c, st, Step(env, s, c, st, a));
    } else {
      assert st.client.got + [] == st.client.got && st.fromClient + [] == st.fromClient;
      ServerSideKept(env, s, st, Step(env, s, c, st, a));
    }
  }

  lemma OpeningIsHalf(env: Env, s: Server, c: Client, st: State)
    requires AreHalves(env, s, c, st) && !s.mode.Disabled? && !c.mode.Disabled? && st.server.Unopened?
    ensures AreHalves(env, s, c, Step(env, s, c, st, ServerOpens))
  {
    var after := Step(env, s, c, st, ServerOpens);
    hide TakePacket, OnAuth, Framed, IsClientHalf, IsServerHalf;
    if Opening(s).Ok? {
      var hello := Framed(Hello(s));
      ClientUnmoved(env, c, st, hello);
      ClientSideKept(env, c, st.ServerWrites(hello), after);
      OpenedIsHalf(env, s, st, after);
    } else {
      ClientSideKept(env, c, st, after);
      RefusedIsHalf(env, s, st, after);
    }
  }

  lemma OpenedIsHalf(env: Env, s: Server, st: State, after: State)
    requires IsServerHalf(env, s, st) && st.server.Unopened? && Opening(s).Ok?
    requires after == st.(server := AwaitAuth([])).ServerWrites(Framed(Hello(s)))
    ensures IsServerHalf(env, s, after)
  {
    ReadingOfNothing();
    hide TakePacket, Framed, Opening;
    assert [] + Framed(Hello(s)) == Framed(Hello(s)) && [] + st.toServer == st.toServer;
  }

  lemma RefusedIsHalf(env: Env, s: Server, st: State, after: State)
    requires IsServerHalf(env, s, st) && st.server.Unopened? && Opening(s).Err? && !s.mode.Disabled?
    requires after == st.(server := ServerDone(Err(Opening(s).error)))
    ensures IsServerHalf(env, s, after)
  {
    hide TakePacket, Opening;
  }

  lemma SendIsHalf(env: Env, s: Server, c: Client, st: State, a: Action)
    requires AreHalves(env, s, c, st) && !s.mode.Disabled? && !c.mode.Disabled?
    requires !IsHandshake(a) && Enabled(s, st, a)
    ensures AreHalves(env, s, c, Step(env, s, c, st, a))
  {
    hide TakePacket, OnHello, OnAuth, Framed, Concluded, ServerHalf, ClientHalf;
    if a.ServerSends? {
      ClientUnmoved(env, c, st, a.rpc);
      Assoc(ServerHalf(env, s, st.fromClient).out, st.serverRpc, a.rpc);
    } else {
      ServerUnmoved(env, s, st, a.rpc);
      Assoc(ClientHalf(env, c, st.fromServer).out, st.clientRpc, a.rpc);
    }
  }

  lemma {:induction false} RunIsHalves(env: Env, s: Server, c: Client, states: seq<State>, actions: seq<Action>, i: nat)
    requires !s.mode.Disabled? && !c.mode.Disabled? && IsRun(env, s, c, states, actions) && i < |states|
    ensures AreHalves(env, s, c, states[i])
  {
    if i == 0 {
      ReadingOfNothing();
      assert [] + INITIAL.toClient == INITIAL.fromServer;
    } else {
      RunIsHalves(env, s, c, states, actions, i - 1);
      var st, a := states[i - 1], actions[i - 1];
      assert Enabled(s, st, a) && states[i] == Step(env, s, c, st, a);
      hide AreHalves, Step;
      match a {
        case ServerOpens => OpeningIsHalf(env, s, c, st);
        case ServerReads(n) => ServerReadIsHalf(env, s, c, st, n);
        case ClientReads(n) =>
          if st.client.AwaitHello? {
            ClientReadsHelloIsHalf(env, s, c, st, n);
          } else {
            ClientReadsAckIsHalf(env, s, c, st, n);
          }
        case ServerSeesEnd => EndIsHalf(env, s, c, st, a);
        case ClientSeesEnd => EndIsHalf(env, s, c, st, a);
        case _ => SendIsHalf(env, s, c, st, a);
      }
    }
  }

  /** In every run, of any two configurations, a side that has finished has the result, has sent the bytes, and has left
      the bytes unread that its half yields on all its peer has sent so far. The halves are what `authenticate_server`
      and `authenticate_client` do against a connection, so the runs are runs of that code. */
  lemma FinishedSidesAreHalves(env: Env, s: Server, c: Client, states: seq<State>, actions: seq<Action>, i: nat)
    requires !s.mode.Disabled? && !c.mode.Disabled? && IsRun(env, s, c, states, actions) && i < |states|
    ensures states[i].server.ServerDone? ==>
              var half := ServerHalf(env, s, states[i].fromClient);
              && Learned(states[i].server.result) == half.result
              && states[i].fromServer == half.out + states[i].serverRpc
              && (states[i].server.result.Ok? ==> states[i].toServer == half.rest)
    ensures states[i].client.ClientDone? ==>
              var half := ClientHalf(env, c, states[i].fromServer);
              && Learned(states[i].client.result) == half.result
              && states[i].fromClient == half.out + states[i].clientRpc
              && (states[i].client.result.Ok? ==> states[i].toClient == half.rest)
  {
    hide IsRun, ServerHalf, ClientHalf, Concluded;
    RunIsHalves(env, s, c, states, actions, i);
  }
}
