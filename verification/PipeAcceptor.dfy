/** The named-pipe acceptor of `src/net/npipe.rs`: one instance listens, one is kept in reserve, and an accept that is
    dropped or fails gives up neither. */
module PipeAcceptor {
  import opened Bytes

  datatype Answer = Handed(instance: nat) | CreateFailed | ConnectFailed | Dropped

  /** What happens by the time of one poll: the instances clients reach, and whether the wait fails. */
  datatype Input = Input(reached: set<nat>, fails: bool)

  /** The instances of the pipe, numbered as they are created, and those of them a client has reached. */
  datatype Instances = Instances(listening: nat, spare: Option<nat>, created: nat, clients: set<nat>)

  const BOUND: Instances := Instances(0, None, 1, {})

  predicate Owns(p: Instances, id: nat) {
    id == p.listening || p.spare == Some(id)
  }

  /** Clients may reach any owned instance. */
  function Reach(p: Instances, reached: set<nat>): Instances {
    p.(clients := p.clients + set id | id in reached && Owns(p, id))
  }

  function Reserve(p: Instances): Instances {
    if p.spare.Some? then p else p.(spare := Some(p.created), created := p.created + 1)
  }

  datatype Accepted = Accepted(after: Instances, answer: Answer)

  /** A wait on the listening instance that is polled once per input and dropped when there are no more. */
  function Wait(p: Instances, inputs: seq<Input>): Accepted
    requires p.spare.Some?
    decreases |inputs|
  {
    if inputs == [] then Accepted(p, Dropped)
    else
      var q := Reach(p, inputs[0].reached);
      if inputs[0].fails then Accepted(q, ConnectFailed)
      else if q.listening in q.clients then
        Accepted(q.(listening := q.spare.value, spare := None), Handed(q.listening))
      else Wait(q, inputs[1..])
  }

  function AcceptOn(p: Instances, createFails: bool, inputs: seq<Input>): Accepted {
    if p.spare.None? && createFails then Accepted(p, CreateFailed) else Wait(Reserve(p), inputs)
  }

  // ---- what an accept answers -------------------------------------------------------------------------------------

  /** A client has reached instance `id` by poll `i`. */
  ghost predicate CameBy(inputs: seq<Input>, i: nat, id: nat) {
    exists j :: 0 <= j <= i && j < |inputs| && id in inputs[j].reached
  }

  /** The wait is over by poll `i`: it fails there, or a client has reached the listening instance. */
  ghost predicate OverBy(p: Instances, inputs: seq<Input>, i: nat)
    requires i < |inputs|
  {
    inputs[i].fails || p.listening in p.clients || CameBy(inputs, i, p.listening)
  }

  /** The first poll by which the wait is over, or the number of polls if it never is. */
  ghost predicate FirstOver(p: Instances, inputs: seq<Input>, i: nat) {
    && i <= |inputs| && (i < |inputs| ==> OverBy(p, inputs, i))
    && forall j: nat :: j < i ==> !OverBy(p, inputs, j)
  }

  ghost function Arrived(p: Instances, inputs: seq<Input>, i: nat): set<nat> {
    p.clients + set id | id in OwnedBy(p) && CameBy(inputs, i, id)
  }

  ghost function OwnedBy(p: Instances): set<nat> {
    if p.spare.Some? then {p.listening, p.spare.value} else {p.listening}
  }

  lemma CameLater(inputs: seq<Input>, i: nat, id: nat)
    requires 0 < i <= |inputs|
    ensures CameBy(inputs, i, id) <==> id in inputs[0].reached || CameBy(inputs[1..], i - 1, id)
  {
    if CameBy(inputs[1..], i - 1, id) {
      var j :| 0 <= j <= i - 1 && j < |inputs[1..]| && id in inputs[1..][j].reached;
      assert id in inputs[j + 1].reached;
    }
    if CameBy(inputs, i, id) && id !in inputs[0].reached {
      var j :| 0 <= j <= i && j < |inputs| && id in inputs[j].reached;
      assert id in inputs[1..][j - 1].reached;
    }
  }

  lemma CameFirst(inputs: seq<Input>, id: nat)
    requires inputs != []
    ensures CameBy(inputs, 0, id) <==> id in inputs[0].reached
  {
  }

  lemma NotYetOver(p: Instances, inputs: seq<Input>, i: nat)
    requires FirstOver(p, inputs, i) && i > 0
    ensures !inputs[0].fails
    ensures p.listening !in Reach(p, inputs[0].reached).clients
    ensures FirstOver(Reach(p, inputs[0].reached), inputs[1..], i - 1)
    ensures Arrived(Reach(p, inputs[0].reached), inputs[1..], i - 1) == Arrived(p, inputs, i)
  {
    var q, rest := Reach(p, inputs[0].reached), inputs[1..];
    assert !OverBy(p, inputs, 0);
    CameFirst(inputs, p.listening);
    forall id: nat, k: nat | 0 < k <= i
      ensures CameBy(inputs, k, id) <==> id in inputs[0].reached || CameBy(rest, k - 1, id)
    {
      CameLater(inputs, k, id);
    }
    hide CameBy;
    forall j: nat | j < i - 1 ensures !OverBy(q, rest, j) {
      assert !OverBy(p, inputs, j + 1);
    }
  }

  /** A wait goes on until its first failure or the first client of the listening instance, and is dropped only if it
      meets neither. */
  lemma {:induction false} WaitAnswers(p: Instances, inputs: seq<Input>, i: nat)
    requires p.spare.Some? && FirstOver(p, inputs, i)
    ensures Wait(p, inputs) ==
            var q := p.(clients := Arrived(p, inputs, i));
            if i == |inputs| then Accepted(q, Dropped)
            else if inputs[i].fails then Accepted(q, ConnectFailed)
            else Accepted(q.(listening := p.spare.value, spare := None), Handed(p.listening))
    decreases i
  {
    if i > 0 {
      NotYetOver(p, inputs, i);
      hide FirstOver, Arrived;
      WaitAnswers(Reach(p, inputs[0].reached), inputs[1..], i - 1);
    } else if inputs == [] {
      assert Arrived(p, inputs, i) == p.clients;
    } else {
      forall id: nat ensures CameBy(inputs, 0, id) <==> id in inputs[0].reached { CameFirst(inputs, id); }
      assert Arrived(p, inputs, i) == Reach(p, inputs[0].reached).clients;
    }
  }

  /** What an accept answers, and what it leaves, from what happens while it waits: if there is no reserve and none can
      be created it fails at once; otherwise the first poll by which the wait is over decides. */
  lemma AcceptAnswers(p: Instances, createFails: bool, inputs: seq<Input>, i: nat)
    requires FirstOver(p, inputs, i)
    ensures p.spare.None? && createFails ==> AcceptOn(p, createFails, inputs) == Accepted(p, CreateFailed)
    ensures p.spare.Some? || !createFails ==>
              var spare := if p.spare.Some? then p.spare.value else p.created;
              var created := if p.spare.Some? then p.created else p.created + 1;
              var clients := p.clients + set id | id in {p.listening, spare} && CameBy(inputs, i, id);
              AcceptOn(p, createFails, inputs) ==
              if i == |inputs| then Accepted(Instances(p.listening, Some(spare), created, clients), Dropped)
              else if inputs[i].fails then
                Accepted(Instances(p.listening, Some(spare), created, clients), ConnectFailed)
              else Accepted(Instances(spare, None, created, clients), Handed(p.listening))
  {
    hide CameBy;
    if p.spare.Some? || !createFails {
      forall j: nat | j < |inputs| ensures OverBy(Reserve(p), inputs, j) <==> OverBy(p, inputs, j) { }
      WaitAnswers(Reserve(p), inputs, i);
    }
  }

  /** Every accept has such a poll or none, so it is dropped exactly when it has none. */
  lemma DroppedIff(p: Instances, createFails: bool, inputs: seq<Input>)
    requires p.spare.Some? || !createFails
    ensures AcceptOn(p, createFails, inputs).answer == Dropped
       <==> forall i: nat :: i < |inputs| ==> !OverBy(p, inputs, i)
  {
    hide OverBy, AcceptOn;
    var i := 0;
    while i < |inputs| && !OverBy(p, inputs, i)
      invariant i <= |inputs| && forall j: nat :: j < i ==> !OverBy(p, inputs, j)
    {
      i := i + 1;
    }
    AcceptAnswers(p, createFails, inputs, i);
  }

  // ---- what every accept keeps ----------------------------------------------------------------------------------

  /** The one or two instances owned are distinct and not handed out, a client's instance is owned until it is handed
      out, and none is handed out twice or without a client. */
  ghost predicate Conserved(p: Instances, handedOut: seq<nat>) {
    && p.listening < p.created && p.listening !in handedOut
    && (p.spare.Some? ==> p.spare.value < p.created && p.spare.value !in handedOut && p.spare.value != p.listening)
    && (forall id :: id in p.clients ==> Owns(p, id) || id in handedOut)
    && (forall id :: id in handedOut ==> id in p.clients && id < p.created)
    && (forall i, j :: 0 <= i < j < |handedOut| ==> handedOut[i] != handedOut[j])
  }

  ghost function HandedAfter(handedOut: seq<nat>, answer: Answer): seq<nat> {
    if answer.Handed? then handedOut + [answer.instance] else handedOut
  }

  lemma ReachKeeps(p: Instances, reached: set<nat>, handedOut: seq<nat>)
    requires Conserved(p, handedOut)
    ensures Conserved(Reach(p, reached), handedOut)
  {
  }

  lemma HandingKeeps(p: Instances, handedOut: seq<nat>)
    requires Conserved(p, handedOut) && p.spare.Some? && p.listening in p.clients
    ensures Conserved(p.(listening := p.spare.value, spare := None), handedOut + [p.listening])
  {
  }

  /** No wait loses an instance or a client. It hands out the instance that was listening and puts the reserve in its
      place, or changes neither. */
  lemma {:induction false} WaitKeeps(p: Instances, inputs: seq<Input>, handedOut: seq<nat>)
    requires Conserved(p, handedOut) && p.spare.Some?
    ensures var w := Wait(p, inputs);
            && Conserved(w.after, HandedAfter(handedOut, w.answer))
            && p.clients <= w.after.clients && w.after.created == p.created
            && (if w.answer.Handed? then
                  w.answer.instance == p.listening && w.after.listening == p.spare.value && w.after.spare == None
                else w.after.listening == p.listening && w.after.spare == p.spare)
    decreases |inputs|
  {
    if inputs != [] {
      var q := Reach(p, inputs[0].reached);
      ReachKeeps(p, inputs[0].reached, handedOut);
      hide Conserved;
      if inputs[0].fails {
      } else if q.listening in q.clients {
        HandingKeeps(q, handedOut);
      } else {
        WaitKeeps(q, inputs[1..], handedOut);
      }
    }
  }

  lemma ReserveKeeps(p: Instances, handedOut: seq<nat>)
    requires Conserved(p, handedOut)
    ensures Conserved(Reserve(p), handedOut)
  {
  }

  // ---- which client the next accept hands out -------------------------------------------------------------------

  ghost predicate Quiet(inputs: seq<Input>) {
    forall i :: 0 <= i < |inputs| ==> !inputs[i].fails
  }

  /** The next accept hands out instance `id` whatever happens, as long as it is polled at all and nothing fails. */
  ghost predicate HandedNext(p: Instances, id: nat) {
    forall inputs: seq<Input> :: inputs != [] && Quiet(inputs) ==> AcceptOn(p, false, inputs).answer == Handed(id)
  }

  /** The documentation says that a client that reached either instance is handed out by the next accept. Of the
      instance `id` of a waiting client that is so exactly when it is the listening one. */
  lemma HandedNextIff(p: Instances, id: nat, handedOut: seq<nat>)
    requires Conserved(p, handedOut) && Owns(p, id) && id in p.clients
    ensures HandedNext(p, id) <==> id == p.listening
  {
    if id == p.listening {
      forall inputs: seq<Input> | inputs != [] && Quiet(inputs)
        ensures AcceptOn(p, false, inputs).answer == Handed(id)
      {
        assert !inputs[0].fails;
      }
    } else {
      var inputs := [Input({}, false)];
      ReserveKeeps(p, handedOut);
      WaitKeeps(Reserve(p), inputs, handedOut);
      assert Quiet(inputs) && AcceptOn(p, false, inputs).answer != Handed(id);
    }
  }

  /** The input the documentation overlooks: an accept is dropped, a client reaches the reserve it left behind, and the
      next accept, polled as often as one likes without another client coming, hands out nothing. */
  lemma ReserveClientWaits(polls: nat)
    ensures var dropped := AcceptOn(BOUND, false, [Input({}, false)]);
            var waiting := Reach(dropped.after, {1});
            && dropped.answer == Dropped && waiting.spare == Some(1) && 1 in waiting.clients
            && AcceptOn(waiting, false, seq(polls, _ => Input({}, false))) == Accepted(waiting, Dropped)
  {
    var dropped := AcceptOn(BOUND, false, [Input({}, false)]);
    assert Wait(Reserve(BOUND), [Input({}, false)]).after == Reserve(BOUND);
    QuietWait(Reach(dropped.after, {1}), polls);
  }

  lemma {:induction false} QuietWait(p: Instances, polls: nat)
    requires p.spare.Some? && p.listening !in p.clients
    ensures Wait(p, seq(polls, _ => Input({}, false))) == Accepted(p, Dropped)
  {
    var inputs := seq(polls, _ => Input({}, false));
    if polls > 0 {
      assert Reach(p, {}) == p;
      assert inputs[1..] == seq(polls - 1, _ => Input({}, false));
      QuietWait(p, polls - 1);
    }
  }

  /** A client of the reserve is not forgotten: once an accept has handed out the listening instance, the next one hands
      out the client's. */
  lemma ReserveClientIsNext(p: Instances, createFails: bool, inputs: seq<Input>, handedOut: seq<nat>)
    requires Conserved(p, handedOut) && p.spare.Some? && p.spare.value in p.clients
    requires AcceptOn(p, createFails, inputs).answer.Handed?
    ensures HandedNext(AcceptOn(p, createFails, inputs).after, p.spare.value)
  {
    WaitKeeps(p, inputs, handedOut);
    var q := AcceptOn(p, createFails, inputs).after;
    HandedNextIff(q, p.spare.value, handedOut + [p.listening]);
  }

  // ---- the acceptor ---------------------------------------------------------------------------------------------

  class NamedPipeAcceptor {
    var listening: nat
    var spare: Option<nat>
    var created: nat
    var clients: set<nat>
    ghost var handedOut: seq<nat>

    ghost function Now(): Instances
      reads this
    {
      Instances(listening, spare, created, clients)
    }

    ghost predicate Valid()
      reads this
    {
      Conserved(Now(), handedOut)
    }

    constructor Bind()
      ensures Valid() && Now() == BOUND && handedOut == []
    {
      listening, spare, created, clients, handedOut := 0, None, 1, {}, [];
    }

    method ClientsArrive(reached: set<nat>)
      requires Valid()
      modifies this`clients
      ensures Valid() && Now() == Reach(old(Now()), reached)
    {
      ReachKeeps(Now(), reached, handedOut);
      hide Conserved;
      if listening in reached { clients := clients + {listening}; }
      if spare.Some? && spare.value in reached { clients := clients + {spare.value}; }
      assert clients == Reach(old(Now()), reached).clients;
    }

    /** The listening instance leaves and the reserve takes its place. */
    method HandOver() returns (instance: nat)
      requires Valid() && spare.Some? && listening in clients
      modifies this`listening, this`spare, this`handedOut
      ensures Valid() && instance == old(listening) && handedOut == old(handedOut) + [instance]
      ensures Now() == old(Now()).(listening := old(spare).value, spare := None)
    {
      HandingKeeps(Now(), handedOut);
      instance := listening;
      handedOut := handedOut + [listening];
      listening, spare := spare.value, None;
    }

    /** Waits for a client and hands out its instance. */
    method Accept(createFails: bool, inputs: seq<Input>) returns (r: Answer)
      requires Valid()
      modifies this
      ensures Valid() && handedOut == HandedAfter(old(handedOut), r)
      ensures Accepted(Now(), r) == AcceptOn(old(Now()), createFails, inputs)
    {
      ReserveKeeps(Now(), handedOut);
      hide Conserved, Reach;
      if spare.None? {
        if createFails { return CreateFailed; }
        spare := Some(created);
        created := created + 1;
      }
      var i := 0;
      while i < |inputs|
        invariant i <= |inputs| && Valid() && handedOut == old(handedOut) && spare.Some?
        invariant AcceptOn(old(Now()), createFails, inputs) == Wait(Now(), inputs[i..])
      {
        assert inputs[i..][1..] == inputs[i + 1..];
        ReachOwns(Now(), inputs[i].reached);
        ClientsArrive(inputs[i].reached);
        if inputs[i].fails { return ConnectFailed; }
        if listening in clients {
          var instance := HandOver();
          return Handed(instance);
        }
        i := i + 1;
      }
      return Dropped;
    }
  }

  lemma ReachOwns(p: Instances, reached: set<nat>)
    ensures Reach(p, reached).listening == p.listening && Reach(p, reached).spare == p.spare
  {
  }

  /** An accept: the clients that come before it, whether creating a reserve fails, and what happens while it waits. */
  datatype Call = Call(before: set<nat>, createFails: bool, inputs: seq<Input>)

  /** Any number of accepts, each dropped or failing at any point, with clients arriving during, between and after
      them. No instance is handed out twice, and no client is lost: the instance it reached was handed out or is still
      held. */
  method Serve(calls: seq<Call>, last: set<nat>) returns (handed: seq<nat>, held: set<nat>, clients: set<nat>)
    ensures forall i, j :: 0 <= i < j < |handed| ==> handed[i] != handed[j]
    ensures forall c :: c in clients ==> c in held || c in handed
    ensures forall c :: c in handed ==> c in clients && c !in held
    ensures |held| == 1 || |held| == 2
  {
    hide AcceptOn, Reach;
    var a := new NamedPipeAcceptor.Bind();
    handed := [];
    for k := 0 to |calls|
      invariant a.Valid() && a.handedOut == handed
    {
      a.ClientsArrive(calls[k].before);
      var r := a.Accept(calls[k].createFails, calls[k].inputs);
      if r.Handed? { handed := handed + [r.instance]; }
    }
    a.ClientsArrive(last);
    clients := a.clients;
    held := if a.spare.Some? then {a.listening, a.spare.value} else {a.listening};
  }
}
