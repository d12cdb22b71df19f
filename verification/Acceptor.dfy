/** The concurrent acceptor of `src/rpc/acceptor.rs`: connections are taken from a listener, their handshakes run side
    by side up to a limit, and those that pass are handed out. */
module Acceptor {
  import opened Bytes
  import opened Packets
  import opened Handshake
  import opened HandshakeHalves

  /** What a connection's handshake comes to, within its deadline. */
  datatype Verdict = Passed(peer: Option<Version>) | NotPassed

  /** Where an accepted connection is. One that was dropped keeps the handshakes that were running then. */
  datatype Place = InAccept | Pending | OverLimit(running: seq<nat>) | Failed | HandedOut(peer: Option<Version>)

  predicate Final(p: Place) { p.OverLimit? || p.Failed? || p.HandedOut? }

  /** The connection's handshake was started. */
  predicate Ran(p: Place) { p.Pending? || p.Failed? || p.HandedOut? }

  /** The accept under way: not started, waiting, or finished with a connection or with the listener's error. A
      finished accept keeps its result until a call takes it. */
  datatype Accepting = NotStarted | Waiting | Ready(conn: Option<nat>)

  /** What the listener does to an accept that waits on it. */
  datatype Listens = Nothing | Connects | Breaks

  /** What happens by the time of one poll: what the listener does, and which of the pending handshakes, counted from
      the front, has finished. */
  datatype Input = Input(listener: Listens, settles: Option<nat>)

  datatype Answer = Session(conn: nat, peer: Option<Version>) | ListenerError | Dropped

  /** Connections are numbered as they arrive; each has its place. */
  datatype State = State(accepting: Accepting, pending: seq<nat>, places: seq<Place>)

  const FRESH: State := State(NotStarted, [], [])

  /** Only connections that have arrived are spoken of. */
  ghost predicate Numbered(a: State) {
    && (a.accepting.Ready? && a.accepting.conn.Some? ==> a.accepting.conn.value < |a.places|)
    && (forall i :: 0 <= i < |a.pending| ==> a.pending[i] < |a.places|)
  }

  // ---- one poll -------------------------------------------------------------------------------------------------

  /** The listener completes an accept that waits on it. It can do so at any time, whether or not a call is polling. */
  function Arrive(a: State, listener: Listens): (b: State)
    ensures Numbered(a) ==> Numbered(b)
  {
    if !a.accepting.Waiting? || listener.Nothing? then a
    else if listener.Breaks? then a.(accepting := Ready(None))
    else State(Ready(Some(|a.places|)), a.pending, a.places + [InAccept])
  }

  function Start(a: State): State {
    if a.accepting.NotStarted? then a.(accepting := Waiting) else a
  }

  function TakeAccepted(a: State, maxPending: nat): (b: State)
    requires Numbered(a) && a.accepting.Ready?
    ensures Numbered(b)
  {
    var rest := a.(accepting := NotStarted);
    match a.accepting.conn
    case None => rest
    case Some(c) =>
      if |a.pending| >= maxPending then rest.(places := a.places[c := OverLimit(a.pending)])
      else rest.(pending := a.pending + [c], places := a.places[c := Pending])
  }

  function Settle(a: State, k: nat, v: Verdict): (b: State)
    requires Numbered(a) && k < |a.pending|
    ensures Numbered(b)
  {
    var place := if v.Passed? then HandedOut(v.peer) else Failed;
    State(a.accepting, a.pending[..k] + a.pending[k + 1..], a.places[a.pending[k] := place])
  }

  datatype Polled = Polled(state: State, answer: Option<Answer>)

  /** A finished accept goes first, otherwise a finished handshake if there is one. */
  function Poll(a: State, input: Input, maxPending: nat, verdict: nat -> Verdict): (p: Polled)
    requires Numbered(a)
    ensures Numbered(p.state)
  {
    var b := Arrive(Start(a), input.listener);
    if b.accepting.Ready? then
      Polled(TakeAccepted(b, maxPending), if b.accepting.conn.None? then Some(ListenerError) else None)
    else if input.settles.Some? && input.settles.value < |b.pending| then
      var k := input.settles.value;
      var v := verdict(b.pending[k]);
      Polled(Settle(b, k, v), if v.Passed? then Some(Session(b.pending[k], v.peer)) else None)
    else Polled(b, None)
  }

  /** A call of `next` that is polled once per input and dropped when there are no more. Between the last poll and the
      drop the listener may act once more, so a dropped call may leave a finished accept behind. */
  function Next(a: State, inputs: seq<Input>, late: Listens, maxPending: nat, verdict: nat -> Verdict): (p: Polled)
    requires Numbered(a)
    ensures Numbered(p.state) && p.answer.Some?
    decreases |inputs|
  {
    if inputs == [] then Polled(Arrive(a, late), Some(Dropped))
    else
      var p := Poll(a, inputs[0], maxPending, verdict);
      if p.answer.Some? then p else Next(p.state, inputs[1..], late, maxPending, verdict)
  }

  // ---- what a poll answers ----------------------------------------------------------------------------------------

  /** Where a finished handshake puts its connection. */
  ghost function Outcome(v: Verdict): Place {
    match v
    case Passed(peer) => HandedOut(peer)
    case NotPassed => Failed
  }

  /** The connection whose handshake this poll finds finished: none if there is an accept to deal with first. */
  ghost function Settling(a: State, input: Input): set<nat> {
    if !a.accepting.Ready? && input.listener.Nothing? && input.settles.Some? && input.settles.value < |a.pending|
    then {a.pending[input.settles.value]} else {}
  }

  /** What a poll comes to, case by case: a listener that broke is reported, a new connection starts its handshake or
      is dropped at the limit, and otherwise a finished handshake leaves the pending ones and is answered with its
      session exactly when it passed. */
  lemma PollAnswers(a: State, input: Input, maxPending: nat, verdict: nat -> Verdict)
    requires Numbered(a)
    ensures var p := Poll(a, input, maxPending, verdict);
            && (a.accepting == Ready(None) || (!a.accepting.Ready? && input.listener.Breaks?) ==>
                  p == Polled(State(NotStarted, a.pending, a.places), Some(ListenerError)))
            && (!a.accepting.Ready? && input.listener.Connects? ==>
                  if |a.pending| < maxPending then
                    p == Polled(State(NotStarted, a.pending + [|a.places|], a.places + [Pending]), None)
                  else p == Polled(State(NotStarted, a.pending, a.places + [OverLimit(a.pending)]), None))
            && (forall c: nat :: a.accepting == Ready(Some(c)) ==>
                  if |a.pending| < maxPending then
                    p == Polled(State(NotStarted, a.pending + [c], a.places[c := Pending]), None)
                  else p == Polled(State(NotStarted, a.pending, a.places[c := OverLimit(a.pending)]), None))
            && (!a.accepting.Ready? && input.listener.Nothing? && Settling(a, input) == {} ==>
                  p == Polled(State(Waiting, a.pending, a.places), None))
            && (forall c: nat :: c in Settling(a, input) ==>
                  && c < |a.places|
                  && p.answer == (if verdict(c).Passed? then Some(Session(c, verdict(c).peer)) else None)
                  && p.state.places == a.places[c := Outcome(verdict(c))] && p.state.accepting == Waiting
                  && multiset(p.state.pending) == multiset(a.pending) - multiset{c})
  {
    var p := Poll(a, input, maxPending, verdict);
    if !a.accepting.Ready? && input.listener.Connects? {
      var n := |a.places|;
      assert (a.places + [InAccept])[n := Pending] == a.places + [Pending];
      assert (a.places + [InAccept])[n := OverLimit(a.pending)] == a.places + [OverLimit(a.pending)];
    }
    if Settling(a, input) != {} {
      var k := input.settles.value;
      assert a.pending == a.pending[..k] + [a.pending[k]] + a.pending[k + 1..];
    }
  }

  /** The states a call goes through, one poll after the other. */
  ghost predicate PolledThrough(states: seq<State>, inputs: seq<Input>, maxPending: nat, verdict: nat -> Verdict) {
    && |states| == |inputs| + 1
    && (forall j :: 0 <= j < |states| ==> Numbered(states[j]))
    && (forall j :: 0 <= j < |inputs| ==> states[j + 1] == Poll(states[j], inputs[j], maxPending, verdict).state)
  }

  /** A call goes on polling until a poll has an answer, and gives that answer; it is dropped only if none has. */
  lemma {:induction false} NextAnswers(states: seq<State>, inputs: seq<Input>, late: Listens, i: nat, maxPending: nat,
                                       verdict: nat -> Verdict)
    requires PolledThrough(states, inputs, maxPending, verdict) && i <= |inputs|
    requires forall j :: 0 <= j < i ==> Poll(states[j], inputs[j], maxPending, verdict).answer.None?
    ensures i == |inputs| ==>
              Next(states[0], inputs, late, maxPending, verdict) == Polled(Arrive(states[i], late), Some(Dropped))
    ensures i < |inputs| && Poll(states[i], inputs[i], maxPending, verdict).answer.Some? ==>
              Next(states[0], inputs, late, maxPending, verdict) == Poll(states[i], inputs[i], maxPending, verdict)
    decreases i
  {
    hide Poll, Arrive, Numbered;
    if i > 0 {
      assert Poll(states[0], inputs[0], maxPending, verdict).answer.None?;
      NextAnswers(states[1..], inputs[1..], late, i - 1, maxPending, verdict);
    }
  }

  // ---- what every poll keeps ------------------------------------------------------------------------------------

  ghost predicate Distinct(s: seq<nat>) {
    forall i, j :: 0 <= i < j < |s| ==> s[i] != s[j]
  }

  ghost predicate PendingValid(a: State, maxPending: nat) {
    && |a.pending| <= maxPending && Distinct(a.pending)
    && (forall c :: c in a.pending ==> c < |a.places| && a.places[c].Pending?)
    && (forall c :: 0 <= c < |a.places| && a.places[c].Pending? ==> c in a.pending)
  }

  /** The connection in the accept is the last that arrived, and it is the only one there. */
  ghost predicate AcceptingValid(a: State) {
    && (forall c :: 0 <= c < |a.places| && a.places[c].InAccept? ==> a.accepting == Ready(Some(c)))
    && (a.accepting.Ready? && a.accepting.conn.Some? ==>
          a.accepting.conn.value == |a.places| - 1 && a.places[a.accepting.conn.value].InAccept?)
  }

  ghost predicate VerdictsValid(a: State, verdict: nat -> Verdict) {
    forall c :: 0 <= c < |a.places| ==>
                  && (a.places[c].HandedOut? ==> verdict(c) == Passed(a.places[c].peer))
                  && (a.places[c].Failed? ==> verdict(c) == NotPassed)
  }

  /** `running` names as many connections as may run at once, all of them earlier ones whose handshake was started. */
  ghost predicate WasFull(places: seq<Place>, c: nat, running: seq<nat>, maxPending: nat) {
    && |running| == maxPending && Distinct(running)
    && (forall i :: 0 <= i < |running| ==> running[i] < c && running[i] < |places| && Ran(places[running[i]]))
  }

  /** A connection was dropped only because the limit was reached. */
  ghost predicate DropsValid(places: seq<Place>, maxPending: nat) {
    forall c :: 0 <= c < |places| && places[c].OverLimit? ==> WasFull(places, c, places[c].running, maxPending)
  }

  /** The acceptor's own state accounts for every connection: those with a running handshake are exactly the pending
      ones, the one in the accept is there, and the others have reached a final place for the right reason. */
  ghost predicate Conserved(a: State, maxPending: nat, verdict: nat -> Verdict) {
    && Numbered(a)
    && PendingValid(a, maxPending) && AcceptingValid(a) && VerdictsValid(a, verdict) && DropsValid(a.places, maxPending)
  }

  /** No connection disappears, leaves a final place, has its handshake forgotten, or is newly handed out, save the one
      named. */
  ghost predicate Forward(before: seq<Place>, after: seq<Place>, but: Option<nat>) {
    && |before| <= |after|
    && (forall c :: 0 <= c < |before| && Final(before[c]) ==> after[c] == before[c])
    && (forall c :: 0 <= c < |before| && Ran(before[c]) ==> Ran(after[c]))
    && (forall c :: 0 <= c < |after| && after[c].HandedOut? && but != Some(c) ==>
                      c < |before| && before[c].HandedOut?)
  }

  lemma ForwardTwice(a: seq<Place>, b: seq<Place>, c: seq<Place>, but: Option<nat>)
    requires Forward(a, b, None) && Forward(b, c, but)
    ensures Forward(a, c, but)
  {
  }

  /** Drops that were justified stay so; only new ones need looking at. */
  lemma DropsStayValid(a: seq<Place>, b: seq<Place>, but: Option<nat>, maxPending: nat)
    requires Forward(a, b, but) && DropsValid(a, maxPending)
    requires forall c :: 0 <= c < |b| && b[c].OverLimit? && !(c < |a| && a[c].OverLimit?) ==>
                           WasFull(b, c, b[c].running, maxPending)
    ensures DropsValid(b, maxPending)
  {
    forall c | 0 <= c < |b| && b[c].OverLimit? ensures WasFull(b, c, b[c].running, maxPending) {
      if c < |a| && a[c].OverLimit? { assert WasFull(a, c, a[c].running, maxPending); }
    }
  }

  lemma WithoutOne(s: seq<nat>, k: nat)
    requires k < |s| && Distinct(s)
    ensures var t := s[..k] + s[k + 1..];
            Distinct(t) && forall c :: c in t <==> c in s && c != s[k]
  {
    var t := s[..k] + s[k + 1..];
    forall c | c in s && c != s[k] ensures c in t {
      var i :| 0 <= i < |s| && s[i] == c;
      assert t[if i < k then i else i - 1] == c;
    }
  }

  lemma ArriveKeeps(a: State, listener: Listens, maxPending: nat, verdict: nat -> Verdict)
    requires Conserved(a, maxPending, verdict)
    ensures Conserved(Arrive(a, listener), maxPending, verdict)
    ensures Forward(a.places, Arrive(a, listener).places, None)
  {
    var b := Arrive(a, listener);
    assert Forward(a.places, b.places, None);
    DropsStayValid(a.places, b.places, None, maxPending);
    hide DropsValid;
  }

  lemma StartKeeps(a: State, maxPending: nat, verdict: nat -> Verdict)
    requires Conserved(a, maxPending, verdict)
    ensures Conserved(Start(a), maxPending, verdict)
  {
    hide DropsValid;
  }

  lemma TakeAcceptedKeeps(a: State, maxPending: nat, verdict: nat -> Verdict)
    requires Conserved(a, maxPending, verdict) && a.accepting.Ready?
    ensures Conserved(TakeAccepted(a, maxPending), maxPending, verdict)
    ensures Forward(a.places, TakeAccepted(a, maxPending).places, None)
  {
    var b := TakeAccepted(a, maxPending);
    assert Forward(a.places, b.places, None);
    if a.accepting.conn.Some? && |a.pending| >= maxPending {
      EarlierAreRunning(a, maxPending);
    }
    DropsStayValid(a.places, b.places, None, maxPending);
    hide DropsValid, WasFull;
  }

  lemma EarlierAreRunning(a: State, maxPending: nat)
    requires Numbered(a) && PendingValid(a, maxPending) && AcceptingValid(a) && |a.pending| >= maxPending
    requires a.accepting.Ready? && a.accepting.conn.Some?
    ensures var c := a.accepting.conn.value;
            WasFull(a.places[c := OverLimit(a.pending)], c, a.pending, maxPending)
  {
    forall i | 0 <= i < |a.pending| ensures a.pending[i] < |a.places| - 1 && a.places[a.pending[i]].Pending? {
      assert a.pending[i] in a.pending;
    }
  }

  lemma SettleKeeps(a: State, k: nat, maxPending: nat, verdict: nat -> Verdict)
    requires Conserved(a, maxPending, verdict) && k < |a.pending|
    ensures var c := a.pending[k]; var v := verdict(c); var b := Settle(a, k, v);
            && Conserved(b, maxPending, verdict)
            && Forward(a.places, b.places, if v.Passed? then Some(c) else None)
            && a.places[c].Pending? && (v.Passed? ==> b.places[c] == HandedOut(v.peer))
  {
    var c := a.pending[k];
    var v := verdict(c);
    var b := Settle(a, k, v);
    assert c in a.pending;
    assert Forward(a.places, b.places, if v.Passed? then Some(c) else None);
    DropsStayValid(a.places, b.places, if v.Passed? then Some(c) else None, maxPending);
    WithoutOne(a.pending, k);
    hide DropsValid, WasFull;
  }

  ghost function HandedBy(answer: Option<Answer>): Option<nat> {
    if answer.Some? && answer.value.Session? then Some(answer.value.conn) else None
  }

  /** A session handed out is one that was not handed out before, and now is. */
  ghost predicate GoodAnswer(before: seq<Place>, after: seq<Place>, answer: Option<Answer>) {
    answer.Some? && answer.value.Session? ==>
      var c := answer.value.conn;
      c < |after| && after[c] == HandedOut(answer.value.peer) && (c < |before| ==> !Final(before[c]))
  }

  lemma PollKeeps(a: State, input: Input, maxPending: nat, verdict: nat -> Verdict)
    requires Conserved(a, maxPending, verdict)
    ensures Numbered(a)
    ensures var p := Poll(a, input, maxPending, verdict);
            && Conserved(p.state, maxPending, verdict)
            && Forward(a.places, p.state.places, HandedBy(p.answer))
            && GoodAnswer(a.places, p.state.places, p.answer)
  {
    var b := Arrive(Start(a), input.listener);
    StartKeeps(a, maxPending, verdict);
    ArriveKeeps(Start(a), input.listener, maxPending, verdict);
    StillNumbered(a, maxPending, verdict);
    StillNumbered(b, maxPending, verdict);
    hide Conserved, Arrive, TakeAccepted, Settle, Numbered;
    if b.accepting.Ready? {
      TakeAcceptedKeeps(b, maxPending, verdict);
      ForwardTwice(a.places, b.places, TakeAccepted(b, maxPending).places, None);
    } else if input.settles.Some? && input.settles.value < |b.pending| {
      var k := input.settles.value;
      var v := verdict(b.pending[k]);
      SettleKeeps(b, k, maxPending, verdict);
      ForwardTwice(a.places, b.places, Settle(b, k, v).places, if v.Passed? then Some(b.pending[k]) else None);
    }
  }

  lemma StillNumbered(a: State, maxPending: nat, verdict: nat -> Verdict)
    requires Conserved(a, maxPending, verdict)
    ensures Numbered(a)
  {
  }

  /** A whole call, answered or dropped, keeps every connection accounted for, and drops one only at the limit. */
  lemma {:induction false} NextKeeps(a: State, inputs: seq<Input>, late: Listens, maxPending: nat,
                                     verdict: nat -> Verdict)
    requires Conserved(a, maxPending, verdict)
    ensures Numbered(a)
    ensures var p := Next(a, inputs, late, maxPending, verdict);
            && Conserved(p.state, maxPending, verdict)
            && Forward(a.places, p.state.places, HandedBy(p.answer))
            && GoodAnswer(a.places, p.state.places, p.answer)
    decreases |inputs|
  {
    StillNumbered(a, maxPending, verdict);
    hide Conserved, Poll, Arrive, Numbered;
    if inputs == [] {
      ArriveKeeps(a, late, maxPending, verdict);
    } else {
      var p := Poll(a, inputs[0], maxPending, verdict);
      PollKeeps(a, inputs[0], maxPending, verdict);
      if p.answer.None? {
        NextKeeps(p.state, inputs[1..], late, maxPending, verdict);
        var q := Next(p.state, inputs[1..], late, maxPending, verdict);
        ForwardTwice(a.places, p.state.places, q.state.places, HandedBy(q.answer));
      }
    }
  }

  // ---- cancellation ---------------------------------------------------------------------------------------------

  /** A connection whose accept finished while nobody was polling: after a dropped call, or between two calls. However
      many calls are dropped unpolled, it stays in the accept; the first poll of the next call starts its handshake, or
      drops it if as many are running as may. */
  lemma FinishedAcceptIsTaken(a: State, c: nat, input: Input, late: Listens, maxPending: nat, verdict: nat -> Verdict)
    requires Conserved(a, maxPending, verdict) && a.accepting == Ready(Some(c))
    ensures Next(a, [], late, maxPending, verdict).state == a
    ensures var p := Poll(a, input, maxPending, verdict);
            && p.answer == None && p.state.accepting == NotStarted && |p.state.places| == |a.places|
            && p.state.places[c] == (if |a.pending| == maxPending then OverLimit(a.pending) else Pending)
            && (c in p.state.pending <==> |a.pending| < maxPending)
  {
    assert c !in a.pending;
  }

  /** So it is never lost: a call that is polled at all, whatever its outcome, leaves it outside the accept. */
  lemma FinishedAcceptLeaves(a: State, c: nat, inputs: seq<Input>, late: Listens, maxPending: nat,
                             verdict: nat -> Verdict)
    requires Conserved(a, maxPending, verdict) && a.accepting == Ready(Some(c)) && inputs != []
    ensures var after := Next(a, inputs, late, maxPending, verdict).state;
            c < |after.places| && (Ran(after.places[c]) || after.places[c] == OverLimit(a.pending))
  {
    var p := Poll(a, inputs[0], maxPending, verdict);
    FinishedAcceptIsTaken(a, c, inputs[0], late, maxPending, verdict);
    PollKeeps(a, inputs[0], maxPending, verdict);
    NextKeeps(p.state, inputs[1..], late, maxPending, verdict);
    hide Poll, Conserved;
  }

  /** A dropped call that was waiting leaves its accept to the listener: a connection that then arrives is in it. */
  lemma ArrivesInDroppedAccept(a: State, maxPending: nat, verdict: nat -> Verdict)
    requires Conserved(a, maxPending, verdict) && a.accepting == Waiting
    ensures var b := Next(a, [], Connects, maxPending, verdict);
            && b.answer == Some(Dropped)
            && b.state.accepting == Ready(Some(|a.places|)) && b.state.places == a.places + [InAccept]
  {
  }

  lemma {:induction false} DistinctBelow(s: seq<nat>, n: nat)
    requires Distinct(s) && forall i :: 0 <= i < |s| ==> s[i] < n
    ensures |s| <= n
  {
    if s != [] {
      assert s[0] < n;
      if n - 1 in s {
        var k :| 0 <= k < |s| && s[k] == n - 1;
        var t := s[..k] + s[k + 1..];
        WithoutOne(s, k);
        forall i | 0 <= i < |t| ensures t[i] < n - 1 { assert t[i] in t; }
        DistinctBelow(t, n - 1);
      } else {
        forall i | 0 <= i < |s| ensures s[i] < n - 1 { assert s[i] in s; }
        DistinctBelow(s, n - 1);
      }
    }
  }

  // ---- whole runs -----------------------------------------------------------------------------------------------

  /** The connections whose handshake the polls of a call find finished. */
  ghost function SettledBy(a: State, inputs: seq<Input>, maxPending: nat, verdict: nat -> Verdict): set<nat>
    requires Numbered(a)
    decreases |inputs|
  {
    if inputs == [] then {}
    else
      var p := Poll(a, inputs[0], maxPending, verdict);
      Settling(a, inputs[0]) + if p.answer.Some? then {} else SettledBy(p.state, inputs[1..], maxPending, verdict)
  }

  /** The connections with a handshake that is over are exactly these. */
  ghost predicate AllSettled(settled: set<nat>, places: seq<Place>, verdict: nat -> Verdict) {
    && (forall c :: c in settled ==> c < |places| && places[c] == Outcome(verdict(c)))
    && (forall c :: 0 <= c < |places| && (places[c].HandedOut? || places[c].Failed?) ==> c in settled)
  }

  lemma ArriveSettles(a: State, listener: Listens, settled: set<nat>, verdict: nat -> Verdict)
    requires AllSettled(settled, a.places, verdict)
    ensures AllSettled(settled, Arrive(a, listener).places, verdict)
  {
  }

  lemma PollSettles(a: State, input: Input, settled: set<nat>, maxPending: nat, verdict: nat -> Verdict)
    requires Conserved(a, maxPending, verdict) && AllSettled(settled, a.places, verdict)
    ensures AllSettled(settled + Settling(a, input), Poll(a, input, maxPending, verdict).state.places, verdict)
  {
    PollAnswers(a, input, maxPending, verdict);
    hide Poll, DropsValid;
  }

  lemma {:induction false} NextSettles(a: State, inputs: seq<Input>, late: Listens, settled: set<nat>,
                                       maxPending: nat, verdict: nat -> Verdict)
    requires Conserved(a, maxPending, verdict) && AllSettled(settled, a.places, verdict)
    ensures AllSettled(settled + SettledBy(a, inputs, maxPending, verdict),
                       Next(a, inputs, late, maxPending, verdict).state.places, verdict)
    decreases |inputs|
  {
    StillNumbered(a, maxPending, verdict);
    hide Conserved, Poll, Arrive, Numbered, AllSettled, Settling, Forward, GoodAnswer;
    if inputs == [] {
      ArriveSettles(a, late, settled, verdict);
      assert settled + {} == settled;
    } else {
      var p := Poll(a, inputs[0], maxPending, verdict);
      var now := settled + Settling(a, inputs[0]);
      PollKeeps(a, inputs[0], maxPending, verdict);
      PollSettles(a, inputs[0], settled, maxPending, verdict);
      if p.answer.None? {
        NextSettles(p.state, inputs[1..], late, now, maxPending, verdict);
        assert settled + SettledBy(a, inputs, maxPending, verdict)
            == now + SettledBy(p.state, inputs[1..], maxPending, verdict);
      } else {
        assert settled + SettledBy(a, inputs, maxPending, verdict) == now;
      }
    }
  }

  /** A call of `next`: what the listener did before it, its polls, and what the listener does before it is dropped. */
  datatype Call = Call(before: Listens, inputs: seq<Input>, late: Listens)

  /** What has come of a number of calls: the acceptor, the sessions handed out, and the connections whose handshake a
      poll has found finished. */
  datatype Run = Run(state: State, sessions: seq<Answer>, settled: set<nat>)

  ghost function RunOf(calls: seq<Call>, maxPending: nat, verdict: nat -> Verdict): (r: Run)
    ensures Numbered(r.state)
  {
    if calls == [] then Run(FRESH, [], {})
    else
      var before, call := RunOf(calls[..|calls| - 1], maxPending, verdict), calls[|calls| - 1];
      var a := Arrive(before.state, call.before);
      var p := Next(a, call.inputs, call.late, maxPending, verdict);
      Run(p.state, before.sessions + if p.answer.value.Session? then [p.answer.value] else [],
          before.settled + SettledBy(a, call.inputs, maxPending, verdict))
  }

  /** After any calls every connection is accounted for, the sessions are the connections handed out, and a connection
      whose handshake was found finished has been handed out or has failed, as its verdict says. */
  lemma {:induction false} RunKeeps(calls: seq<Call>, maxPending: nat, verdict: nat -> Verdict)
    ensures var r := RunOf(calls, maxPending, verdict);
            && Conserved(r.state, maxPending, verdict)
            && SessionsAre(r.sessions, r.state.places)
            && AllSettled(r.settled, r.state.places, verdict)
  {
    hide Conserved, SessionsAre, AllSettled, Next, Arrive, SettledBy, Numbered;
    if calls == [] {
      FreshRun(maxPending, verdict);
    } else {
      var before, call := RunOf(calls[..|calls| - 1], maxPending, verdict), calls[|calls| - 1];
      RunKeeps(calls[..|calls| - 1], maxPending, verdict);
      CallKeeps(before, call, maxPending, verdict);
    }
  }

  lemma FreshRun(maxPending: nat, verdict: nat -> Verdict)
    ensures Conserved(FRESH, maxPending, verdict) && SessionsAre([], []) && AllSettled({}, [], verdict)
  {
  }

  lemma CallKeeps(before: Run, call: Call, maxPending: nat, verdict: nat -> Verdict)
    requires Conserved(before.state, maxPending, verdict) && SessionsAre(before.sessions, before.state.places)
    requires AllSettled(before.settled, before.state.places, verdict)
    ensures Numbered(before.state)
    ensures var a := Arrive(before.state, call.before);
            var p := Next(a, call.inputs, call.late, maxPending, verdict);
            && Conserved(p.state, maxPending, verdict)
            && SessionsAre(before.sessions + if p.answer.value.Session? then [p.answer.value] else [], p.state.places)
            && AllSettled(before.settled + SettledBy(a, call.inputs, maxPending, verdict), p.state.places, verdict)
  {
    StillNumbered(before.state, maxPending, verdict);
    hide Conserved, SessionsAre, AllSettled, Next, Arrive, SettledBy, Numbered, Forward, GoodAnswer;
    var a := Arrive(before.state, call.before);
    var p := Next(a, call.inputs, call.late, maxPending, verdict);
    ArriveKeeps(before.state, call.before, maxPending, verdict);
    StillSessions(before.sessions, before.state.places, a.places);
    ArriveSettles(before.state, call.before, before.settled, verdict);
    NextKeeps(a, call.inputs, call.late, maxPending, verdict);
    NextSettles(a, call.inputs, call.late, before.settled, maxPending, verdict);
    if p.answer.value.Session? {
      OneMoreSession(before.sessions, a.places, p.state.places, p.answer.value);
    } else {
      StillSessions(before.sessions, a.places, p.state.places);
      assert before.sessions + [] == before.sessions;
    }
  }

  /** The sessions are the connections handed out, each once. */
  ghost predicate SessionsAre(sessions: seq<Answer>, places: seq<Place>) {
    && (forall i :: 0 <= i < |sessions| ==>
                      && sessions[i].Session? && sessions[i].conn < |places|
                      && places[sessions[i].conn] == HandedOut(sessions[i].peer))
    && (forall i, j :: 0 <= i < j < |sessions| ==> sessions[i].conn != sessions[j].conn)
    && (forall c :: 0 <= c < |places| && places[c].HandedOut? ==> Session(c, places[c].peer) in sessions)
  }

  lemma StillSessions(sessions: seq<Answer>, before: seq<Place>, after: seq<Place>)
    requires SessionsAre(sessions, before) && Forward(before, after, None)
    ensures SessionsAre(sessions, after)
  {
  }

  lemma OneMoreSession(sessions: seq<Answer>, before: seq<Place>, after: seq<Place>, r: Answer)
    requires SessionsAre(sessions, before) && r.Session? && Forward(before, after, Some(r.conn))
    requires GoodAnswer(before, after, Some(r))
    ensures SessionsAre(sessions + [r], after)
  {
    forall c | 0 <= c < |after| && after[c].HandedOut? ensures Session(c, after[c].peer) in sessions + [r] {
      if c != r.conn { assert Session(c, before[c].peer) in sessions; }
    }
  }

  // ---- the acceptor ---------------------------------------------------------------------------------------------

  class SessionAcceptor {
    const maxPending: nat
    /** The outcome of every connection's handshake. */
    const verdict: nat -> Verdict
    var accepting: Accepting
    var pending: seq<nat>
    /** How many connections the listener has produced. */
    var arrived: nat
    ghost var places: seq<Place>

    ghost function Now(): State
      reads this
    {
      State(accepting, pending, places)
    }

    ghost predicate Valid()
      reads this
    {
      maxPending > 0 && arrived == |places| && Conserved(Now(), maxPending, verdict)
    }

    constructor (maxPending: nat, verdict: nat -> Verdict)
      ensures Valid() && Now() == FRESH && this.verdict == verdict && this.maxPending == Max(maxPending, 1)
    {
      this.maxPending, this.verdict := Max(maxPending, 1), verdict;
      accepting, pending, arrived, places := NotStarted, [], 0, [];
    }

    /** The listener finishes the accept, if one waits. */
    method ListenerActs(listener: Listens)
      requires Valid()
      modifies this`accepting, this`arrived, this`places
      ensures Valid() && Now() == Arrive(old(Now()), listener)
    {
      ArriveKeeps(Now(), listener, maxPending, verdict);
      hide Conserved;
      if accepting.Waiting? && listener.Breaks? {
        accepting := Ready(None);
      } else if accepting.Waiting? && listener.Connects? {
        accepting, arrived, places := Ready(Some(arrived)), arrived + 1, places + [InAccept];
      }
    }

    /** Deals with a finished accept; false if it was the listener that failed. */
    method TakeFinished() returns (ok: bool)
      requires Valid() && accepting.Ready?
      modifies this`accepting, this`pending, this`places
      ensures Valid() && Numbered(old(Now()))
      ensures Now() == TakeAccepted(old(Now()), maxPending) && ok == old(accepting).conn.Some?
    {
      StillNumbered(Now(), maxPending, verdict);
      TakeAcceptedKeeps(Now(), maxPending, verdict);
      hide Conserved;
      var accepted := accepting.conn;
      accepting := NotStarted;
      if accepted.None? { return false; }
      if |pending| >= maxPending {
        places := places[accepted.value := OverLimit(pending)];
      } else {
        places := places[accepted.value := Pending];
        pending := pending + [accepted.value];
      }
      return true;
    }

    /** Removes a finished handshake from the pending ones. */
    method SettleOne(k: nat) returns (conn: nat, v: Verdict)
      requires Valid() && k < |pending|
      modifies this`pending, this`places
      ensures Valid() && Numbered(old(Now()))
      ensures conn == old(pending)[k] && v == verdict(conn) && Now() == Settle(old(Now()), k, v)
    {
      StillNumbered(Now(), maxPending, verdict);
      SettleKeeps(Now(), k, maxPending, verdict);
      hide Conserved;
      conn := pending[k];
      v := verdict(conn);
      pending := pending[..k] + pending[k + 1..];
      places := places[conn := if v.Passed? then HandedOut(v.peer) else Failed];
    }

    /** One turn of the loop. */
    method Turn(input: Input) returns (answer: Option<Answer>)
      requires Valid()
      modifies this
      ensures Valid() && Numbered(old(Now()))
      ensures Polled(Now(), answer) == Poll(old(Now()), input, maxPending, verdict)
    {
      StillNumbered(Now(), maxPending, verdict);
      StartKeeps(Now(), maxPending, verdict);
      hide Conserved, Numbered, Arrive, TakeAccepted, Settle;
      if accepting.NotStarted? { accepting := Waiting; }
      ListenerActs(input.listener);
      if accepting.Ready? {
        var ok := TakeFinished();
        return if ok then None else Some(ListenerError);
      } else if input.settles.Some? && input.settles.value < |pending| {
        var conn, v := SettleOne(input.settles.value);
        return if v.Passed? then Some(Session(conn, v.peer)) else None;
      }
      return None;
    }

    /** The next session that passed, or the listener's error. A call dropped while it waits leaves the accept, finished
        or not, and the handshakes under way to the next one. */
    method GetNext(inputs: seq<Input>, late: Listens) returns (r: Answer)
      requires Valid()
      modifies this
      ensures Valid() && Numbered(old(Now()))
      ensures Polled(Now(), Some(r)) == Next(old(Now()), inputs, late, maxPending, verdict)
    {
      StillNumbered(Now(), maxPending, verdict);
      hide Conserved, Poll, Arrive, Numbered;
      var i := 0;
      while i < |inputs|
        invariant i <= |inputs| && Valid() && Numbered(Now())
        invariant Next(old(Now()), inputs, late, maxPending, verdict)
               == Next(Now(), inputs[i..], late, maxPending, verdict)
      {
        assert inputs[i..][1..] == inputs[i + 1..];
        var answer := Turn(inputs[i]);
        if answer.Some? { return answer.value; }
        i := i + 1;
      }
      ListenerActs(late);
      return Dropped;
    }
  }

  /** Any sequence of `next` calls, each polled any number of times and then dropped if it has not answered, with the
      listener finishing accepts during, between and after them. Every connection handed out had passed its handshake
      and comes with its own peer version, none is handed out twice, and no more handshakes run than allowed. At the
      end each connection the listener ever produced is in exactly one place: the pending ones are those still under
      way, the one in the accept is the one the unfinished business of a dropped call holds, the handed-out ones are
      the sessions, those that failed did fail, and a dropped one found as many earlier ones running as may run. The
      connections handed out or failed are exactly those whose handshake some poll found finished. */
  method Serve(calls: seq<Call>, last: Listens, maxPending: nat, verdict: nat -> Verdict)
      returns (sessions: seq<Answer>, waiting: seq<nat>, accepting: Accepting, arrived: nat, ghost places: seq<Place>)
    ensures arrived == |places| && |waiting| <= Max(maxPending, 1)
    ensures forall i :: 0 <= i < |sessions| ==>
                          && sessions[i].Session? && sessions[i].conn < arrived
                          && verdict(sessions[i].conn) == Passed(sessions[i].peer)
                          && places[sessions[i].conn] == HandedOut(sessions[i].peer)
    ensures forall i, j :: 0 <= i < j < |sessions| ==> sessions[i].conn != sessions[j].conn
    ensures forall c :: 0 <= c < |places| ==>
                          && (places[c].HandedOut? ==> Session(c, places[c].peer) in sessions)
                          && (places[c].Pending? <==> c in waiting)
                          && (places[c].InAccept? <==> accepting == Ready(Some(c)))
                          && (places[c].Failed? ==> verdict(c).NotPassed?)
    ensures forall c :: 0 <= c < |places| && places[c].OverLimit? ==>
                          WasFull(places, c, places[c].running, Max(maxPending, 1)) && c >= Max(maxPending, 1)
    ensures accepting.Ready? && accepting.conn.Some? ==> accepting.conn.value == arrived - 1
    ensures var run := RunOf(calls, Max(maxPending, 1), verdict);
            && sessions == run.sessions && State(accepting, waiting, places) == Arrive(run.state, last)
            && (forall c :: 0 <= c < |places| && (places[c].HandedOut? || places[c].Failed?) ==> c in run.settled)
            && (forall c :: c in run.settled ==>
                  && c < |places|
                  && if verdict(c).Passed? then Session(c, verdict(c).peer) in sessions else places[c].Failed?)
  {
    hide Next, Arrive, WasFull, Poll, RunOf, SettledBy;
    var a := new SessionAcceptor(maxPending, verdict);
    sessions := [];
    NothingRun(a.maxPending, verdict);
    for k := 0 to |calls|
      invariant a.Valid() && a.verdict == verdict && a.maxPending == Max(maxPending, 1)
      invariant a.Now() == RunOf(calls[..k], a.maxPending, verdict).state
      invariant sessions == RunOf(calls[..k], a.maxPending, verdict).sessions
    {
      OneMoreCall(calls, k, a.maxPending, verdict);
      a.ListenerActs(calls[k].before);
      var r := a.GetNext(calls[k].inputs, calls[k].late);
      if r.Session? { sessions := sessions + [r]; }
    }
    assert calls[..|calls|] == calls;
    a.ListenerActs(last);
    waiting, accepting, arrived, places := a.pending, a.accepting, a.arrived, a.places;
    RunEnds(calls, last, a.maxPending, verdict);
  }

  lemma NothingRun(maxPending: nat, verdict: nat -> Verdict)
    ensures RunOf([], maxPending, verdict) == Run(FRESH, [], {})
  {
  }

  lemma OneMoreCall(calls: seq<Call>, k: nat, maxPending: nat, verdict: nat -> Verdict)
    requires k < |calls|
    ensures var before := RunOf(calls[..k], maxPending, verdict);
            var p := Next(Arrive(before.state, calls[k].before), calls[k].inputs, calls[k].late, maxPending, verdict);
            && RunOf(calls[..k + 1], maxPending, verdict).state == p.state
            && RunOf(calls[..k + 1], maxPending, verdict).sessions
            == if p.answer.value.Session? then before.sessions + [p.answer.value] else before.sessions
  {
    hide Next, Arrive, SettledBy;
    assert calls[..k + 1][..k] == calls[..k];
  }

  /** What `Serve` promises, of the state the calls and the listener's last move leave behind. */
  lemma RunEnds(calls: seq<Call>, last: Listens, maxPending: nat, verdict: nat -> Verdict)
    ensures var run := RunOf(calls, maxPending, verdict);
            var end := Arrive(run.state, last);
            && Conserved(end, maxPending, verdict)
            && SessionsAre(run.sessions, end.places) && AllSettled(run.settled, end.places, verdict)
            && (forall c :: 0 <= c < |end.places| && end.places[c].OverLimit? ==> c >= maxPending)
  {
    hide RunOf, Arrive, Conserved, SessionsAre, AllSettled, DropsValid;
    var run := RunOf(calls, maxPending, verdict);
    var end := Arrive(run.state, last);
    RunKeeps(calls, maxPending, verdict);
    ArriveKeeps(run.state, last, maxPending, verdict);
    StillSessions(run.sessions, run.state.places, end.places);
    ArriveSettles(run.state, last, run.settled, verdict);
    DropsOf(end, maxPending, verdict);
    forall c | 0 <= c < |end.places| && end.places[c].OverLimit? ensures c >= maxPending {
      DroppedComesLater(end.places, c, maxPending);
    }
  }

  lemma DropsOf(a: State, maxPending: nat, verdict: nat -> Verdict)
    requires Conserved(a, maxPending, verdict)
    ensures DropsValid(a.places, maxPending)
  {
  }

  lemma DroppedComesLater(places: seq<Place>, c: nat, maxPending: nat)
    requires c < |places| && places[c].OverLimit? && DropsValid(places, maxPending)
    ensures c >= maxPending
  {
    DistinctBelow(places[c].running, c);
  }

  // ---- with the handshake itself --------------------------------------------------------------------------------

  /** Each connection's server half, what its peer sends, and whether the deadline passes first. */
  datatype Peers = Peers(env: Env, server: nat -> Server, stream: nat -> seq<byte>, late: nat -> bool)

  function VerdictOf(ps: Peers, c: nat): Verdict {
    var result := ServerHalf(ps.env, ps.server(c), ps.stream(c)).result;
    if ps.late(c) || result.Err? then NotPassed else Passed(result.value)
  }

  /** The peer of connection `c` has sent the auth of a client that the server lets through, of version `peer`. */
  ghost predicate SentGoodAuth(ps: Peers, c: nat, peer: Option<Version>) {
    var s, taken := ps.server(c), TakePacket(ps.stream(c));
    && Opening(s).Ok? && taken.Packet?
    && exists p: Protocol, proof: seq<byte> ::
         peer == Some(p.version) && IsGoodAuth(ps.env, s, taken.body, p, proof)
  }

  /** The handshake was over in time, and the peer sent a good auth unless none was asked for. */
  ghost predicate Admitted(ps: Peers, c: nat, peer: Option<Version>) {
    !ps.late(c) && if ps.server(c).mode.Disabled? then peer == None else SentGoodAuth(ps, c, peer)
  }

  function Verdicts(ps: Peers): nat -> Verdict {
    (c: nat) => VerdictOf(ps, c)
  }

  /** A connection passes with a version exactly when its peer is admitted with it. */
  lemma PassedExactly(ps: Peers, c: nat, peer: Option<Version>)
    ensures Verdicts(ps)(c) == Passed(peer) <==> Admitted(ps, c, peer)
  {
    hide OnAuth, IsGoodAuth, TakePacket;
    var s, taken := ps.server(c), TakePacket(ps.stream(c));
    if !s.mode.Disabled? && Opening(s).Ok? && taken.Packet? && peer.Some? {
      ServerAcceptsExactly(ps.env, s, taken.body, peer.value);
    }
  }

  /** The acceptor with real handshakes: every session handed out is that of a peer that was admitted, with its version,
      and every admitted peer whose handshake a poll found finished was handed out. */
  method ServeHandshakes(calls: seq<Call>, last: Listens, maxPending: nat, ps: Peers) returns (sessions: seq<Answer>)
    ensures forall i :: 0 <= i < |sessions| ==>
                          sessions[i].Session? && Admitted(ps, sessions[i].conn, sessions[i].peer)
    ensures forall i, j :: 0 <= i < j < |sessions| ==> sessions[i].conn != sessions[j].conn
    ensures forall c, peer :: c in RunOf(calls, Max(maxPending, 1), Verdicts(ps)).settled && Admitted(ps, c, peer) ==>
                                Session(c, peer) in sessions
  {
    hide SentGoodAuth, WasFull, VerdictOf, Admitted, Verdicts, RunOf;
    var waiting, accepting, arrived;
    ghost var places;
    sessions, waiting, accepting, arrived, places := Serve(calls, last, maxPending, Verdicts(ps));
    forall i | 0 <= i < |sessions| ensures Admitted(ps, sessions[i].conn, sessions[i].peer) {
      PassedExactly(ps, sessions[i].conn, sessions[i].peer);
    }
    forall c, peer | c in RunOf(calls, Max(maxPending, 1), Verdicts(ps)).settled && Admitted(ps, c, peer)
      ensures Session(c, peer) in sessions
    {
      PassedExactly(ps, c, peer);
    }
  }
}
