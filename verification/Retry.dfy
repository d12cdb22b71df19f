/** The retry loop of `Endpoint::connect_ready` in `src/endpoint.rs`, against a clock in nanoseconds. */
module Retry {
  import opened Bytes

  const MILLI: nat := 1_000_000
  const FIRST_DELAY: nat := 50 * MILLI
  const LAST_DELAY: nat := 1000 * MILLI
  const CONNECT_ATTEMPT_LIMIT: nat := 1000 * MILLI

  /** How one attempt would go if nobody cut it off, and how late the timers around it fire. */
  datatype Try = Try(duration: nat, connects: bool, timerLate: nat, sleepLate: nat)

  datatype Outcome = Connected | Refused | CutOff

  /** An attempt as it went: when it started, how it ended, and when. */
  datatype Attempt = Attempt(start: nat, outcome: Outcome, end: nat)

  function Limit(start: nat, giveUpAfter: nat): nat {
    Min(if giveUpAfter < start then 0 else giveUpAfter - start, CONNECT_ATTEMPT_LIMIT)
  }

  /** An attempt started at `start` under the time limit that holds then. */
  function Run(t: Try, start: nat, giveUpAfter: nat): Attempt {
    var deadline := Limit(start, giveUpAfter) + t.timerLate;
    if t.duration <= deadline then Attempt(start, if t.connects then Connected else Refused, start + t.duration)
    else Attempt(start, CutOff, start + deadline)
  }

  function Pow2(k: nat): nat {
    if k == 0 then 1 else 2 * Pow2(k - 1)
  }

  /** The pause after a refusal that `k` refusals came before. */
  function Backoff(k: nat): nat {
    Min(FIRST_DELAY * Pow2(k), LAST_DELAY)
  }

  function Refusals(trace: seq<Attempt>): nat {
    if trace == [] then 0
    else Refusals(trace[..|trace| - 1]) + if trace[|trace| - 1].outcome.Refused? then 1 else 0
  }

  /** The pause that follows the last attempt: none after a cut-off, which does not advance the backoff either. */
  function PauseAfter(trace: seq<Attempt>): nat
    requires trace != []
  {
    if trace[|trace| - 1].outcome.Refused? then Backoff(Refusals(trace[..|trace| - 1])) else 0
  }

  /** The last attempt failed, with its pause still within the budget. */
  ghost predicate MayGoOn(trace: seq<Attempt>, giveUpAfter: nat)
    requires trace != []
  {
    var last := trace[|trace| - 1];
    !last.outcome.Connected? && last.end + PauseAfter(trace) < giveUpAfter
  }

  ghost function NextStart(trace: seq<Attempt>, env: nat -> Try): nat {
    if trace == [] then 0
    else
      var last := trace[|trace| - 1];
      last.end + PauseAfter(trace) + if last.outcome.Refused? then env(|trace| - 1).sleepLate else 0
  }

  /** What the documentation promises of the attempts: each runs under its limit, and each but the first follows a
      failed one after the pause due. Every prefix of a trace is one too. */
  ghost predicate IsTrace(trace: seq<Attempt>, env: nat -> Try, giveUpAfter: nat) {
    trace != [] &&
    var init, last := trace[..|trace| - 1], trace[|trace| - 1];
    && last == Run(env(|init|), NextStart(init, env), giveUpAfter)
    && (init != [] ==> IsTrace(init, env, giveUpAfter) && MayGoOn(init, giveUpAfter))
  }

  lemma {:induction false} Pow2Positive(k: nat)
    ensures Pow2(k) >= 1
  {
    if k > 0 { Pow2Positive(k - 1); }
  }

  lemma BackoffDoubles(k: nat)
    ensures Backoff(k + 1) == Min(Backoff(k) * 2, LAST_DELAY)
    ensures FIRST_DELAY <= Backoff(k) <= LAST_DELAY
  {
    Pow2Positive(k);
    assert FIRST_DELAY * Pow2(k + 1) == FIRST_DELAY * Pow2(k) * 2;
  }

  /** An attempt that another follows, together with its pause, takes at least the first delay. */
  lemma AttemptCosts(trace: seq<Attempt>, env: nat -> Try, giveUpAfter: nat)
    requires IsTrace(trace, env, giveUpAfter) && MayGoOn(trace, giveUpAfter)
    ensures NextStart(trace, env) >= trace[|trace| - 1].start + FIRST_DELAY
  {
    hide Backoff, Refusals;
    BackoffDoubles(Refusals(trace[..|trace| - 1]));
  }

  lemma {:induction false} StartsLate(trace: seq<Attempt>, env: nat -> Try, giveUpAfter: nat)
    requires IsTrace(trace, env, giveUpAfter)
    ensures trace[|trace| - 1].start >= (|trace| - 1) * FIRST_DELAY
  {
    hide Backoff, Refusals, PauseAfter;
    var init := trace[..|trace| - 1];
    if init != [] {
      StartsLate(init, env, giveUpAfter);
      AttemptCosts(init, env, giveUpAfter);
    }
  }

  /** Timers that fire at most `slack` late make every attempt end within twice that of the budget; with exact timers,
      within the budget itself. The number of attempts is bounded by the budget in units of the first delay. */
  lemma WithinBudget(trace: seq<Attempt>, env: nat -> Try, giveUpAfter: nat, slack: nat)
    requires IsTrace(trace, env, giveUpAfter)
    requires forall i :: env(i).timerLate <= slack && env(i).sleepLate <= slack
    ensures trace[|trace| - 1].end <= giveUpAfter + 2 * slack
    ensures |trace| > 1 ==> (|trace| - 1) * FIRST_DELAY < giveUpAfter + slack
  {
    hide Backoff, Refusals, PauseAfter;
    StartsLate(trace, env, giveUpAfter);
    var n := |trace| - 1;
    assert env(n).timerLate <= slack;
    if n > 0 { assert env(n - 1).sleepLate <= slack; }
  }

  // ---- what the documentation promises, attempt by attempt ------------------------------------------------------

  ghost function Millis(n: nat): nat { n * 1_000_000 }

  /** An attempt is cut off exactly when it would outlast one second or the rest of the budget by more than the timer is
      late, and then at the earlier of the two; otherwise it takes its own time and ends as it would have. */
  ghost predicate KeepsLimit(a: Attempt, t: Try, giveUpAfter: nat) {
    && a.end <= a.start + Millis(1000) + t.timerLate
    && (a.outcome == CutOff <==> t.duration > Millis(1000) + t.timerLate
                                 || a.start + t.duration > Max(giveUpAfter, a.start) + t.timerLate)
    && (a.outcome == CutOff ==> a.end == Min(a.start + Millis(1000), Max(giveUpAfter, a.start)) + t.timerLate)
    && (a.outcome != CutOff ==> a.end == a.start + t.duration && (a.outcome == Connected <==> t.connects))
  }

  /** The pauses after refused attempts: the first of 50 ms, each later one twice the one before but at most one second.
      A cut-off attempt is followed by none. */
  ghost predicate PausesDouble(trace: seq<Attempt>, pauses: seq<nat>)
    requires |pauses| == |trace|
  {
    && (forall i :: 0 <= i < |trace| && !trace[i].outcome.Refused? ==> pauses[i] == 0)
    && (forall i :: 0 <= i < |trace| && trace[i].outcome.Refused? && NoneRefused(trace, 0, i) ==>
                      pauses[i] == Millis(50))
    && (forall i, j :: 0 <= i < j < |trace| && NextRefused(trace, i, j) ==>
                         pauses[j] == Min(2 * pauses[i], Millis(1000)))
  }

  ghost predicate NextRefused(trace: seq<Attempt>, i: nat, j: nat)
    requires i < j < |trace|
  {
    trace[i].outcome.Refused? && trace[j].outcome.Refused? && NoneRefused(trace, i + 1, j)
  }

  ghost predicate NoneRefused(trace: seq<Attempt>, lo: nat, hi: nat)
    requires lo <= hi <= |trace|
  {
    forall k :: lo <= k < hi ==> !trace[k].outcome.Refused?
  }

  /** The attempts follow each other: the first at once, each later one after a failure, its pause and what the sleep
      was late, and only while the pause ended within the budget. */
  ghost predicate Follows(trace: seq<Attempt>, env: nat -> Try, giveUpAfter: nat, pauses: seq<nat>)
    requires |pauses| == |trace| > 0
  {
    && trace[0].start == 0
    && forall i :: 0 <= i < |trace| - 1 ==>
                     && !trace[i].outcome.Connected? && trace[i].end + pauses[i] < giveUpAfter
                     && trace[i + 1].start
                     == trace[i].end + pauses[i] + if trace[i].outcome.Refused? then env(i).sleepLate else 0
  }

  ghost function Pauses(trace: seq<Attempt>): (pauses: seq<nat>)
    ensures |pauses| == |trace|
  {
    seq(|trace|, i requires 0 <= i < |trace| => PauseAfter(trace[..i + 1]))
  }

  lemma {:induction false} PrefixIsTrace(trace: seq<Attempt>, env: nat -> Try, giveUpAfter: nat, n: nat)
    requires IsTrace(trace, env, giveUpAfter) && 0 < n <= |trace|
    ensures IsTrace(trace[..n], env, giveUpAfter)
    ensures n < |trace| ==> MayGoOn(trace[..n], giveUpAfter)
  {
    hide MayGoOn, Run, NextStart;
    if n == |trace| {
      assert trace[..n] == trace;
    } else {
      var init := trace[..|trace| - 1];
      assert init[..n] == trace[..n];
      if n < |init| { PrefixIsTrace(init, env, giveUpAfter, n); } else { assert init[..n] == init; }
    }
  }

  lemma RunKeepsLimit(t: Try, start: nat, giveUpAfter: nat)
    ensures Run(t, start, giveUpAfter).start == start && KeepsLimit(Run(t, start, giveUpAfter), t, giveUpAfter)
  {
  }

  lemma AttemptKeepsLimit(trace: seq<Attempt>, env: nat -> Try, giveUpAfter: nat, i: nat)
    requires IsTrace(trace, env, giveUpAfter) && i < |trace|
    ensures KeepsLimit(trace[i], env(i), giveUpAfter)
  {
    hide KeepsLimit, Run, NextStart, MayGoOn;
    PrefixIsTrace(trace, env, giveUpAfter, i + 1);
    assert trace[..i + 1][..i] == trace[..i];
    RunKeepsLimit(env(i), NextStart(trace[..i], env), giveUpAfter);
  }

  lemma {:induction false} SameRefusals(trace: seq<Attempt>, lo: nat, hi: nat)
    requires lo <= hi <= |trace| && NoneRefused(trace, lo, hi)
    ensures Refusals(trace[..hi]) == Refusals(trace[..lo])
    decreases hi
  {
    if lo < hi {
      SameRefusals(trace, lo, hi - 1);
      assert trace[..hi][..hi - 1] == trace[..hi - 1];
    }
  }

  lemma PauseIs(trace: seq<Attempt>, i: nat)
    requires i < |trace|
    ensures Pauses(trace)[i] == if trace[i].outcome.Refused? then Backoff(Refusals(trace[..i])) else 0
    ensures Refusals(trace[..i + 1]) == Refusals(trace[..i]) + if trace[i].outcome.Refused? then 1 else 0
  {
    assert trace[..i + 1][..i] == trace[..i];
  }

  lemma PausesAreDue(trace: seq<Attempt>)
    ensures PausesDouble(trace, Pauses(trace))
  {
    hide Backoff, Refusals, Pauses, NoneRefused;
    StartsWithFirst();
    var pauses := Pauses(trace);
    forall i | 0 <= i < |trace|
      ensures !trace[i].outcome.Refused? ==> pauses[i] == 0
      ensures trace[i].outcome.Refused? && NoneRefused(trace, 0, i) ==> pauses[i] == Millis(50)
    {
      PauseIs(trace, i);
      if NoneRefused(trace, 0, i) {
        SameRefusals(trace, 0, i);
        assert trace[..0] == [];
      }
    }
    forall i, j | 0 <= i < j < |trace| && NextRefused(trace, i, j)
      ensures pauses[j] == Min(2 * pauses[i], Millis(1000))
    {
      PauseIs(trace, i);
      PauseIs(trace, j);
      SameRefusals(trace, i + 1, j);
      BackoffDoubles(Refusals(trace[..i]));
    }
  }

  lemma OneFollows(trace: seq<Attempt>, env: nat -> Try, giveUpAfter: nat, i: nat)
    requires IsTrace(trace, env, giveUpAfter) && i < |trace| - 1
    ensures !trace[i].outcome.Connected? && trace[i].end + Pauses(trace)[i] < giveUpAfter
    ensures trace[i + 1].start
         == trace[i].end + Pauses(trace)[i] + if trace[i].outcome.Refused? then env(i).sleepLate else 0
  {
    hide PauseAfter, IsTrace;
    PrefixIsTrace(trace, env, giveUpAfter, i + 1);
    PrefixIsTrace(trace, env, giveUpAfter, i + 2);
    LastOf(trace, env, giveUpAfter, i + 1);
  }

  lemma LastOf(trace: seq<Attempt>, env: nat -> Try, giveUpAfter: nat, i: nat)
    requires i < |trace| && IsTrace(trace[..i + 1], env, giveUpAfter)
    ensures trace[i].start == NextStart(trace[..i], env)
  {
    assert trace[..i + 1][..i] == trace[..i];
    RunKeepsLimit(env(i), NextStart(trace[..i], env), giveUpAfter);
    hide Run, NextStart, MayGoOn;
  }

  lemma AttemptsFollow(trace: seq<Attempt>, env: nat -> Try, giveUpAfter: nat)
    requires IsTrace(trace, env, giveUpAfter)
    ensures Follows(trace, env, giveUpAfter, Pauses(trace))
  {
    PrefixIsTrace(trace, env, giveUpAfter, 1);
    hide Pauses, IsTrace, NextStart;
    LastOf(trace, env, giveUpAfter, 0);
    NothingBefore(env);
    assert trace[..0] == [];
    forall i | 0 <= i < |trace| - 1
      ensures !trace[i].outcome.Connected? && trace[i].end + Pauses(trace)[i] < giveUpAfter
      ensures trace[i + 1].start
           == trace[i].end + Pauses(trace)[i] + if trace[i].outcome.Refused? then env(i).sleepLate else 0
    {
      OneFollows(trace, env, giveUpAfter, i);
    }
  }

  lemma OneMore(trace: seq<Attempt>, attempt: Attempt, env: nat -> Try, giveUpAfter: nat)
    requires trace != [] ==> IsTrace(trace, env, giveUpAfter) && MayGoOn(trace, giveUpAfter)
    requires attempt == Run(env(|trace|), NextStart(trace, env), giveUpAfter)
    ensures var after := trace + [attempt];
            var pause := if attempt.outcome.Refused? then Backoff(Refusals(trace)) else 0;
            && IsTrace(after, env, giveUpAfter)
            && Refusals(after) == Refusals(trace) + (if attempt.outcome.Refused? then 1 else 0)
            && (MayGoOn(after, giveUpAfter) <==> !attempt.outcome.Connected? && attempt.end + pause < giveUpAfter)
            && NextStart(after, env)
            == attempt.end + pause + if attempt.outcome.Refused? then env(|trace|).sleepLate else 0
  {
    hide Backoff, Run;
    assert (trace + [attempt])[..|trace|] == trace;
  }

  lemma CutOffTakesLong(t: Try, start: nat, giveUpAfter: nat)
    ensures var a := Run(t, start, giveUpAfter);
            a.end >= start && (a.outcome.CutOff? && a.end < giveUpAfter ==> a.end > start)
  {
  }

  /** Runs attempts until one connects or the budget does not allow another. */
  method ConnectReady(giveUpAfter: nat, env: nat -> Try) returns (connected: bool, trace: seq<Attempt>)
    ensures IsTrace(trace, env, giveUpAfter)
    ensures connected <==> trace[|trace| - 1].outcome.Connected?
    ensures !connected ==> !MayGoOn(trace, giveUpAfter)
    ensures forall i :: 0 <= i < |trace| ==> KeepsLimit(trace[i], env(i), giveUpAfter)
    ensures PausesDouble(trace, Pauses(trace)) && Follows(trace, env, giveUpAfter, Pauses(trace))
    ensures connected || trace[|trace| - 1].end + Pauses(trace)[|trace| - 1] >= giveUpAfter
  {
    hide Backoff, IsTrace, MayGoOn, NextStart, Refusals, Run, KeepsLimit, PausesDouble, Follows, Pauses;
    var delay := FIRST_DELAY;
    var elapsed: nat := 0;
    trace := [];
    StartsWithFirst();
    NothingBefore(env);
    while true
      invariant trace != [] ==> IsTrace(trace, env, giveUpAfter) && MayGoOn(trace, giveUpAfter)
      invariant elapsed == NextStart(trace, env)
      invariant delay == Backoff(Refusals(trace))
      decreases if elapsed < giveUpAfter then giveUpAfter - elapsed else 0
    {
      var k := |trace|;
      var attempt := Run(env(k), elapsed, giveUpAfter);
      BackoffDoubles(Refusals(trace));
      OneMore(trace, attempt, env, giveUpAfter);
      CutOffTakesLong(env(k), elapsed, giveUpAfter);
      trace := trace + [attempt];
      elapsed := attempt.end;
      if attempt.outcome.Connected? {
        TraceEnds(trace, env, giveUpAfter);
        return true, trace;
      }
      var pause := if attempt.outcome.CutOff? then 0 else delay;
      if elapsed + pause >= giveUpAfter {
        TraceEnds(trace, env, giveUpAfter);
        return false, trace;
      }
      if !attempt.outcome.CutOff? {
        elapsed := elapsed + delay + env(k).sleepLate;
        delay := Min(delay * 2, LAST_DELAY);
      }
    }
  }

  /** What a finished trace shows. */
  lemma TraceEnds(trace: seq<Attempt>, env: nat -> Try, giveUpAfter: nat)
    requires IsTrace(trace, env, giveUpAfter) && !MayGoOn(trace, giveUpAfter)
    ensures forall i :: 0 <= i < |trace| ==> KeepsLimit(trace[i], env(i), giveUpAfter)
    ensures PausesDouble(trace, Pauses(trace)) && Follows(trace, env, giveUpAfter, Pauses(trace))
    ensures trace[|trace| - 1].outcome.Connected?
         || trace[|trace| - 1].end + Pauses(trace)[|trace| - 1] >= giveUpAfter
  {
    hide KeepsLimit, PausesDouble, Follows, PauseAfter, Run, NextStart;
    forall i | 0 <= i < |trace| ensures KeepsLimit(trace[i], env(i), giveUpAfter) {
      AttemptKeepsLimit(trace, env, giveUpAfter, i);
    }
    PausesAreDue(trace);
    AttemptsFollow(trace, env, giveUpAfter);
    assert trace[..|trace|] == trace;
  }

  lemma NothingBefore(env: nat -> Try)
    ensures NextStart([], env) == 0
  {
  }

  lemma StartsWithFirst()
    ensures Backoff(Refusals([])) == FIRST_DELAY
  {
  }
}
