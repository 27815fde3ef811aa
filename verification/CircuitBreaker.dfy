/** The circuit breaker as a state machine whose successes and failures may arrive late and in any
    order relative to new requests. Times are integer milliseconds. */
module CircuitBreaker {
  import opened Common

  datatype Status = Closed | Open | HalfOpen

  datatype State = State(status: Status, failures: nat, successes: nat, openedAt: Option<int>, nextRetryAt: Option<int>,
                         lastError: string)

  datatype Config = Config(failureThreshold: nat, cooldownMs: nat)

  const FRESH := State(Closed, 0, 0, None, None, "")

  datatype Event =
    | Request(at: int)
    | Success
    | Failure(error: string, at: int)
    | Reset

  /** One event; a request also answers whether it may go ahead. */
  function Next(c: Config, s: State, e: Event): (State, bool) {
    match e
    case Request(at) =>
      if !s.status.Open? then (s, true)
      else if (if s.nextRetryAt.Some? then s.nextRetryAt.value else 0) <= at then (s.(status := HalfOpen), true)
      else (s, false)
    case Success => (State(Closed, 0, s.successes + 1, None, None, ""), true)
    case Failure(error, at) =>
      var counted := s.(failures := s.failures + 1, lastError := error);
      (if c.failureThreshold <= counted.failures || counted.status.HalfOpen?
       then counted.(status := Open, openedAt := Some(at), nextRetryAt := Some(at + c.cooldownMs)) else counted, true)
    case Reset => (FRESH, true)
  }

  class Breaker {
    const config: Config
    var state: State

    constructor (failureThreshold: int, cooldownMs: int)
      ensures config == Config(if failureThreshold == 0 then 5 else if failureThreshold < 1 then 1 else failureThreshold,
                               if cooldownMs == 0 then 30000 else if cooldownMs < 1 then 1 else cooldownMs)
      ensures state == FRESH && 1 <= config.failureThreshold && 1 <= config.cooldownMs
    {
      config := Config(if failureThreshold == 0 then 5 else if failureThreshold < 1 then 1 else failureThreshold,
                       if cooldownMs == 0 then 30000 else if cooldownMs < 1 then 1 else cooldownMs);
      state := FRESH;
    }

    method CanRequest(now: int) returns (allowed: bool)
      modifies this
      ensures (state, allowed) == Next(config, old(state), Request(now))
    {
      if !state.status.Open? { return true; }
      var retry := if state.nextRetryAt.Some? then state.nextRetryAt.value else 0;
      if retry <= now {
        state := state.(status := HalfOpen);
        return true;
      }
      allowed := false;
    }

    method RecordSuccess()
      modifies this
      ensures state == Next(config, old(state), Success).0
    {
      state := State(Closed, 0, state.successes + 1, None, None, "");
    }

    method RecordFailure(error: string, now: int)
      modifies this
      ensures state == Next(config, old(state), Failure(error, now)).0
    {
      state := state.(failures := state.failures + 1, lastError := error);
      if config.failureThreshold <= state.failures || state.status.HalfOpen? {
        state := state.(status := Open, openedAt := Some(now), nextRetryAt := Some(now + config.cooldownMs));
      }
    }

    method ResetState()
      modifies this
      ensures state == FRESH
    {
      state := FRESH;
    }
  }

  // ----- Runs --------------------------------------------------------------

  function After(c: Config, s: State, es: seq<Event>): State
    decreases |es|
  {
    if es == [] then s else After(c, Next(c, s, es[0]).0, es[1..])
  }

  /** Closed means below the threshold, and an open breaker knows when to retry. */
  predicate Inv(c: Config, s: State) {
    && (s.status.Closed? <==> s.failures < c.failureThreshold)
    && (s.status.Open? ==> s.nextRetryAt.Some? && s.openedAt.Some? && s.nextRetryAt.value == s.openedAt.value + c.cooldownMs)
  }

  lemma {:induction false} InvThroughout(c: Config, s: State, es: seq<Event>)
    requires 1 <= c.failureThreshold && Inv(c, s)
    ensures Inv(c, After(c, s, es))
    decreases |es|
  {
    if es != [] { InvThroughout(c, Next(c, s, es[0]).0, es[1..]); }
  }

  /** In every run the breaker is closed exactly while the failures counted since the last success
      are below the threshold; so the half-open clause of the failure rule never decides. */
  lemma ClosedIffBelowThreshold(c: Config, es: seq<Event>, error: string, at: int)
    requires 1 <= c.failureThreshold
    ensures var s := After(c, FRESH, es);
            && (s.status.Closed? <==> s.failures < c.failureThreshold)
            && (Next(c, s, Failure(error, at)).0.status.Open? <==> c.failureThreshold <= s.failures + 1)
  {
    InvThroughout(c, FRESH, es);
  }

  predicate NoRelief(es: seq<Event>) {
    forall i :: 0 <= i < |es| ==> !es[i].Success? && !es[i].Reset?
  }

  /** Failures are recorded at non-decreasing times, none before `from`. */
  predicate FailuresFrom(es: seq<Event>, from: int) {
    forall i :: 0 <= i < |es| && es[i].Failure? ==> from <= es[i].at
  }

  predicate RequestsBefore(es: seq<Event>, until: int) {
    forall i :: 0 <= i < |es| && es[i].Request? ==> es[i].at < until
  }

  lemma {:induction false} StaysOpen(c: Config, s: State, es: seq<Event>, until: int)
    requires s.status.Open? && s.nextRetryAt.Some? && until <= s.nextRetryAt.value
    requires NoRelief(es) && FailuresFrom(es, until - c.cooldownMs) && RequestsBefore(es, until)
    ensures var t := After(c, s, es); t.status.Open? && t.nextRetryAt.Some? && until <= t.nextRetryAt.value
    decreases |es|
  {
    if es != [] {
      assert forall i :: 0 <= i < |es[1..]| ==> es[1..][i] == es[i + 1];
      StaysOpen(c, Next(c, s, es[0]).0, es[1..], until);
    }
  }

  /** After a failure at `at` that leaves the breaker open, no request before `at` + cooldown is let
      through, whatever late failures and other requests come in between, unless a success (or a
      reset) intervenes. */
  lemma CooldownHolds(c: Config, s: State, error: string, at: int, es: seq<Event>, request: int)
    requires Next(c, s, Failure(error, at)).0.status.Open? && Inv(c, s)
    requires NoRelief(es) && FailuresFrom(es, at) && RequestsBefore(es, at + c.cooldownMs)
    requires request < at + c.cooldownMs && 1 <= c.failureThreshold
    ensures var tripped := Next(c, s, Failure(error, at)).0;
            !Next(c, After(c, tripped, es), Request(request)).1
  {
    StaysOpen(c, Next(c, s, Failure(error, at)).0, es, at + c.cooldownMs);
  }

  /** From fresh, failures alone open the breaker exactly when there are threshold many. */
  lemma {:induction false} FailuresOpen(c: Config, es: seq<Event>)
    requires 1 <= c.failureThreshold && forall i :: 0 <= i < |es| ==> es[i].Failure?
    ensures var s := After(c, FRESH, es); s.failures == |es| && (s.status.Open? <==> c.failureThreshold <= |es|)
  {
    FailuresCount(c, FRESH, es);
    InvThroughout(c, FRESH, es);
  }

  lemma {:induction false} FailuresCount(c: Config, s: State, es: seq<Event>)
    requires forall i :: 0 <= i < |es| ==> es[i].Failure?
    ensures After(c, s, es).failures == s.failures + |es|
    ensures !s.status.HalfOpen? ==> !After(c, s, es).status.HalfOpen?
    decreases |es|
  {
    if es != [] {
      assert forall i :: 0 <= i < |es[1..]| ==> es[1..][i] == es[i + 1];
      FailuresCount(c, Next(c, s, es[0]).0, es[1..]);
    }
  }

  predicate OnlyRequests(es: seq<Event>) {
    forall i :: 0 <= i < |es| ==> es[i].Request?
  }

  lemma {:induction false} RequestsKeep(c: Config, s: State, es: seq<Event>)
    requires OnlyRequests(es)
    ensures After(c, s, es).nextRetryAt == s.nextRetryAt && After(c, s, es).failures == s.failures
    decreases |es|
  {
    if es != [] {
      assert forall i :: 0 <= i < |es[1..]| ==> es[1..][i] == es[i + 1];
      RequestsKeep(c, Next(c, s, es[0]).0, es[1..]);
    }
  }

  /** An open breaker is no dead end: after a failure at `at` and any requests, a request from `at` +
      cooldown on is let through; a success then closes the breaker, a failure opens it for another
      cooldown. */
  lemma ProbeAfterCooldown(c: Config, s: State, error: string, at: int, es: seq<Event>, probe: int)
    requires 1 <= c.failureThreshold && Inv(c, s) && Next(c, s, Failure(error, at)).0.status.Open?
    requires OnlyRequests(es) && at + c.cooldownMs <= probe
    ensures var (probing, allowed) := Next(c, After(c, Next(c, s, Failure(error, at)).0, es), Request(probe));
            && allowed
            && Next(c, probing, Success).0.status.Closed?
            && forall error', at' ::
                 var again := Next(c, probing, Failure(error', at')).0;
                 again.status.Open? && again.nextRetryAt == Some(at' + c.cooldownMs)
  {
    RequestsKeep(c, Next(c, s, Failure(error, at)).0, es);
    InvThroughout(c, Next(c, s, Failure(error, at)).0, es);
  }

  // ----- Answers in terms of the history -----------------------------------

  /** The failures recorded since the last success or reset. */
  function FailuresSince(es: seq<Event>): nat
    decreases |es|
  {
    if es == [] then 0
    else
      var earlier := FailuresSince(es[..|es| - 1]);
      match es[|es| - 1]
      case Failure(_, _) => earlier + 1
      case Request(_) => earlier
      case _ => 0
  }

  lemma {:induction false} AfterOneMore(c: Config, s: State, es: seq<Event>, e: Event)
    ensures After(c, s, es + [e]) == Next(c, After(c, s, es), e).0
    decreases |es|
  {
    if es == [] {
      assert es + [e] == [e];
    } else {
      assert (es + [e])[1..] == es[1..] + [e];
      AfterOneMore(c, Next(c, s, es[0]).0, es[1..], e);
    }
  }

  lemma {:induction false} CountsFailuresSince(c: Config, es: seq<Event>)
    ensures After(c, FRESH, es).failures == FailuresSince(es)
    decreases |es|
  {
    if es != [] {
      var last := |es| - 1;
      assert es == es[..last] + [es[last]];
      AfterOneMore(c, FRESH, es[..last], es[last]);
      CountsFailuresSince(c, es[..last]);
    }
  }

  /** The answer to a request after any history: it goes ahead exactly when fewer failures than the
      threshold came since the last success or reset, or another request is already probing, or the
      cooldown has passed since the breaker opened. A refused one changes nothing, one that goes ahead
      only sets an open breaker to probing. */
  lemma RequestAnswered(c: Config, es: seq<Event>, at: int)
    requires 1 <= c.failureThreshold
    ensures var s := After(c, FRESH, es);
            var (t, allowed) := Next(c, s, Request(at));
            && (allowed <==> || FailuresSince(es) < c.failureThreshold
                             || s.status.HalfOpen?
                             || (s.openedAt.Some? && s.openedAt.value + c.cooldownMs <= at))
            && t == if allowed && c.failureThreshold <= FailuresSince(es) then s.(status := HalfOpen) else s
  {
    CountsFailuresSince(c, es);
    InvThroughout(c, FRESH, es);
    OpenedAtKnown(c, es);
  }

  lemma {:induction false} OpenedAtKnown(c: Config, es: seq<Event>)
    requires 1 <= c.failureThreshold
    ensures var s := After(c, FRESH, es);
            if s.openedAt.Some? then s.nextRetryAt == Some(s.openedAt.value + c.cooldownMs) else s.nextRetryAt == None
    decreases |es|
  {
    if es != [] {
      var last := |es| - 1;
      assert es == es[..last] + [es[last]];
      AfterOneMore(c, FRESH, es[..last], es[last]);
      OpenedAtKnown(c, es[..last]);
    }
  }
}
