/** The circuit breaker and the retry loop around it (typeway-grpc/src/client.rs). */
module Breaker {
  import opened Bytes

  datatype Phase = Closed | Open | HalfOpen

  /** `CircuitBreakerState`; times are instants of a clock. */
  datatype State = State(failures: U32, phase: Phase, lastFailure: Option<nat>)

  const FRESH := State(0, Closed, None)

  datatype Config = Config(threshold: U32, reset: nat)

  /** `Instant::elapsed`, which saturates at zero. */
  function Elapsed(since: nat, now: nat): (d: nat) { if now >= since then now - since else 0 }

  /** Would a request be refused? */
  predicate Refuses(c: Config, s: State, now: nat) {
    s.phase.Open? && (s.lastFailure.Some? ==> Elapsed(s.lastFailure.value, now) < c.reset)
  }

  datatype Event = Ask(now: nat) | Success | Failure(now: nat)

  /** `allow_request`, `record_success` and `record_failure` on the state; the counter is a `u32` and wraps. */
  function After(c: Config, s: State, e: Event): (t: State) {
    match e
    case Ask(now) => if s.phase.Open? && !Refuses(c, s, now) then s.(phase := HalfOpen) else s
    case Success => s.(failures := 0, phase := Closed)
    case Failure(now) =>
      var n := WrapU32(s.failures + 1);
      State(n, if n >= c.threshold then Open else s.phase, Some(now))
  }

  function Run(c: Config, s: State, events: seq<Event>): (t: State)
    decreases |events|
  {
    if events == [] then s else Run(c, After(c, s, events[0]), events[1..])
  }

  lemma {:induction false} RunConcat(c: Config, s: State, a: seq<Event>, b: seq<Event>)
    ensures Run(c, s, a + b) == Run(c, Run(c, s, a), b)
    decreases |a|
  {
    if a == [] {
      assert a + b == b;
    } else {
      assert (a + b)[1..] == a[1..] + b;
      RunConcat(c, After(c, s, a[0]), a[1..], b);
    }
  }

  class CircuitBreaker {
    const config: Config
    var failures: U32
    var phase: Phase
    var lastFailure: Option<nat>

    ghost function Now(): (s: State)
      reads this
    {
      State(failures, phase, lastFailure)
    }

    constructor (threshold: U32, reset: nat)
      ensures config == Config(threshold, reset) && Now() == FRESH
    {
      config := Config(threshold, reset);
      failures, phase, lastFailure := 0, Closed, None;
    }

    method AllowRequest(now: nat) returns (ok: bool)
      modifies this
      ensures ok <==> !Refuses(config, old(Now()), now)
      ensures Now() == After(config, old(Now()), Ask(now))
    {
      if phase == Closed || phase == HalfOpen { return true; }
      if lastFailure.Some? {
        if Elapsed(lastFailure.value, now) >= config.reset {
          phase := HalfOpen;
          return true;
        }
      }
      return false;
    }

    method RecordSuccess()
      modifies this
      ensures Now() == After(config, old(Now()), Success)
    {
      failures := 0;
      phase := Closed;
    }

    method RecordFailure(now: nat)
      modifies this
      ensures Now() == After(config, old(Now()), Failure(now))
    {
      failures := WrapU32(failures + 1);
      lastFailure := Some(now);
      if failures >= config.threshold { phase := Open; }
    }
  }

  // ---- every history ----

  /** Failures since the last success. */
  function Streak(events: seq<Event>): (n: nat) {
    if events == [] then 0
    else
      var e, before := events[|events| - 1], Streak(events[..|events| - 1]);
      if e.Success? then 0 else if e.Failure? then before + 1 else before
  }

  /** The time of the last failure. */
  function LastFailure(events: seq<Event>): (t: Option<nat>) {
    if events == [] then None
    else
      var e := events[|events| - 1];
      if e.Failure? then Some(e.now) else LastFailure(events[..|events| - 1])
  }

  /** The failures it takes to open the breaker: a threshold of zero acts like one. */
  function Limit(c: Config): (n: nat)
    ensures n >= 1
  {
    if c.threshold == 0 then 1 else c.threshold
  }

  /**
    Was a request allowed by the reset time since the last failure? A failure that wraps the counter
    below the threshold does not open the breaker again, and so does not count here.
  */
  predicate Probed(c: Config, events: seq<Event>) {
    events != [] &&
    var init := events[..|events| - 1];
    match events[|events| - 1]
    case Success => false
    case Failure(_) => WrapU32(Streak(events)) < c.threshold && Probed(c, init)
    case Ask(now) =>
      Probed(c, init) || (LastFailure(init).Some? && Elapsed(LastFailure(init).value, now) >= c.reset)
  }

  /** Over every history: what the counter counts, when the breaker is closed, open or half open, and the time it remembers. */
  lemma {:induction false} History(c: Config, events: seq<Event>)
    ensures var s := Run(c, FRESH, events);
            && s.failures == WrapU32(Streak(events))
            && (s.phase.Closed? <==> Streak(events) < Limit(c))
            && (s.phase.HalfOpen? <==> Streak(events) >= Limit(c) && Probed(c, events))
            && s.lastFailure == LastFailure(events)
            && (!s.phase.Closed? ==> s.lastFailure.Some?)
    decreases |events|
  {
    if events != [] {
      var init, e := events[..|events| - 1], events[|events| - 1];
      History(c, init);
      RunConcat(c, FRESH, init, [e]);
      assert init + [e] == events && Run(c, Run(c, FRESH, init), [e]) == After(c, Run(c, FRESH, init), e);
    }
  }

  /** A refusal happens only after enough failures in a row, and before the reset time has passed. */
  lemma {:induction false} RefusalIsTimely(c: Config, events: seq<Event>, now: nat)
    requires Refuses(c, Run(c, FRESH, events), now)
    ensures Streak(events) >= Limit(c) && LastFailure(events).Some?
    ensures now < LastFailure(events).value + c.reset
  {
    History(c, events);
  }

  /** Exactly when a reachable state refuses: open, not probed since, and within the reset time. */
  lemma {:induction false} RefusalIff(c: Config, events: seq<Event>, now: nat)
    ensures Refuses(c, Run(c, FRESH, events), now)
       <==> && Streak(events) >= Limit(c) && !Probed(c, events)
            && c.reset > 0 && LastFailure(events).Some? && now < LastFailure(events).value + c.reset
  {
    History(c, events);
  }

  /** No reachable state refuses for ever: once the reset time has passed, every request is allowed. */
  lemma {:induction false} NeverForever(c: Config, events: seq<Event>, now: nat)
    requires LastFailure(events).Some? ==> now >= LastFailure(events).value + c.reset
    ensures !Refuses(c, Run(c, FRESH, events), now)
  {
    History(c, events);
  }

  // ---- the retry loop ----

  datatype ClientError = Status(code: int, message: string) | Transport(message: string) | OtherError(message: string)

  const UNAVAILABLE := 14

  const BREAKER_OPEN := Status(UNAVAILABLE, "circuit breaker open")

  const EXHAUSTED := Transport("all retry attempts exhausted")

  datatype Policy = Policy(maxRetries: U32, retryOn: set<int>)

  /** One turn: when the breaker is asked, what the request comes to, and when that is recorded. */
  datatype Attempt = Attempt(askedAt: nat, outcome: Result<seq<Byte>, ClientError>, doneAt: nat)

  /** What the world does on each turn. */
  type Script = nat -> Attempt

  /** `max_retries + 1` in `u32`. */
  function MaxAttempts(p: Option<Policy>): (n: U32) { if p.Some? then WrapU32(p.value.maxRetries + 1) else 1 }

  predicate ShouldRetry(p: Option<Policy>, e: ClientError) {
    p.Some? && (e.Transport? || (e.Status? && e.code in p.value.retryOn))
  }

  /** The answer of a call, the breaker events it caused in order, and whether the loop ran out. */
  datatype Call = Call(answer: Result<seq<Byte>, ClientError>, events: seq<Event>, ranOut: bool)

  function Record(a: Attempt): (e: Event) { if a.outcome.Ok? then Success else Failure(a.doneAt) }

  /** `send_request` from turn `i` on, with the breaker at `s` when one is configured. */
  function Send(c: Config, cb: Option<State>, p: Option<Policy>, script: Script, i: nat, last: Option<ClientError>)
    : (call: Call)
    decreases MaxAttempts(p) - i
  {
    if i >= MaxAttempts(p) then Call(Err(if last.Some? then last.value else EXHAUSTED), [], true)
    else
      var a := script(i);
      if cb.Some? && Refuses(c, cb.value, a.askedAt) then Call(Err(BREAKER_OPEN), [Ask(a.askedAt)], false)
      else
        var turn := [Ask(a.askedAt), Record(a)];
        if a.outcome.Ok? then Call(a.outcome, turn, false)
        else if ShouldRetry(p, a.outcome.error) && i + 1 < MaxAttempts(p) then
          var cb2 := if cb.Some? then Some(Run(c, cb.value, turn)) else None;
          var rest := Send(c, cb2, p, script, i + 1, Some(a.outcome.error));
          rest.(events := turn + rest.events)
        else Call(a.outcome, turn, false)
  }

  /** `send_request`, with the breaker updated in place; the sleep between turns only passes time. */
  method SendRequest(breaker: CircuitBreaker, p: Option<Policy>, script: Script)
    returns (answer: Result<seq<Byte>, ClientError>, ghost call: Call)
    modifies breaker
    ensures call == Send(breaker.config, Some(old(breaker.Now())), p, script, 0, None) && answer == call.answer
    ensures breaker.Now() == Run(breaker.config, old(breaker.Now()), call.events)
  {
    var c := breaker.config;
    var maxAttempts := MaxAttempts(p);
    var last: Option<ClientError> := None;
    ghost var events := [];
    var attempt := 0;
    ghost var whole := Send(c, Some(breaker.Now()), p, script, 0, None);
    while attempt < maxAttempts
      invariant attempt <= maxAttempts
      invariant breaker.Now() == Run(c, old(breaker.Now()), events)
      invariant whole == Prepend(events, Send(c, Some(breaker.Now()), p, script, attempt, last))
    {
      var a := script(attempt);
      ghost var before := breaker.Now();
      var allowed := breaker.AllowRequest(a.askedAt);
      RunConcat(c, old(breaker.Now()), events, [Ask(a.askedAt)]);
      RunTurn(c, before, a);
      if !allowed { return Err(BREAKER_OPEN), whole; }
      RunConcat(c, old(breaker.Now()), events, [Ask(a.askedAt), Record(a)]);
      if a.outcome.Ok? {
        breaker.RecordSuccess();
        return a.outcome, whole;
      }
      breaker.RecordFailure(a.doneAt);
      if ShouldRetry(p, a.outcome.error) && attempt + 1 < maxAttempts {
        last := Some(a.outcome.error);
        PrependTurn(events, [Ask(a.askedAt), Record(a)], Send(c, Some(breaker.Now()), p, script, attempt + 1, last));
        events := events + [Ask(a.askedAt), Record(a)];
        attempt := attempt + 1;
      } else {
        return a.outcome, whole;
      }
    }
    assert events + [] == events;
    answer, call := Err(if last.Some? then last.value else EXHAUSTED), whole;
  }

  ghost function Prepend(events: seq<Event>, call: Call): (r: Call) { call.(events := events + call.events) }

  lemma {:induction false} PrependTurn(events: seq<Event>, turn: seq<Event>, call: Call)
    ensures Prepend(events, Prepend(turn, call)) == Prepend(events + turn, call)
  {
    assert events + (turn + call.events) == events + turn + call.events;
  }

  lemma {:induction false} RunTurn(c: Config, s: State, a: Attempt)
    ensures Run(c, s, [Ask(a.askedAt)]) == After(c, s, Ask(a.askedAt))
    ensures Run(c, s, [Ask(a.askedAt), Record(a)]) == After(c, After(c, s, Ask(a.askedAt)), Record(a))
  {
    var s2 := After(c, s, Ask(a.askedAt));
    assert [Ask(a.askedAt), Record(a)][1..] == [Record(a)] && [Record(a)][1..] == [];
    assert Run(c, s2, [Record(a)]) == After(c, s2, Record(a));
  }

  // ---- bounds on one call ----

  /** Requests sent: each records exactly one outcome. */
  function Sent(events: seq<Event>): (n: nat) {
    if events == [] then 0 else (if events[0].Ask? then 0 else 1) + Sent(events[1..])
  }

  lemma {:induction false} SentTurn(a: Attempt, rest: seq<Event>)
    ensures Sent([Ask(a.askedAt), Record(a)] + rest) == 1 + Sent(rest)
  {
    var all := [Ask(a.askedAt), Record(a)] + rest;
    assert all[1..] == [Record(a)] + rest && all[1..][1..] == rest;
  }

  /** One call sends at most `max_retries + 1` requests, and asks the breaker once more at most. */
  lemma {:induction false} AttemptsBound(c: Config, cb: Option<State>, p: Option<Policy>, script: Script, i: nat,
                                         last: Option<ClientError>)
    requires i <= MaxAttempts(p)
    ensures var call := Send(c, cb, p, script, i, last);
            Sent(call.events) <= MaxAttempts(p) - i && |call.events| <= 2 * (MaxAttempts(p) - i)
    ensures MaxAttempts(p) <= if p.Some? then p.value.maxRetries + 1 else 1
    decreases MaxAttempts(p) - i
  {
    hide Refuses, ShouldRetry, MaxAttempts;
    MaxAttemptsBound(p);
    if i < MaxAttempts(p) {
      var a := script(i);
      var turn := [Ask(a.askedAt), Record(a)];
      SentTurn(a, []);
      assert turn + [] == turn;
      var cb2 := if cb.Some? then Some(Run(c, cb.value, turn)) else None;
      if a.outcome.Err? {
        AttemptsBound(c, cb2, p, script, i + 1, Some(a.outcome.error));
        SentTurn(a, Send(c, cb2, p, script, i + 1, Some(a.outcome.error)).events);
      }
      assert Sent([Ask(a.askedAt)]) == 0;
    }
  }

  lemma {:induction false} MaxAttemptsBound(p: Option<Policy>)
    ensures MaxAttempts(p) <= if p.Some? then p.value.maxRetries + 1 else 1
  {
  }

  /** The breaker events of turns `i` to `n`, none refused: each is asked for, and its outcome recorded. */
  function Turns(script: Script, i: nat, n: nat): (events: seq<Event>)
    requires i <= n
    decreases n - i
  {
    if i == n then []
    else
      [Ask(script(i).askedAt), if script(i).outcome.Ok? then Success else Failure(script(i).doneAt)] + Turns(script, i + 1, n)
  }

  lemma {:induction false} SentTurns(script: Script, i: nat, n: nat, rest: seq<Event>)
    requires i <= n
    ensures Sent(Turns(script, i, n) + rest) == n - i + Sent(rest)
    decreases n - i
  {
    if i == n {
      assert [] + rest == rest;
    } else {
      SentTurns(script, i + 1, n, rest);
      var turn := [Ask(script(i).askedAt), Record(script(i))];
      Cut(turn, Turns(script, i + 1, n), rest);
      SentTurn(script(i), Turns(script, i + 1, n) + rest);
    }
  }

  /**
    Every call, from the script, the retry set and the breaker: it goes on past a turn exactly when its error is
    a transport error or a status whose code is listed, and ends at turn `n`, refused with UNAVAILABLE or with
    that turn's own outcome.
  */
  lemma {:induction false} CallEnds(c: Config, cb: Option<State>, p: Option<Policy>, script: Script, i: nat,
                                    last: Option<ClientError>) returns (n: nat, refused: bool)
    requires p.Some? ==> i <= p.value.maxRetries < 0xFFFF_FFFF
    requires p.None? ==> i == 0
    ensures i <= n && (if p.Some? then n <= p.value.maxRetries else n == 0)
    ensures forall k :: i <= k < n ==>
              && script(k).outcome.Err?
              && match script(k).outcome.error
                 case Transport(_) => true
                 case Status(code, _) => code in p.value.retryOn
                 case OtherError(_) => false
    ensures forall k :: i <= k < n ==> cb.Some? ==> !Refuses(c, Run(c, cb.value, Turns(script, i, k)), script(k).askedAt)
    ensures refused <==> cb.Some? && Refuses(c, Run(c, cb.value, Turns(script, i, n)), script(n).askedAt)
    ensures var call := Send(c, cb, p, script, i, last);
            if refused then
              && call.answer == Err(Status(14, "circuit breaker open"))
              && call.events == Turns(script, i, n) + [Ask(script(n).askedAt)] && Sent(call.events) == n - i
            else
              && call.answer == script(n).outcome
              && call.events == Turns(script, i, n + 1) && Sent(call.events) == n + 1 - i
              && (script(n).outcome.Ok? || p.None? || n == p.value.maxRetries
                  || match script(n).outcome.error
                     case Transport(_) => false
                     case Status(code, _) => code !in p.value.retryOn
                     case OtherError(_) => true)
    decreases MaxAttempts(p) - i
  {
    hide Refuses, Run;
    var a := script(i);
    var turn := [Ask(a.askedAt), Record(a)];
    OneTurn(script, i);
    n, refused := i, cb.Some? && Refuses(c, cb.value, a.askedAt);
    RunNothing(c, cb);
    if refused {
      assert [] + [Ask(a.askedAt)] == [Ask(a.askedAt)] && Sent([Ask(a.askedAt)]) == 0;
    } else if a.outcome.Err? && ShouldRetry(p, a.outcome.error) && i + 1 < MaxAttempts(p) {
      var cb2 := if cb.Some? then Some(Run(c, cb.value, turn)) else None;
      n, refused := CallEnds(c, cb2, p, script, i + 1, Some(a.outcome.error));
      forall k | i < k <= n
        ensures cb.Some? ==> Run(c, cb.value, Turns(script, i, k)) == Run(c, cb2.value, Turns(script, i + 1, k)) {
        if cb.Some? { RunConcat(c, cb.value, turn, Turns(script, i + 1, k)); }
      }
      Cut(turn, Turns(script, i + 1, n), [Ask(script(n).askedAt)]);
      SentTurn(a, Send(c, cb2, p, script, i + 1, Some(a.outcome.error)).events);
    }
  }

  lemma {:induction false} OneTurn(script: Script, i: nat)
    ensures Turns(script, i, i + 1) == [Ask(script(i).askedAt), Record(script(i))] && Sent(Turns(script, i, i + 1)) == 1
    ensures Turns(script, i, i) == []
  {
    var turn := [Ask(script(i).askedAt), Record(script(i))];
    assert turn + [] == turn;
    SentTurn(script(i), []);
  }

  lemma {:induction false} RunNothing(c: Config, cb: Option<State>)
    ensures cb.Some? ==> Run(c, cb.value, []) == cb.value
  {
  }

  /**
    The error after the loop is reached only when `max_retries + 1` wraps to zero, and then no
    request is sent at all.
  */
  lemma {:induction false} FallThroughIff(c: Config, cb: Option<State>, p: Option<Policy>, script: Script)
    ensures var call := Send(c, cb, p, script, 0, None);
            call.ranOut <==> p.Some? && p.value.maxRetries == 0xFFFF_FFFF
    ensures var call := Send(c, cb, p, script, 0, None);
            call.ranOut ==> call.events == [] && call.answer == Err(EXHAUSTED)
  {
    NeverRunsOut(c, cb, p, script, 0, None);
  }

  lemma {:induction false} NeverRunsOut(c: Config, cb: Option<State>, p: Option<Policy>, script: Script, i: nat,
                                        last: Option<ClientError>)
    ensures i < MaxAttempts(p) ==> !Send(c, cb, p, script, i, last).ranOut
    decreases MaxAttempts(p) - i
  {
    hide Refuses, ShouldRetry, Run;
    if i + 1 < MaxAttempts(p) && script(i).outcome.Err? {
      var a := script(i);
      var cb2 := if cb.Some? then Some(Run(c, cb.value, [Ask(a.askedAt), Record(a)])) else None;
      NeverRunsOut(c, cb2, p, script, i + 1, Some(a.outcome.error));
    }
  }

  /** No turn asks the breaker once the reset time has passed since the turn before. */
  ghost predicate Prompt(c: Config, script: Script) {
    forall i: nat :: Elapsed(script(i).doneAt, script(i + 1).askedAt) < c.reset
  }

  /** Every request fails in a way that is retried. */
  ghost predicate AllRetried(p: Option<Policy>, script: Script) {
    forall i: nat :: script(i).outcome.Err? && ShouldRetry(p, script(i).outcome.error)
  }

  /** A closed breaker with `f` failures behind it. */
  predicate ClosedAt(c: Config, s: State, f: nat) { s.phase.Closed? && s.failures == f && f < Limit(c) }

  lemma {:induction false} TurnCloses(c: Config, s: State, a: Attempt, f: nat)
    requires ClosedAt(c, s, f) && a.outcome.Err?
    ensures !Refuses(c, s, a.askedAt)
    ensures var t := Run(c, s, [Ask(a.askedAt), Record(a)]);
            if f + 1 < Limit(c) then ClosedAt(c, t, f + 1) else t.phase.Open? && t.lastFailure == Some(a.doneAt)
  {
    RunTurn(c, s, a);
  }

  /**
    From Closed with `f` failures, and unless the reset time elapses between turns, a call sends at
    most `threshold - f` failing requests: the next turn is refused.
  */
  lemma {:induction false} FailureBudget(c: Config, s: State, p: Option<Policy>, script: Script, i: nat,
                                         last: Option<ClientError>, f: nat)
    requires ClosedAt(c, s, f) && Prompt(c, script)
    ensures FailuresIn(Send(c, Some(s), p, script, i, last).events) <= Limit(c) - f
    decreases MaxAttempts(p) - i
  {
    hide Refuses, ShouldRetry, Run, Limit, MaxAttempts;
    if i < MaxAttempts(p) {
      var a := script(i);
      var turn := [Ask(a.askedAt), Record(a)];
      assert turn + [] == turn;
      assert FailuresIn([Ask(a.askedAt)]) == 0;
      if a.outcome.Err? {
        TurnCloses(c, s, a, f);
        var t, e := Run(c, s, turn), Some(a.outcome.error);
        var rest := Send(c, Some(t), p, script, i + 1, e);
        if f + 1 < Limit(c) {
          FailureBudget(c, t, p, script, i + 1, e, f + 1);
        } else {
          RefusedNext(c, t, p, script, i, e);
        }
      }
    }
  }

  lemma {:induction false} RefusedNext(c: Config, t: State, p: Option<Policy>, script: Script, i: nat, e: Option<ClientError>)
    requires t.phase.Open? && t.lastFailure == Some(script(i).doneAt) && Prompt(c, script)
    ensures var call := Send(c, Some(t), p, script, i + 1, e);
            FailuresIn(call.events) == 0 && (i + 1 < MaxAttempts(p) ==>
              call.answer == Err(BREAKER_OPEN) && call.events == [Ask(script(i + 1).askedAt)])
  {
    hide ShouldRetry, Run, MaxAttempts;
    assert Elapsed(script(i).doneAt, script(i + 1).askedAt) < c.reset;
    assert FailuresIn([Ask(script(i + 1).askedAt)]) == 0;
  }

  function FailuresIn(events: seq<Event>): (n: nat) {
    if events == [] then 0 else (if events[0].Failure? then 1 else 0) + FailuresIn(events[1..])
  }

  /**
    When every request fails and would be retried, the number sent is exact: the smaller of the
    turns left and the failures the breaker still tolerates; the call then ends refused if the
    breaker ran out first.
  */
  lemma {:induction false} AllFailExactly(c: Config, s: State, p: Option<Policy>, script: Script, i: nat,
                                          last: Option<ClientError>, f: nat)
    requires ClosedAt(c, s, f) && Prompt(c, script) && AllRetried(p, script) && i < MaxAttempts(p)
    ensures var call, turns, budget := Send(c, Some(s), p, script, i, last), MaxAttempts(p) - i, Limit(c) - f;
            && Sent(call.events) == (if turns <= budget then turns else budget)
            && call.answer == if budget < turns then Err(BREAKER_OPEN) else script(i + turns - 1).outcome
    decreases MaxAttempts(p) - i
  {
    hide Refuses, Run, Limit, MaxAttempts;
    var a := script(i);
    assert a.outcome.Err? && ShouldRetry(p, a.outcome.error);
    var turn := [Ask(a.askedAt), Record(a)];
    TurnCloses(c, s, a, f);
    SentTurn(a, []);
    assert turn + [] == turn;
    if i + 1 < MaxAttempts(p) {
      var t, e := Run(c, s, turn), Some(a.outcome.error);
      SentTurn(a, Send(c, Some(t), p, script, i + 1, e).events);
      if f + 1 < Limit(c) {
        AllFailExactly(c, t, p, script, i + 1, e, f + 1);
      } else {
        RefusedNext(c, t, p, script, i, e);
        assert Sent([Ask(script(i + 1).askedAt)]) == 0;
      }
    }
  }
}
