/** The circuit breaker (`src/rpc/circuit_breaker.rs`): a state machine behind a lock, driven by
    any interleaving of callers. Every locked section is one atomic step; times are readings of one
    monotonic clock. */
module CircuitBreaker {
  import opened AppErrors
  import opened Arithmetic
  import opened Wrappers

  datatype Config = Config(threshold: nat, cooldown: nat)

  datatype CircuitState = Closed | Open(openedAt: nat) | HalfOpen

  datatype Inner = Inner(state: CircuitState, failures: nat)

  const INITIAL := Inner(Closed, 0)

  const OPEN_ERROR := Other("circuit breaker open")

  // ----- The steps, on values -----

  predicate Rejects(c: Config, s: Inner, now: nat) {
    c.threshold > 0 &&
    match s.state
    case Closed => false
    case HalfOpen => true
    case Open(openedAt) => (if now >= openedAt then now - openedAt else 0) < c.cooldown
  }

  function AfterCheck(c: Config, s: Inner, now: nat): Inner {
    if c.threshold > 0 && s.state.Open? && !Rejects(c, s, now) then s.(state := HalfOpen) else s
  }

  function AfterSuccess(c: Config, s: Inner): Inner {
    if c.threshold == 0 then s else INITIAL
  }

  function AfterFailure(c: Config, s: Inner, error: AppError, now: nat): Inner {
    if c.threshold == 0 || !IsTransportFailure(error) then s
    else if s.state.HalfOpen? || s.failures + 1 >= c.threshold then Inner(Open(now), 0)
    else s.(failures := s.failures + 1)
  }

  // ----- The breaker object -----

  class CircuitBreaker {
    const config: Config
    var state: CircuitState
    var consecutiveFailures: nat

    ghost function Contents(): Inner
      reads this
    {
      Inner(state, consecutiveFailures)
    }

    constructor (config: Config)
      ensures this.config == config && Contents() == INITIAL
    {
      this.config := config;
      state, consecutiveFailures := Closed, 0;
    }

    method ShouldReject(now: nat) returns (reject: bool)
      modifies this
      ensures reject == Rejects(config, old(Contents()), now)
      ensures Contents() == AfterCheck(config, old(Contents()), now)
    {
      if config.threshold == 0 {
        return false;
      }
      match state
      case Closed =>
        reject := false;
      case HalfOpen =>
        reject := true;
      case Open(openedAt) =>
        var elapsed := if now >= openedAt then now - openedAt else 0;
        if elapsed >= config.cooldown {
          state := HalfOpen;
          reject := false;
        } else {
          reject := true;
        }
    }

    method RecordSuccess()
      modifies this
      ensures Contents() == AfterSuccess(config, old(Contents()))
    {
      if config.threshold == 0 {
        return;
      }
      consecutiveFailures := 0;
      state := Closed;
    }

    method RecordFailure(error: AppError, now: nat)
      modifies this
      ensures Contents() == AfterFailure(config, old(Contents()), error, now)
    {
      if config.threshold == 0 {
        return;
      }
      if !IsTransportFailure(error) {
        return;
      }
      if state.HalfOpen? {
        state := Open(now);
        consecutiveFailures := 0;
        return;
      }
      consecutiveFailures := consecutiveFailures + 1;
      if consecutiveFailures >= config.threshold {
        state := Open(now);
        consecutiveFailures := 0;
      }
    }

    /** Check, call and record in one go: `outcome` is what the operation returns, at `later`. */
    method Call<T>(outcome: Result<T, AppError>, now: nat, later: nat) returns (r: Result<T, AppError>)
      modifies this
      ensures Rejects(config, old(Contents()), now) ==> r == Err(OPEN_ERROR) && Contents() == old(Contents())
      ensures !Rejects(config, old(Contents()), now) ==>
                && r == outcome
                && Contents() == match outcome
                                 case Ok(_) => AfterSuccess(config, AfterCheck(config, old(Contents()), now))
                                 case Err(e) => AfterFailure(config, AfterCheck(config, old(Contents()), now), e, later)
    {
      var reject := ShouldReject(now);
      if reject {
        return Err(OPEN_ERROR);
      }
      match outcome {
        case Ok(_) => RecordSuccess();
        case Err(e) => RecordFailure(e, later);
      }
      r := outcome;
    }
  }

  // ----- Runs: callers interleaved in any order -----

  /** One locked section, and the clock reading it took. A caller first checks, and once let
      through it records one outcome. A call that is dropped records nothing, which leaves the
      breaker as an uncounted failure does, and stands in a run as one. */
  datatype Event =
    | Check(now: nat)
    | Success(now: nat)
    | Failure(now: nat, error: AppError)

  /** The breaker, the calls let through whose outcome is not recorded yet, and the last reading. */
  datatype World = World(inner: Inner, inFlight: nat, clock: nat)

  const START := World(INITIAL, 0, 0)

  predicate Possible(w: World, e: Event) {
    w.clock <= e.now && (e.Check? || w.inFlight > 0)
  }

  predicate Admits(c: Config, w: World, e: Event) {
    e.Check? && !Rejects(c, w.inner, e.now)
  }

  function Step(c: Config, w: World, e: Event): World {
    match e
    case Check(now) =>
      World(AfterCheck(c, w.inner, now), if Admits(c, w, e) then w.inFlight + 1 else w.inFlight, now)
    case Success(now) =>
      World(AfterSuccess(c, w.inner), if w.inFlight > 0 then w.inFlight - 1 else 0, now)
    case Failure(now, error) =>
      World(AfterFailure(c, w.inner, error, now), if w.inFlight > 0 then w.inFlight - 1 else 0, now)
  }

  function Run(c: Config, w: World, trace: seq<Event>): World
    decreases |trace|
  {
    if trace == [] then w
    else Step(c, Run(c, w, trace[..|trace| - 1]), trace[|trace| - 1])
  }

  /** Every event could have happened when it did. */
  predicate IsRun(c: Config, w: World, trace: seq<Event>)
    decreases |trace|
  {
    trace == [] ||
    (var before := trace[..|trace| - 1];
     IsRun(c, w, before) && Possible(Run(c, w, before), trace[|trace| - 1]))
  }

  predicate SuccessFree(trace: seq<Event>) {
    forall i :: 0 <= i < |trace| ==> !trace[i].Success?
  }

  /** Whether the event at `i` lets a call through. */
  predicate AdmittedAt(c: Config, w: World, trace: seq<Event>, i: nat)
    requires i < |trace|
  {
    Admits(c, Run(c, w, trace[..i]), trace[i])
  }

  function Admissions(c: Config, w: World, trace: seq<Event>): nat
    decreases |trace|
  {
    if trace == [] then 0
    else
      var n := |trace| - 1;
      Admissions(c, w, trace[..n]) + if AdmittedAt(c, w, trace, n) then 1 else 0
  }

  lemma {:induction false} RunConcat(c: Config, w: World, a: seq<Event>, b: seq<Event>)
    ensures Run(c, w, a + b) == Run(c, Run(c, w, a), b)
    ensures IsRun(c, w, a + b) <==> IsRun(c, w, a) && IsRun(c, Run(c, w, a), b)
    decreases |b|
  {
    if b == [] {
      assert a + b == a;
    } else {
      var n := |b| - 1;
      assert (a + b)[..|a + b| - 1] == a + b[..n];
      RunConcat(c, w, a, b[..n]);
    }
  }

  // ----- What the counter means -----

  /** Transport failures recorded since the last success, however the breaker stood meanwhile. */
  function FailuresSinceSuccess(trace: seq<Event>): nat
    decreases |trace|
  {
    if trace == [] then 0
    else
      var before := FailuresSinceSuccess(trace[..|trace| - 1]);
      match trace[|trace| - 1]
      case Check(_) => before
      case Success(_) => 0
      case Failure(_, error) => if IsTransportFailure(error) then before + 1 else before
  }

  /** An event opens the breaker when it leaves it open, stamped with the event's own time, and
      counting afresh. */
  predicate Opens(c: Config, w: World, e: Event) {
    e.Failure? && IsTransportFailure(e.error) && Step(c, w, e).inner == Inner(Open(e.now), 0)
  }

  /** Whether the event is a failure of the kind that counts. */
  predicate IsCounted(e: Event) {
    e.Failure? && IsTransportFailure(e.error)
  }

  /** Transport failures recorded since the last success or opening: the count starts afresh on the
      threshold-th of them, and on the first one that half-open sees. */
  function FailuresSinceReset(c: Config, trace: seq<Event>): nat
    decreases |trace|
  {
    if trace == [] then 0
    else
      var e, prefix := trace[|trace| - 1], trace[..|trace| - 1];
      var before := FailuresSinceReset(c, prefix);
      if e.Success? then 0
      else if !IsCounted(e) then before
      else if IsProbing(c, prefix) || before + 1 == c.threshold then 0
      else before + 1
  }

  /** Whether a circuit opened at `since` has been open for the cooldown; none is over at once. */
  predicate HasCooled(c: Config, since: nat, now: nat) {
    now >= since + c.cooldown || c.cooldown == 0
  }

  /** Whether a check has been let through after a cooldown, with no success or transport failure
      recorded since. */
  predicate IsProbing(c: Config, trace: seq<Event>)
    decreases |trace|
  {
    if trace == [] then false
    else
      var e, prefix := trace[|trace| - 1], trace[..|trace| - 1];
      if e.Check? then
        var since := OpenedAt(c, prefix);
        IsProbing(c, prefix) || (since.Some? && HasCooled(c, since.value, e.now))
      else IsProbing(c, prefix) && !e.Success? && !IsCounted(e)
  }

  /** When the circuit was last since, if nothing has closed it or let a probe through since: the
      time of the threshold-th failure since a reset, or of the one that ended a probe. */
  function OpenedAt(c: Config, trace: seq<Event>): Option<nat>
    decreases |trace|
  {
    if trace == [] then None
    else
      var e, prefix := trace[|trace| - 1], trace[..|trace| - 1];
      var before := OpenedAt(c, prefix);
      if e.Success? then None
      else if IsCounted(e) then
        if IsProbing(c, prefix) || FailuresSinceReset(c, prefix) + 1 == c.threshold then Some(e.now) else before
      else if e.Check? && before.Some? && HasCooled(c, before.value, e.now) then None
      else before
  }

  /** The whole state of an enabled breaker, told from what was recorded and when somebody asked. */
  lemma {:induction false} StateIsHistory(c: Config, trace: seq<Event>)
    requires c.threshold > 0
    ensures var s := Run(c, START, trace).inner;
            && s.failures == FailuresSinceReset(c, trace) < c.threshold
            && (s.state.HalfOpen? <==> IsProbing(c, trace))
            && (s.state.Open? <==> OpenedAt(c, trace).Some?)
            && (s.state.Open? ==> OpenedAt(c, trace) == Some(s.state.openedAt))
            && (forall now: nat :: Rejects(c, s, now) <==>
                  IsProbing(c, trace) || (OpenedAt(c, trace).Some? && !HasCooled(c, OpenedAt(c, trace).value, now)))
    decreases |trace|
  {
    if trace == [] {
    } else {
      StateIsHistory(c, trace[..|trace| - 1]);
    }
  }

  /** An enabled breaker is closed exactly while fewer than `threshold` transport failures have
      been recorded since the last success, and then its counter is their number: it opens on the
      threshold-th one and no earlier. */
  lemma {:induction false} ClosedIffFewFailures(c: Config, trace: seq<Event>)
    requires c.threshold > 0
    ensures var s := Run(c, START, trace).inner;
            && (s.state.Closed? <==> FailuresSinceSuccess(trace) < c.threshold)
            && (s.state.Closed? ==> s.failures == FailuresSinceSuccess(trace))
    decreases |trace|
  {
    if trace == [] {
    } else {
      ClosedIffFewFailures(c, trace[..|trace| - 1]);
    }
  }

  /** In every reachable state the counter is the failures since the last success or opening, and
      it stays below the threshold. */
  lemma CounterIsFailuresSinceReset(c: Config, trace: seq<Event>)
    requires c.threshold > 0
    ensures Run(c, START, trace).inner.failures == FailuresSinceReset(c, trace) < c.threshold
  {
    StateIsHistory(c, trace);
  }

  /** The transport failures in a trace. */
  function CountedFailures(trace: seq<Event>): nat
    decreases |trace|
  {
    if trace == [] then 0
    else CountedFailures(trace[..|trace| - 1]) + if IsCounted(trace[|trace| - 1]) then 1 else 0
  }

  /** Failures that come in while the circuit is open do not prolong the cooldown until there are
      `threshold` of them: through any stretch with fewer, with no success and nothing let through, it
      stays open since `t` and only counts; a check is let through exactly when the cooldown from `t`
      has passed; and the next failure opens it afresh exactly when it is the threshold-th. */
  lemma {:induction false} LateFailuresDoNotProlong(c: Config, w: World, t: nat, stretch: seq<Event>)
    requires c.threshold > 0 && w.inner == Inner(Open(t), 0)
    requires SuccessFree(stretch) && Admissions(c, w, stretch) == 0 && CountedFailures(stretch) < c.threshold
    ensures var s := Run(c, w, stretch).inner;
            && s == Inner(Open(t), CountedFailures(stretch))
            && (forall now: nat :: !Rejects(c, s, now) <==> HasCooled(c, t, now))
            && (forall e :: IsCounted(e) ==>
                  Step(c, Run(c, w, stretch), e).inner
                  == if CountedFailures(stretch) + 1 == c.threshold then Inner(Open(e.now), 0)
                     else Inner(Open(t), CountedFailures(stretch) + 1))
    decreases |stretch|
  {
    if stretch == [] {
    } else {
      var n := |stretch| - 1;
      var before := stretch[..n];
      assert forall i :: 0 <= i < n ==> !before[i].Success? by {
        assert forall i :: 0 <= i < n ==> before[i] == stretch[i];
      }
      LateFailuresDoNotProlong(c, w, t, before);
    }
  }

  // ----- How often a failing endpoint is probed -----

  /** Through a stretch without successes that starts at time `since`, a breaker that is not
      closed was opened after `since`. */
  predicate OpenedSince(w: World, since: nat) {
    w.clock >= since && (w.inner.state.Open? ==> since <= w.inner.state.openedAt <= w.clock)
  }

  lemma {:induction false} StaysOpenedSince(c: Config, w: World, trace: seq<Event>, since: nat)
    requires IsRun(c, w, trace) && SuccessFree(trace) && OpenedSince(w, since)
    ensures OpenedSince(Run(c, w, trace), since)
    ensures c.threshold > 0 && !w.inner.state.Closed? ==> !Run(c, w, trace).inner.state.Closed?
    decreases |trace|
  {
    if trace == [] {
    } else {
      StaysOpenedSince(c, w, trace[..|trace| - 1], since);
    }
  }

  /** Two calls let through with no success recorded between them, the second by a breaker that
      is not closed, are at least one cooldown apart. */
  lemma AdmissionsAreSpaced(c: Config, past: seq<Event>, first: Event, between: seq<Event>, second: Event)
    requires c.threshold > 0
    requires IsRun(c, START, past + [first] + between + [second]) && SuccessFree(between)
    requires Admits(c, Run(c, START, past), first)
    requires Admits(c, Run(c, START, past + [first] + between), second)
    requires !Run(c, START, past + [first] + between).inner.state.Closed?
    ensures second.now >= first.now + c.cooldown
  {
    RunConcat(c, START, past + [first] + between, [second]);
    RunConcat(c, START, past + [first], between);
    RunConcat(c, START, past, [first]);
    var w := Run(c, START, past + [first]);
    OneStep(c, Run(c, START, past), first);
    OneStep(c, Run(c, START, past + [first] + between), second);
    StaysOpenedSince(c, w, between, first.now);
  }

  lemma OneStep(c: Config, w: World, e: Event)
    ensures Run(c, w, [e]) == Step(c, w, e)
    ensures IsRun(c, w, [e]) <==> Possible(w, e)
  {
    assert [e][..0] == [];
  }

  /** Once open, the breaker lets nothing through before the cooldown has passed. */
  lemma NothingBeforeCooldown(c: Config, past: seq<Event>, opening: Event, between: seq<Event>, next: Event)
    requires c.threshold > 0
    requires IsRun(c, START, past + [opening] + between + [next]) && SuccessFree(between)
    requires Opens(c, Run(c, START, past), opening)
    requires Admits(c, Run(c, START, past + [opening] + between), next)
    ensures next.now >= opening.now + c.cooldown
  {
    RunConcat(c, START, past + [opening] + between, [next]);
    RunConcat(c, START, past + [opening], between);
    RunConcat(c, START, past, [opening]);
    OneStep(c, Run(c, START, past), opening);
    OneStep(c, Run(c, START, past + [opening] + between), next);
    StaysOpenedSince(c, Run(c, START, past + [opening]), between, opening.now);
  }

  /** The time by which the calls let through so far must be paid for. */
  function PaidUntil(w: World): nat {
    if w.inner.state.Open? then w.inner.state.openedAt else w.clock
  }

  lemma ProbeIsPaid(c: Config, w: World, e: Event, since: nat, paid: nat)
    requires c.threshold > 0
    requires !w.inner.state.Closed? && OpenedSince(w, since)
    requires Possible(w, e) && !e.Success? && paid <= PaidUntil(w)
    ensures !Step(c, w, e).inner.state.Closed? && OpenedSince(Step(c, w, e), since)
    ensures paid + (if Admits(c, w, e) then c.cooldown else 0) <= PaidUntil(Step(c, w, e)) <= e.now
  {
  }

  lemma {:induction false} ProbesArePaid(c: Config, w: World, trace: seq<Event>, since: nat)
    requires c.threshold > 0
    requires !w.inner.state.Closed? && OpenedSince(w, since)
    requires IsRun(c, w, trace) && SuccessFree(trace)
    ensures !Run(c, w, trace).inner.state.Closed? && OpenedSince(Run(c, w, trace), since)
    ensures since + Admissions(c, w, trace) * c.cooldown <= PaidUntil(Run(c, w, trace))
    decreases |trace|
  {
    hide Step, Rejects, Possible, OpenedSince, PaidUntil;
    if trace == [] {
      assert since <= PaidUntil(w) by { PaidFromStart(w, since); }
    } else {
      var n := |trace| - 1;
      ProbesArePaid(c, w, trace[..n], since);
      var k := Admissions(c, w, trace[..n]);
      ProbeIsPaid(c, Run(c, w, trace[..n]), trace[n], since, since + k * c.cooldown);
      Distribute(c.cooldown, k, 1);
    }
  }

  lemma PaidFromStart(w: World, since: nat)
    requires OpenedSince(w, since)
    ensures since <= PaidUntil(w) <= w.clock
  {
  }

  /** While the endpoint keeps failing, probes are rate-bounded: each call let through after an
      opening has its own cooldown between the opening and now. */
  lemma ProbesAreRateBounded(c: Config, past: seq<Event>, opening: Event, rest: seq<Event>)
    requires c.threshold > 0
    requires IsRun(c, START, past + [opening] + rest) && SuccessFree(rest)
    requires Opens(c, Run(c, START, past), opening)
    ensures var tripped := Run(c, START, past + [opening]);
            Admissions(c, tripped, rest) * c.cooldown <= Run(c, tripped, rest).clock - opening.now
  {
    RunConcat(c, START, past + [opening], rest);
    RunConcat(c, START, past, [opening]);
    OneStep(c, Run(c, START, past), opening);
    var tripped := Run(c, START, past + [opening]);
    ProbesArePaid(c, tripped, rest, opening.now);
    PaidFromStart(Run(c, tripped, rest), opening.now);
  }

  // ----- The half-open trap -----

  /** Half-open with no call in flight: nobody is left to record an outcome. */
  predicate Wedged(c: Config, w: World) {
    c.threshold > 0 && w.inner.state.HalfOpen? && w.inFlight == 0
  }

  lemma {:induction false} WedgedForever(c: Config, w: World, more: seq<Event>)
    requires Wedged(c, w) && IsRun(c, w, more)
    ensures Run(c, w, more).inner == w.inner && Run(c, w, more).inFlight == 0
    ensures Admissions(c, w, more) == 0
    decreases |more|
  {
    if more == [] {
    } else {
      WedgedForever(c, w, more[..|more| - 1]);
    }
  }

  /** A breaker can let another call through in some future exactly when it is not wedged. The
      documentation says a probe either closes or reopens the circuit; a probe that ends in an
      error the breaker does not count does neither. */
  lemma RecoversIffNotWedged(c: Config, w: World)
    ensures !Wedged(c, w) <==> exists more :: IsRun(c, w, more) && Admissions(c, w, more) > 0
  {
    hide Wedged, IsRun, Admissions;
    if Wedged(c, w) {
      forall more | IsRun(c, w, more)
        ensures Admissions(c, w, more) == 0
      {
        WedgedForever(c, w, more);
      }
    } else {
      var more := Recovery(c, w);
    }
  }

  lemma Recovery(c: Config, w: World) returns (more: seq<Event>)
    requires !Wedged(c, w)
    ensures IsRun(c, w, more) && Admissions(c, w, more) > 0
  {
    if c.threshold > 0 && w.inner.state.HalfOpen? {
      more := [Success(w.clock), Check(w.clock)];
      OneStep(c, w, more[0]);
      assert more[..1] == [more[0]];
    } else {
      var wait := if w.inner.state.Open? then w.inner.state.openedAt + c.cooldown else 0;
      more := [Check(w.clock + wait)];
      OneStep(c, w, more[0]);
      assert more[..0] == [];
    }
  }

  /** The outcome of the only call in flight leaves the half-open state unless it is an error the
      breaker does not count; then the breaker is wedged. */
  lemma ProbeOutcome(c: Config, w: World, outcome: Event)
    requires c.threshold > 0 && w.inner.state.HalfOpen? && w.inFlight == 1
    requires Possible(w, outcome) && !outcome.Check?
    ensures Wedged(c, Step(c, w, outcome)) <==> outcome.Failure? && !IsTransportFailure(outcome.error)
    ensures outcome.Success? ==> Step(c, w, outcome).inner == INITIAL
    ensures outcome.Failure? && IsTransportFailure(outcome.error) ==>
              Step(c, w, outcome).inner == Inner(Open(outcome.now), 0)
  {
  }

  /** `n` calls in a row that fail to connect. */
  function FailingCalls(n: nat): seq<Event> {
    if n == 0 then [] else FailingCalls(n - 1) + [Check(0), Failure(0, ConnectTimeout(1))]
  }

  lemma {:induction false} FailingCallsCount(c: Config, n: nat)
    requires n <= c.threshold && c.threshold > 0
    ensures IsRun(c, START, FailingCalls(n))
    ensures Run(c, START, FailingCalls(n))
              == World(if n < c.threshold then Inner(Closed, n) else Inner(Open(0), 0), 0, 0)
  {
    if n == 0 {
    } else {
      FailingCallsCount(c, n - 1);
      var w := Run(c, START, FailingCalls(n - 1));
      var pair := [Check(0), Failure(0, ConnectTimeout(1))];
      OneStep(c, w, pair[0]);
      assert pair[..1] == [pair[0]];
      RunConcat(c, START, FailingCalls(n - 1), pair);
    }
  }

  /** Every enabled breaker can be wedged: enough failures, a cooldown, and one probe answered
      with an application error. */
  lemma WedgeIsReachable(c: Config) returns (trace: seq<Event>)
    requires c.threshold > 0
    ensures IsRun(c, START, trace) && Wedged(c, Run(c, START, trace))
  {
    var probe := [Check(c.cooldown), Failure(c.cooldown, Rpc(-32602, None))];
    FailingCallsCount(c, c.threshold);
    var w := Run(c, START, FailingCalls(c.threshold));
    OneStep(c, w, probe[0]);
    assert probe[..1] == [probe[0]];
    RunConcat(c, START, FailingCalls(c.threshold), probe);
    trace := FailingCalls(c.threshold) + probe;
  }

  // ----- Probes and other calls -----

  /** A locked section, and for an outcome whether the call that records it is a probe: one let
      through by an open breaker, not by a closed one. */
  datatype Mark = Mark(event: Event, ofProbe: bool)

  /** The calls in flight, told apart. */
  datatype Crew = Crew(inner: Inner, clock: nat, probes: nat, others: nat)
  {
    function AsWorld(): World {
      World(inner, probes + others, clock)
    }
  }

  const START_CREW := Crew(INITIAL, 0, 0, 0)

  predicate CrewPossible(k: Crew, m: Mark) {
    Possible(k.AsWorld(), m.event) && (!m.event.Check? ==> if m.ofProbe then k.probes > 0 else k.others > 0)
  }

  function CrewStep(c: Config, k: Crew, m: Mark): Crew {
    var w := Step(c, k.AsWorld(), m.event);
    if m.event.Check? then
      if !Admits(c, k.AsWorld(), m.event) then Crew(w.inner, w.clock, k.probes, k.others)
      else if k.inner.state.Open? then Crew(w.inner, w.clock, k.probes + 1, k.others)
      else Crew(w.inner, w.clock, k.probes, k.others + 1)
    else if m.ofProbe then Crew(w.inner, w.clock, Max(k.probes - 1, 0), k.others)
    else Crew(w.inner, w.clock, k.probes, Max(k.others - 1, 0))
  }

  function CrewRun(c: Config, k: Crew, marks: seq<Mark>): Crew
    decreases |marks|
  {
    if marks == [] then k else CrewStep(c, CrewRun(c, k, marks[..|marks| - 1]), marks[|marks| - 1])
  }

  predicate IsCrewRun(c: Config, k: Crew, marks: seq<Mark>)
    decreases |marks|
  {
    marks == [] ||
    (var before := marks[..|marks| - 1];
     IsCrewRun(c, k, before) && CrewPossible(CrewRun(c, k, before), marks[|marks| - 1]))
  }

  function Events(marks: seq<Mark>): (trace: seq<Event>)
    ensures |trace| == |marks|
    ensures forall i :: 0 <= i < |marks| ==> trace[i] == marks[i].event
  {
    seq(|marks|, i requires 0 <= i < |marks| => marks[i].event)
  }

  /** Telling the calls apart changes nothing: these are the runs from before. */
  lemma {:induction false} CrewRunIsRun(c: Config, k: Crew, marks: seq<Mark>)
    requires IsCrewRun(c, k, marks)
    ensures IsRun(c, k.AsWorld(), Events(marks))
    ensures Run(c, k.AsWorld(), Events(marks)) == CrewRun(c, k, marks).AsWorld()
    decreases |marks|
  {
    if marks == [] {
      assert Events(marks) == [];
    } else {
      var n := |marks| - 1;
      CrewRunIsRun(c, k, marks[..n]);
      assert Events(marks)[..n] == Events(marks[..n]);
    }
  }

  lemma {:induction false} CrewRunConcat(c: Config, k: Crew, a: seq<Mark>, b: seq<Mark>)
    ensures CrewRun(c, k, a + b) == CrewRun(c, CrewRun(c, k, a), b)
    ensures IsCrewRun(c, k, a + b) <==> IsCrewRun(c, k, a) && IsCrewRun(c, CrewRun(c, k, a), b)
    decreases |b|
  {
    if b == [] {
      assert a + b == a;
    } else {
      var n := |b| - 1;
      assert (a + b)[..|a + b| - 1] == a + b[..n];
      CrewRunConcat(c, k, a, b[..n]);
    }
  }

  /** A success or a transport failure recorded by a call that was let through while closed. */
  predicate IsStale(m: Mark) {
    !m.ofProbe && (m.event.Success? || (m.event.Failure? && IsTransportFailure(m.event.error)))
  }

  /** While no call let through earlier has its outcome counted during a probe, there is one probe at
      a time, half-open is what it holds the breaker in, and nobody else is let through. */
  lemma {:induction false} OneProbeAtATime(c: Config, marks: seq<Mark>)
    requires c.threshold > 0 && IsCrewRun(c, START_CREW, marks)
    requires forall i :: 0 <= i < |marks| && IsStale(marks[i]) ==> CrewRun(c, START_CREW, marks[..i]).probes == 0
    ensures var k := CrewRun(c, START_CREW, marks);
            && k.probes <= 1
            && (k.probes == 1 ==> k.inner.state.HalfOpen? && forall now :: Rejects(c, k.inner, now))
    decreases |marks|
  {
    if marks == [] {
    } else {
      var n := |marks| - 1;
      var before := marks[..n];
      forall i | 0 <= i < n && IsStale(before[i])
        ensures CrewRun(c, START_CREW, before[..i]).probes == 0
      {
        assert before[i] == marks[i] && before[..i] == marks[..i];
      }
      OneProbeAtATime(c, before);
    }
  }

  predicate NoProbeResolves(marks: seq<Mark>) {
    forall i :: 0 <= i < |marks| ==> marks[i].event.Check? || !marks[i].ofProbe
  }

  lemma {:induction false} LoneProbeHolds(c: Config, k: Crew, more: seq<Mark>)
    requires c.threshold > 0 && k.inner.state.HalfOpen? && k.others == 0
    requires IsCrewRun(c, k, more) && NoProbeResolves(more)
    ensures var after := CrewRun(c, k, more);
            after.inner == k.inner && after.probes == k.probes && after.others == 0
    decreases |more|
  {
    if more == [] {
    } else {
      LoneProbeHolds(c, k, more[..|more| - 1]);
    }
  }

  /** The documentation says that in half-open one probe is in flight and everyone else fails fast
      until it resolves. A second probe can join it before it does exactly when another call, let
      through before the circuit opened, is still in flight too. */
  lemma SecondProbeIff(c: Config, k: Crew)
    requires c.threshold > 0 && k.inner.state.HalfOpen? && k.probes == 1
    ensures k.others > 0 <==>
              exists more :: IsCrewRun(c, k, more) && NoProbeResolves(more) && CrewRun(c, k, more).probes > 1
  {
    if k.others > 0 {
      var more := Reopening(c, k.clock);
      ReopeningAddsProbe(c, k);
      assert IsCrewRun(c, k, more) && NoProbeResolves(more) && CrewRun(c, k, more).probes > 1;
    } else {
      forall more | IsCrewRun(c, k, more) && NoProbeResolves(more)
        ensures CrewRun(c, k, more).probes == 1
      {
        LoneProbeHolds(c, k, more);
      }
    }
  }

  /** An earlier call fails, and a cooldown later somebody asks. */
  function Reopening(c: Config, now: nat): seq<Mark> {
    [Mark(Failure(now, ConnectTimeout(1)), false), Mark(Check(now + c.cooldown), false)]
  }

  lemma ReopeningAddsProbe(c: Config, k: Crew)
    requires c.threshold > 0 && k.inner.state.HalfOpen? && k.others > 0
    ensures var more := Reopening(c, k.clock);
            && IsCrewRun(c, k, more)
            && CrewRun(c, k, more) == Crew(Inner(HalfOpen, 0), k.clock + c.cooldown, k.probes + 1, k.others - 1)
  {
    var more := Reopening(c, k.clock);
    CrewOneStep(c, k, more[0]);
    assert more[..1] == [more[0]];
  }

  lemma CrewOneStep(c: Config, k: Crew, m: Mark)
    ensures CrewRun(c, k, [m]) == CrewStep(c, k, m)
    ensures IsCrewRun(c, k, [m]) <==> CrewPossible(k, m)
  {
    assert [m][..0] == [];
  }

  /** `n` calls let through together; then `n` of them failing to connect. */
  function Burst(n: nat): seq<Mark> {
    if n == 0 then [] else Burst(n - 1) + [Mark(Check(0), false)]
  }

  function Failures(n: nat): seq<Mark> {
    if n == 0 then [] else Failures(n - 1) + [Mark(Failure(0, ConnectTimeout(1)), false)]
  }

  lemma {:induction false} BurstCount(c: Config, n: nat)
    ensures IsCrewRun(c, START_CREW, Burst(n)) && CrewRun(c, START_CREW, Burst(n)) == Crew(INITIAL, 0, 0, n)
  {
    hide IsCrewRun, CrewRun;
    if n == 0 {
      NoSteps(c, START_CREW);
    } else {
      BurstCount(c, n - 1);
      CrewRunConcat(c, START_CREW, Burst(n - 1), [Mark(Check(0), false)]);
      CrewOneStep(c, Crew(INITIAL, 0, 0, n - 1), Mark(Check(0), false));
    }
  }

  lemma NoSteps(c: Config, k: Crew)
    ensures IsCrewRun(c, k, []) && CrewRun(c, k, []) == k
  {
  }

  function AfterFailures(c: Config, n: nat, others: nat): Crew
    requires n <= others
  {
    Crew(if n < c.threshold then Inner(Closed, n) else Inner(Open(0), 0), 0, 0, others - n)
  }

  lemma {:induction false} FailuresCount(c: Config, n: nat, others: nat)
    requires 0 < c.threshold && n <= c.threshold && n <= others
    ensures IsCrewRun(c, Crew(INITIAL, 0, 0, others), Failures(n))
    ensures CrewRun(c, Crew(INITIAL, 0, 0, others), Failures(n)) == AfterFailures(c, n, others)
  {
    hide IsCrewRun, CrewRun;
    var k, m := Crew(INITIAL, 0, 0, others), Mark(Failure(0, ConnectTimeout(1)), false);
    if n == 0 {
      NoSteps(c, k);
    } else {
      FailuresCount(c, n - 1, others);
      CrewRunConcat(c, k, Failures(n - 1), [m]);
      CrewOneStep(c, AfterFailures(c, n - 1, others), m);
    }
  }

  /** Every enabled breaker can come to have two probes in flight: one call more than the threshold
      is let through while it is closed, all but one fail, and the last fails during the first probe. */
  lemma ProbesCanOverlap(c: Config) returns (marks: seq<Mark>)
    requires c.threshold > 0
    ensures IsCrewRun(c, START_CREW, marks)
    ensures CrewRun(c, START_CREW, marks).probes == 2 && CrewRun(c, START_CREW, marks).inner.state.HalfOpen?
  {
    hide IsCrewRun, CrewRun;
    var n := c.threshold;
    var opening := Burst(n + 1) + Failures(n);
    BurstCount(c, n + 1);
    FailuresCount(c, n, n + 1);
    CrewRunConcat(c, START_CREW, Burst(n + 1), Failures(n));
    var k := CrewRun(c, START_CREW, opening);
    var probe := Mark(Check(c.cooldown), false);
    CrewOneStep(c, k, probe);
    CrewRunConcat(c, START_CREW, opening, [probe]);
    var probing := CrewStep(c, k, probe);
    ReopeningAddsProbe(c, probing);
    CrewRunConcat(c, START_CREW, opening + [probe], Reopening(c, probing.clock));
    marks := opening + [probe] + Reopening(c, probing.clock);
  }

  /** A disabled breaker lets everything through and never changes. */
  lemma {:induction false} DisabledIsTransparent(c: Config, trace: seq<Event>)
    requires c.threshold == 0
    ensures Run(c, START, trace).inner == INITIAL
    ensures forall now :: !Rejects(c, Run(c, START, trace).inner, now)
    decreases |trace|
  {
    if trace == [] {
    } else {
      DisabledIsTransparent(c, trace[..|trace| - 1]);
    }
  }
}
