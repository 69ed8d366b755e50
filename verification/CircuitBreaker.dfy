/**
 The upstream circuit breaker (internal/resilience/circuit_breaker.go): a clock-driven machine with three
 states.  Every call takes the time it reads from the clock as an argument.
 */
module CircuitBreaker {

  type uint32 = n: nat | n < 0x1_0000_0000

  datatype State = Closed | HalfOpen | Open

  datatype Config = Config(failureThreshold: uint32, cooldown: int, halfOpenProbes: uint32)

  /** Zero values select the defaults: 5 failures, 30 seconds, 2 probes. */
  function Normalize(cfg: Config): (c: Config)
    ensures c.failureThreshold > 0 && c.cooldown > 0 && c.halfOpenProbes > 0
  {
    Config(if cfg.failureThreshold == 0 then 5 else cfg.failureThreshold,
           if cfg.cooldown <= 0 then 30_000_000_000 else cfg.cooldown,
           if cfg.halfOpenProbes == 0 then 2 else cfg.halfOpenProbes)
  }

  datatype Breaker = Breaker(state: State, failures: uint32, successes: uint32, lastTrip: int, probes: uint32)

  const NEW := Breaker(Closed, 0, 0, 0, 0)

  datatype Op = Allow | RecordSuccess | RecordFailure | Trip | Reset

  /** What the counters mean in each state; in particular no counter can overflow. */
  ghost predicate Consistent(c: Config, b: Breaker) {
    match b.state
    case Closed => b.failures < c.failureThreshold && b.successes == 0 && b.probes == 0
    case Open => b.failures == c.failureThreshold && b.successes == 0 && b.probes == 0
    case HalfOpen => b.failures == c.failureThreshold && b.successes < c.halfOpenProbes && b.probes <= c.halfOpenProbes
  }

  /** A counter increment of Go's `uint32`, which wraps. */
  function Inc(n: uint32): uint32 {
    if n == 0xFFFF_FFFF then 0 else n + 1
  }

  /** One call at time `now`: the next state, and for `Allow` whether the request may proceed. */
  function Apply(c: Config, b: Breaker, op: Op, now: int): (Breaker, bool) {
    match (op, b.state)
    case (Allow, Closed) => (b, true)
    case (Allow, Open) =>
      if now - b.lastTrip >= c.cooldown then (b.(state := HalfOpen, successes := 0, probes := 1), true) else (b, false)
    case (Allow, HalfOpen) =>
      if b.probes >= c.halfOpenProbes then (b, false) else (b.(probes := Inc(b.probes)), true)
    case (RecordSuccess, Closed) => (b.(failures := 0), false)
    case (RecordSuccess, HalfOpen) =>
      var probes := if b.probes > 0 then b.probes - 1 else 0;
      var successes := Inc(b.successes);
      if successes >= c.halfOpenProbes then
        (b.(state := Closed, failures := 0, successes := 0, probes := 0), false)
      else
        (b.(probes := probes, successes := successes), false)
    case (RecordSuccess, Open) => (b.(probes := 0), false)
    case (RecordFailure, Closed) =>
      var failures := Inc(b.failures);
      if failures >= c.failureThreshold then (Breaker(Open, failures, 0, now, 0), false)
      else (b.(failures := failures), false)
    case (RecordFailure, HalfOpen) => (Breaker(Open, c.failureThreshold, 0, now, 0), false)
    case (RecordFailure, Open) => (b.(lastTrip := now), false)
    case (Trip, _) => if b.state != Open then (Breaker(Open, c.failureThreshold, 0, now, 0), false) else (b, false)
    case (Reset, _) => if b.state != Closed then (Breaker(Closed, 0, 0, b.lastTrip, 0), false) else (b, false)
  }

  class CircuitBreaker {
    const config: Config
    var state: State
    var consecutiveFailures: uint32
    var consecutiveSuccesses: uint32
    var lastTripTime: int
    var probesInFlight: uint32

    ghost function View(): Breaker
      reads this
    {
      Breaker(state, consecutiveFailures, consecutiveSuccesses, lastTripTime, probesInFlight)
    }

    /** Holds from construction on; it also rules out every counter overflow. */
    ghost predicate Valid()
      reads this
    {
      config == Normalize(config) && Consistent(config, View())
    }

    /** Configured values are used as they are; zero, or a cooldown that is not positive, selects the default. */
    constructor (cfg: Config)
      ensures Valid() && config == Normalize(cfg) && View() == NEW
      ensures config.failureThreshold == if cfg.failureThreshold == 0 then 5 else cfg.failureThreshold
      ensures config.cooldown == if cfg.cooldown <= 0 then 30_000_000_000 else cfg.cooldown
      ensures config.halfOpenProbes == if cfg.halfOpenProbes == 0 then 2 else cfg.halfOpenProbes
    {
      config := Normalize(cfg);
      state, consecutiveFailures, consecutiveSuccesses, lastTripTime, probesInFlight := Closed, 0, 0, 0, 0;
    }

    method Allow(now: int) returns (permitted: bool)
      requires Valid()
      modifies this
      ensures Valid() && (View(), permitted) == Apply(config, old(View()), Op.Allow, now)
    {
      match state {
        case Closed => return true;
        case Open =>
          if now - lastTripTime >= config.cooldown {
            state, consecutiveSuccesses, probesInFlight := HalfOpen, 0, 1;
            return true;
          }
          return false;
        case HalfOpen =>
          if probesInFlight >= config.halfOpenProbes {
            return false;
          }
          probesInFlight := probesInFlight + 1;
          return true;
      }
    }

    method RecordSuccess()
      requires Valid()
      modifies this
      ensures Valid() && View() == Apply(config, old(View()), Op.RecordSuccess, 0).0
    {
      match state {
        case Closed => consecutiveFailures := 0;
        case HalfOpen =>
          if probesInFlight > 0 {
            probesInFlight := probesInFlight - 1;
          }
          consecutiveSuccesses := consecutiveSuccesses + 1;
          if consecutiveSuccesses >= config.halfOpenProbes {
            state, consecutiveFailures, consecutiveSuccesses, probesInFlight := Closed, 0, 0, 0;
          }
        case Open => probesInFlight := 0;
      }
    }

    method RecordFailure(now: int)
      requires Valid()
      modifies this
      ensures Valid() && View() == Apply(config, old(View()), Op.RecordFailure, now).0
    {
      match state {
        case Closed =>
          consecutiveFailures := consecutiveFailures + 1;
          if consecutiveFailures >= config.failureThreshold {
            state, lastTripTime, probesInFlight, consecutiveSuccesses := Open, now, 0, 0;
          }
        case HalfOpen =>
          state, lastTripTime, probesInFlight, consecutiveSuccesses := Open, now, 0, 0;
          consecutiveFailures := config.failureThreshold;
        case Open => lastTripTime := now;
      }
    }

    /**
     What observers are told: the state that an `Allow` at the same time would leave the breaker in, so it
     anticipates the end of the cooldown.  Open means that request would be refused, closed that it would pass.
     */
    method GetState(now: int) returns (s: State)
      requires Valid()
      ensures s == Apply(config, View(), Op.Allow, now).0.state
      ensures s == Open ==> !Apply(config, View(), Op.Allow, now).1
      ensures s == Closed ==> Apply(config, View(), Op.Allow, now).1
    {
      if state == Open && now - lastTripTime >= config.cooldown {
        return HalfOpen;
      }
      return state;
    }

    method Trip(now: int)
      requires Valid()
      modifies this
      ensures Valid() && View() == Apply(config, old(View()), Op.Trip, now).0
    {
      if state != Open {
        state, lastTripTime, consecutiveFailures := Open, now, config.failureThreshold;
        probesInFlight, consecutiveSuccesses := 0, 0;
      }
    }

    method Reset()
      requires Valid()
      modifies this
      ensures Valid() && View() == Apply(config, old(View()), Op.Reset, 0).0
    {
      if state != Closed {
        state, consecutiveFailures, consecutiveSuccesses, probesInFlight := Closed, 0, 0, 0;
      }
    }
  }

  // ---------------------------------------------------------------------------------------------
  // Runs
  // ---------------------------------------------------------------------------------------------

  datatype Call = Call(op: Op, now: int)

  /** The state after a run of calls. */
  function After(c: Config, b: Breaker, calls: seq<Call>): Breaker {
    if calls == [] then b
    else
      var last := calls[|calls| - 1];
      Apply(c, After(c, b, calls[..|calls| - 1]), last.op, last.now).0
  }

  /** Whether the last call of a run let a request through. */
  function LastAdmits(c: Config, b: Breaker, calls: seq<Call>): bool
    requires calls != []
  {
    var last := calls[|calls| - 1];
    Apply(c, After(c, b, calls[..|calls| - 1]), last.op, last.now).1
  }

  /** How many requests a run lets through. */
  function Admitted(c: Config, b: Breaker, calls: seq<Call>): nat {
    if calls == [] then 0
    else Admitted(c, b, calls[..|calls| - 1]) + if LastAdmits(c, b, calls) then 1 else 0
  }

  /** How many times a run goes from open to half-open. */
  function Episodes(c: Config, b: Breaker, calls: seq<Call>): nat {
    if calls == [] then 0
    else
      var front := calls[..|calls| - 1];
      Episodes(c, b, front)
      + if After(c, b, front).state == Open && After(c, b, calls).state == HalfOpen then 1 else 0
  }

  /** How many requests the half-open episode in progress has let through so far, from its opening probe on. */
  function EpisodeAdmits(c: Config, b: Breaker, calls: seq<Call>): nat {
    if calls == [] || After(c, b, calls).state != HalfOpen then 0
    else
      var front := calls[..|calls| - 1];
      (if After(c, b, front).state == HalfOpen then EpisodeAdmits(c, b, front) else 0)
      + if LastAdmits(c, b, calls) then 1 else 0
  }

  /** Every call keeps the counters consistent, from any state, late completions included. */
  lemma ApplyKeepsConsistent(c: Config, b: Breaker, op: Op, now: int)
    requires c == Normalize(c) && Consistent(c, b)
    ensures Consistent(c, Apply(c, b, op, now).0)
  {
  }

  lemma {:induction false} RunKeepsConsistent(c: Config, b: Breaker, calls: seq<Call>)
    requires c == Normalize(c) && Consistent(c, b)
    ensures Consistent(c, After(c, b, calls))
  {
    if calls != [] {
      RunKeepsConsistent(c, b, calls[..|calls| - 1]);
    }
  }

  /** One call never lets more requests through than it adds to those in flight or answered. */
  lemma EpisodeStep(c: Config, s: Breaker, call: Call)
    requires c == Normalize(c) && Consistent(c, s)
    ensures var (t, admitted) := Apply(c, s, call.op, call.now);
            t.state == HalfOpen ==>
              (if s.state == HalfOpen then s.probes + s.successes else 0) + (if admitted then 1 else 0)
              <= t.probes + t.successes
  {
  }

  /** The requests of an episode are in flight or have been answered by a success. */
  lemma {:induction false} EpisodeIsAccounted(c: Config, b: Breaker, calls: seq<Call>)
    requires c == Normalize(c) && Consistent(c, b) && b.state != HalfOpen
    ensures var s := After(c, b, calls);
            s.state == HalfOpen ==> EpisodeAdmits(c, b, calls) <= s.probes + s.successes
  {
    if calls != [] {
      var front, call := calls[..|calls| - 1], calls[|calls| - 1];
      EpisodeIsAccounted(c, b, front);
      RunKeepsConsistent(c, b, front);
      EpisodeStep(c, After(c, b, front), call);
      hide Apply, Consistent, Normalize;
    }
  }

  /** A half-open episode lets at most `2 * probes - 1` requests through, whatever the interleaving. */
  lemma EpisodeBound(c: Config, b: Breaker, calls: seq<Call>)
    requires c == Normalize(c) && Consistent(c, b) && b.state != HalfOpen
    ensures EpisodeAdmits(c, b, calls) <= 2 * c.halfOpenProbes - 1
  {
    EpisodeIsAccounted(c, b, calls);
    RunKeepsConsistent(c, b, calls);
  }

  ghost predicate ClockForward(calls: seq<Call>, start: int) {
    && (forall i :: 0 <= i < |calls| ==> start <= calls[i].now)
    && forall i, j :: 0 <= i < j < |calls| ==> calls[i].now <= calls[j].now
  }

  /** The circuit does not close at any point of the run. */
  ghost predicate StaysTripped(c: Config, b: Breaker, calls: seq<Call>) {
    forall k :: 0 <= k <= |calls| ==> After(c, b, calls[..k]).state != Closed
  }

  function EndTime(calls: seq<Call>, start: int): int {
    if calls == [] then start else calls[|calls| - 1].now
  }

  /** What `e` episodes can let through, and how long they take. */
  function Budget(c: Config, e: int): int {
    (2 * c.halfOpenProbes - 1) * e
  }

  function Elapsed(c: Config, e: int): int {
    e * c.cooldown
  }

  lemma OneMoreEpisode(c: Config, e: int)
    ensures Budget(c, e) == Budget(c, e - 1) + 2 * c.halfOpenProbes - 1
    ensures Elapsed(c, e + 1) == Elapsed(c, e) + c.cooldown
  {
  }

  /**
   The account of a run since a trip at `start`: `n` requests let through in `e` episodes, `m` of them in the
   one in progress.  Each episode needs a full cooldown before it.
   */
  ghost predicate Account(c: Config, s: Breaker, e: nat, n: nat, m: nat, start: int, end: int) {
    match s.state
    case Closed => false
    case Open => n <= Budget(c, e) && start + Elapsed(c, e) <= s.lastTrip <= end && m == 0
    case HalfOpen =>
      e >= 1 && n <= Budget(c, e - 1) + m && m <= s.probes + s.successes && start + Elapsed(c, e) <= end
  }

  lemma AccountStep(c: Config, s: Breaker, e: nat, n: nat, m: nat, start: int, end: int, call: Call)
    requires c == Normalize(c) && Consistent(c, s) && Account(c, s, e, n, m, start, end)
    requires end <= call.now && Apply(c, s, call.op, call.now).0.state != Closed
    ensures var (t, admitted) := Apply(c, s, call.op, call.now);
            var one := if admitted then 1 else 0;
            Account(c, t, if s.state == Open && t.state == HalfOpen then e + 1 else e, n + one,
                    if t.state != HalfOpen then 0 else (if s.state == HalfOpen then m else 0) + one, start, call.now)
  {
    OneMoreEpisode(c, e);
    assert e + 1 - 1 == e;
    hide Budget, Elapsed, Normalize;
  }

  lemma {:induction false} RunAccount(c: Config, b: Breaker, calls: seq<Call>)
    requires c == Normalize(c) && Consistent(c, b) && b.state == Open
    requires ClockForward(calls, b.lastTrip) && StaysTripped(c, b, calls)
    ensures Account(c, After(c, b, calls), Episodes(c, b, calls), Admitted(c, b, calls), EpisodeAdmits(c, b, calls),
                    b.lastTrip, EndTime(calls, b.lastTrip))
  {
    hide Account, Apply, Consistent, Normalize, ClockForward, StaysTripped;
    if calls == [] {
      AccountStart(c, b);
    } else {
      var front, call := calls[..|calls| - 1], calls[|calls| - 1];
      TrippedSoFar(c, b, calls);
      RunAccount(c, b, front);
      RunKeepsConsistent(c, b, front);
      AccountStep(c, After(c, b, front), Episodes(c, b, front), Admitted(c, b, front), EpisodeAdmits(c, b, front),
                  b.lastTrip, EndTime(front, b.lastTrip), call);
    }
  }

  lemma AccountStart(c: Config, b: Breaker)
    requires b.state == Open
    ensures Account(c, b, 0, 0, 0, b.lastTrip, b.lastTrip)
  {
  }

  lemma TrippedSoFar(c: Config, b: Breaker, calls: seq<Call>)
    requires calls != [] && ClockForward(calls, b.lastTrip) && StaysTripped(c, b, calls)
    ensures var front, call := calls[..|calls| - 1], calls[|calls| - 1];
            && ClockForward(front, b.lastTrip) && StaysTripped(c, b, front)
            && EndTime(front, b.lastTrip) <= call.now
            && Apply(c, After(c, b, front), call.op, call.now).0.state != Closed
  {
    var front := calls[..|calls| - 1];
    assert calls[..|calls|] == calls;
    hide Apply;
    assert forall k :: 0 <= k <= |front| ==> front[..k] == calls[..k];
  }

  /**
   From a trip until the circuit closes, a span of length `T` lets through at most
   `(2 * probes - 1) * (T / cooldown)` requests.
   */
  lemma TripBound(c: Config, b: Breaker, calls: seq<Call>, span: nat)
    requires c == Normalize(c) && Consistent(c, b) && b.state == Open
    requires ClockForward(calls, b.lastTrip) && StaysTripped(c, b, calls)
    requires EndTime(calls, b.lastTrip) <= b.lastTrip + span
    ensures Admitted(c, b, calls) <= (2 * c.halfOpenProbes - 1) * (span / c.cooldown)
  {
    RunAccount(c, b, calls);
    EpisodeBound(c, b, calls);
    var e := Episodes(c, b, calls);
    OneMoreEpisode(c, e);
    FitsSpan(e, c.cooldown, span);
    Scale(2 * c.halfOpenProbes - 1, e, span / c.cooldown);
  }

  lemma FitsSpan(e: nat, cooldown: int, span: nat)
    requires cooldown > 0 && e * cooldown <= span
    ensures e <= span / cooldown
  {
    var q := span / cooldown;
    assert span < (q + 1) * cooldown;
    if e > q {
      Scale(cooldown, q + 1, e);
    }
  }

  lemma Scale(x: nat, m: nat, n: nat)
    requires m <= n
    ensures x * m <= x * n
  {
  }

  // ---------------------------------------------------------------------------------------------
  // The bound is reached
  // ---------------------------------------------------------------------------------------------

  /** A probing run at time `t`: `i` requests to fill the slots. */
  function Fill(t: int, i: nat): seq<Call> {
    if i == 0 then [] else Fill(t, i - 1) + [Call(Allow, t)]
  }

  /** Slots filled, then `i` times a success and a request in its place. */
  function Churn(t: int, probes: nat, i: nat): seq<Call> {
    if i == 0 then Fill(t, probes) else Churn(t, probes, i - 1) + [Call(RecordSuccess, t)] + [Call(Allow, t)]
  }

  lemma AtStart(c: Config, b: Breaker)
    ensures After(c, b, []) == b && EpisodeAdmits(c, b, []) == 0
  {
  }

  lemma AfterOneMore(c: Config, b: Breaker, calls: seq<Call>, call: Call)
    ensures After(c, b, calls + [call]) == Apply(c, After(c, b, calls), call.op, call.now).0
    ensures LastAdmits(c, b, calls + [call]) == Apply(c, After(c, b, calls), call.op, call.now).1
    ensures EpisodeAdmits(c, b, calls + [call])
         == if After(c, b, calls + [call]).state != HalfOpen then 0
            else (if After(c, b, calls).state == HalfOpen then EpisodeAdmits(c, b, calls) else 0)
                 + if LastAdmits(c, b, calls + [call]) then 1 else 0
  {
    assert (calls + [call])[..|calls|] == calls;
  }

  lemma {:induction false} FillAdmits(c: Config, b: Breaker, t: int, i: nat)
    requires c == Normalize(c) && Consistent(c, b) && b.state == Open && t - b.lastTrip >= c.cooldown
    requires 1 <= i <= c.halfOpenProbes
    ensures After(c, b, Fill(t, i)) == b.(state := HalfOpen, probes := i)
    ensures EpisodeAdmits(c, b, Fill(t, i)) == i
  {
    hide After, EpisodeAdmits, LastAdmits;
    AfterOneMore(c, b, Fill(t, i - 1), Call(Allow, t));
    AtStart(c, b);
    if i > 1 {
      FillAdmits(c, b, t, i - 1);
    }
  }

  lemma {:induction false} ChurnAdmits(c: Config, b: Breaker, t: int, i: nat)
    requires c == Normalize(c) && Consistent(c, b) && b.state == Open && t - b.lastTrip >= c.cooldown
    requires i < c.halfOpenProbes
    ensures After(c, b, Churn(t, c.halfOpenProbes, i))
              == b.(state := HalfOpen, probes := c.halfOpenProbes, successes := i)
    ensures EpisodeAdmits(c, b, Churn(t, c.halfOpenProbes, i)) == c.halfOpenProbes + i
  {
    hide After, EpisodeAdmits, LastAdmits;
    if i == 0 {
      FillAdmits(c, b, t, c.halfOpenProbes);
    } else {
      ChurnAdmits(c, b, t, i - 1);
      var calls := Churn(t, c.halfOpenProbes, i - 1);
      AfterOneMore(c, b, calls, Call(RecordSuccess, t));
      AfterOneMore(c, b, calls + [Call(RecordSuccess, t)], Call(Allow, t));
    }
  }

  /** For every configuration some episode does let `2 * probes - 1` requests through. */
  lemma EpisodeBoundIsReached(c: Config, b: Breaker, t: int)
    requires c == Normalize(c) && Consistent(c, b) && b.state == Open && t - b.lastTrip >= c.cooldown
    ensures exists calls :: EpisodeAdmits(c, b, calls) == 2 * c.halfOpenProbes - 1
  {
    ChurnAdmits(c, b, t, c.halfOpenProbes - 1);
  }

  /** The documented limit, one request per probe in every episode, holds for exactly one number of probes. */
  lemma EpisodesWithinProbes(c: Config)
    requires c == Normalize(c)
    ensures (forall b, calls ::
              Consistent(c, b) && b.state != HalfOpen ==> EpisodeAdmits(c, b, calls) <= c.halfOpenProbes)
            <==> c.halfOpenProbes == 1
  {
    hide EpisodeAdmits;
    if c.halfOpenProbes == 1 {
      forall b, calls | Consistent(c, b) && b.state != HalfOpen
        ensures EpisodeAdmits(c, b, calls) <= c.halfOpenProbes
      {
        EpisodeBound(c, b, calls);
      }
    } else {
      var b := Breaker(Open, c.failureThreshold, 0, 0, 0);
      EpisodeBoundIsReached(c, b, c.cooldown);
      var calls :| EpisodeAdmits(c, b, calls) == 2 * c.halfOpenProbes - 1;
    }
  }

  // ---------------------------------------------------------------------------------------------
  // What closes a half-open circuit
  // ---------------------------------------------------------------------------------------------

  /** The successes recorded since the half-open episode in progress opened. */
  function EpisodeSuccesses(c: Config, b: Breaker, calls: seq<Call>): nat {
    if calls == [] || After(c, b, calls).state != HalfOpen then 0
    else
      var front := calls[..|calls| - 1];
      if After(c, b, front).state != HalfOpen then 0
      else EpisodeSuccesses(c, b, front) + if calls[|calls| - 1].op == RecordSuccess then 1 else 0
  }

  lemma SuccessStep(c: Config, s: Breaker, call: Call)
    requires c == Normalize(c) && Consistent(c, s)
    ensures var t := Apply(c, s, call.op, call.now).0;
            && (t.state == HalfOpen ==>
                  t.successes == if s.state != HalfOpen then 0
                                 else s.successes + if call.op == RecordSuccess then 1 else 0)
            && (s.state == HalfOpen ==>
                  (t.state == Closed <==>
                     call.op == Reset || (call.op == RecordSuccess && s.successes + 1 == c.halfOpenProbes)))
  {
  }

  /** The breaker counts the successes of the episode, and they are fewer than the probes. */
  lemma {:induction false} SuccessesAreCounted(c: Config, b: Breaker, calls: seq<Call>)
    requires c == Normalize(c) && Consistent(c, b) && b.state != HalfOpen
    ensures var s := After(c, b, calls);
            s.state == HalfOpen ==> EpisodeSuccesses(c, b, calls) == s.successes < c.halfOpenProbes
  {
    RunKeepsConsistent(c, b, calls);
    if calls != [] {
      var front, call := calls[..|calls| - 1], calls[|calls| - 1];
      SuccessesAreCounted(c, b, front);
      RunKeepsConsistent(c, b, front);
      SuccessStep(c, After(c, b, front), call);
      hide Apply, Normalize;
    }
  }

  /** A half-open circuit closes exactly on a reset, or when the episode has as many successes as there are probes. */
  lemma ClosesOnSuccesses(c: Config, b: Breaker, calls: seq<Call>, call: Call)
    requires c == Normalize(c) && Consistent(c, b) && b.state != HalfOpen && After(c, b, calls).state == HalfOpen
    ensures After(c, b, calls + [call]).state == Closed <==>
            call.op == Reset
            || (call.op == RecordSuccess && EpisodeSuccesses(c, b, calls) + 1 == c.halfOpenProbes)
  {
    hide After, Apply, EpisodeSuccesses, EpisodeAdmits, LastAdmits, Consistent;
    SuccessesAreCounted(c, b, calls);
    RunKeepsConsistent(c, b, calls);
    AfterOneMore(c, b, calls, call);
    SuccessStep(c, After(c, b, calls), call);
  }

  // ---------------------------------------------------------------------------------------------
  // Every answer and every move, from the history of calls alone
  // ---------------------------------------------------------------------------------------------

  /** When the cooldown last started: the last failure, or the last trip by hand that found the breaker not open. */
  function LastFailure(c: Config, b: Breaker, calls: seq<Call>): int {
    if calls == [] then b.lastTrip
    else
      var front, call := calls[..|calls| - 1], calls[|calls| - 1];
      match call.op
      case RecordFailure => call.now
      case Trip => if After(c, b, front).state != Open then call.now else LastFailure(c, b, front)
      case _ => LastFailure(c, b, front)
  }

  /** The failures since the last success, or since the circuit closed. */
  function FailureStreak(c: Config, b: Breaker, calls: seq<Call>): nat {
    if calls == [] then b.failures
    else
      var front, call := calls[..|calls| - 1], calls[|calls| - 1];
      if After(c, b, front).state != Closed then 0
      else
        match call.op
        case RecordFailure => FailureStreak(c, b, front) + 1
        case RecordSuccess => 0
        case _ => FailureStreak(c, b, front)
  }

  /** The requests of the episode in progress, its opening probe included, less the successes since, not below zero. */
  function ProbesOut(c: Config, b: Breaker, calls: seq<Call>): nat {
    if calls == [] || After(c, b, calls).state != HalfOpen then 0
    else
      var front, call := calls[..|calls| - 1], calls[|calls| - 1];
      if After(c, b, front).state != HalfOpen then 1
      else
        var before := ProbesOut(c, b, front);
        if call.op == RecordSuccess then (if before > 0 then before - 1 else 0)
        else before + if LastAdmits(c, b, calls) then 1 else 0
  }

  /** The counters of a state are what the history says; nothing else of the state matters. */
  ghost predicate FromHistory(c: Config, b: Breaker, calls: seq<Call>) {
    var s := After(c, b, calls);
    match s.state
    case Closed => s.failures == FailureStreak(c, b, calls)
    case Open => s.lastTrip == LastFailure(c, b, calls)
    case HalfOpen => s.probes == ProbesOut(c, b, calls) && s.successes == EpisodeSuccesses(c, b, calls)
  }

  /** One call, from the counters before it. */
  lemma CounterStep(c: Config, s: Breaker, call: Call)
    requires c == Normalize(c) && Consistent(c, s)
    ensures var (t, admitted) := Apply(c, s, call.op, call.now);
            match t.state
            case Closed =>
              t.failures == if s.state != Closed || call.op == RecordSuccess then 0
                            else s.failures + if call.op == RecordFailure then 1 else 0
            case Open =>
              t.lastTrip
              == if call.op == RecordFailure || (call.op == Trip && s.state != Open) then call.now else s.lastTrip
            case HalfOpen =>
              t.probes == if s.state != HalfOpen then 1
                          else if call.op == RecordSuccess then (if s.probes > 0 then s.probes - 1 else 0)
                          else s.probes + if admitted then 1 else 0
  {
  }

  lemma {:induction false} CountersAreHistory(c: Config, b: Breaker, calls: seq<Call>)
    requires c == Normalize(c) && Consistent(c, b) && b.state != HalfOpen
    ensures FromHistory(c, b, calls)
  {
    if calls != [] {
      var front, call := calls[..|calls| - 1], calls[|calls| - 1];
      CountersAreHistory(c, b, front);
      SuccessesAreCounted(c, b, calls);
      RunKeepsConsistent(c, b, front);
      CounterStep(c, After(c, b, front), call);
      hide Apply, Consistent, Normalize, EpisodeSuccesses;
    }
  }

  /**
   Whether a request passes: always while closed; while open once a full cooldown has gone by since the last
   failure, late ones included; while half-open if fewer requests are out than there are probes.
   */
  lemma AllowFromHistory(c: Config, b: Breaker, calls: seq<Call>, now: int)
    requires c == Normalize(c) && Consistent(c, b) && b.state != HalfOpen
    ensures LastAdmits(c, b, calls + [Call(Allow, now)]) <==>
            match After(c, b, calls).state
            case Closed => true
            case Open => now - LastFailure(c, b, calls) >= c.cooldown
            case HalfOpen => ProbesOut(c, b, calls) < c.halfOpenProbes
  {
    CountersAreHistory(c, b, calls);
    AfterOneMore(c, b, calls, Call(Allow, now));
    hide After, LastAdmits, LastFailure, ProbesOut, EpisodeSuccesses, EpisodeAdmits, FailureStreak;
    hide Consistent, Normalize;
  }

  /** Where a call leads, from the history before it. */
  function NextState(c: Config, b: Breaker, calls: seq<Call>, call: Call): State {
    match (After(c, b, calls).state, call.op)
    case (_, Trip) => Open
    case (_, Reset) => Closed
    case (Closed, RecordFailure) => if FailureStreak(c, b, calls) + 1 >= c.failureThreshold then Open else Closed
    case (Closed, _) => Closed
    case (Open, Allow) => if call.now - LastFailure(c, b, calls) >= c.cooldown then HalfOpen else Open
    case (Open, _) => Open
    case (HalfOpen, RecordFailure) => Open
    case (HalfOpen, RecordSuccess) => if EpisodeSuccesses(c, b, calls) + 1 >= c.halfOpenProbes then Closed else HalfOpen
    case (HalfOpen, _) => HalfOpen
  }

  /** Every move of the breaker, from the history of calls. */
  lemma StateFromHistory(c: Config, b: Breaker, calls: seq<Call>, call: Call)
    requires c == Normalize(c) && Consistent(c, b) && b.state != HalfOpen
    ensures After(c, b, calls + [call]).state == NextState(c, b, calls, call)
  {
    CountersAreHistory(c, b, calls);
    RunKeepsConsistent(c, b, calls);
    AfterOneMore(c, b, calls, call);
    hide After, LastAdmits, LastFailure, ProbesOut, EpisodeSuccesses, EpisodeAdmits, FailureStreak, Normalize;
  }

  // ---------------------------------------------------------------------------------------------
  // The circuit opens exactly on a full streak of failures
  // ---------------------------------------------------------------------------------------------

  /** The failures since the last success. */
  function Streak(calls: seq<Call>): nat {
    if calls == [] then 0
    else
      match calls[|calls| - 1].op
      case RecordFailure => Streak(calls[..|calls| - 1]) + 1
      case RecordSuccess => 0
      case _ => Streak(calls[..|calls| - 1])
  }

  ghost predicate NeverLeftClosed(c: Config, calls: seq<Call>) {
    forall k :: 0 <= k <= |calls| ==> After(c, NEW, calls[..k]).state == Closed
  }

  /** One call on a closed breaker that nobody trips by hand. */
  lemma ClosedStep(c: Config, b: Breaker, call: Call)
    requires c == Normalize(c) && Consistent(c, b) && b.state == Closed && call.op != Trip
    ensures var b' := Apply(c, b, call.op, call.now).0;
            && (b'.state == Closed <==> call.op != RecordFailure || b.failures + 1 < c.failureThreshold)
            && (b'.state == Closed ==> b'.failures == match call.op
                                                      case RecordFailure => b.failures + 1
                                                      case RecordSuccess => 0
                                                      case _ => b.failures)
  {
  }

  /**
   A new breaker that nobody trips by hand leaves the closed state exactly when the failures recorded since
   the last success reach the threshold.
   */
  lemma {:induction false} OpensAtThreshold(c: Config, calls: seq<Call>)
    requires c == Normalize(c) && forall i :: 0 <= i < |calls| ==> calls[i].op != Trip
    ensures NeverLeftClosed(c, calls) <==> forall k :: 0 <= k <= |calls| ==> Streak(calls[..k]) < c.failureThreshold
    ensures NeverLeftClosed(c, calls) ==> After(c, NEW, calls).failures == Streak(calls)
  {
    NewIsConsistent(c);
    hide Apply, Consistent, Normalize;
    assert calls[..|calls|] == calls;
    if calls != [] {
      var front := calls[..|calls| - 1];
      assert front[..|front|] == front && forall k :: 0 <= k <= |front| ==> front[..k] == calls[..k];
      OpensAtThreshold(c, front);
      RunKeepsConsistent(c, NEW, front);
      if NeverLeftClosed(c, front) {
        ClosedStep(c, After(c, NEW, front), calls[|front|]);
      }
      assert forall k :: 0 <= k <= |calls| ==> k <= |front| || calls[..k] == calls;
    }
  }

  lemma NewIsConsistent(c: Config)
    requires c == Normalize(c)
    ensures Consistent(c, NEW)
  {
  }
}
