/**
 The circuit breaker under traffic whose requests have names (internal/resilience/circuit_breaker.go and its use in
 internal/dispatcher/dispatcher.go).  A completion belongs to a request that was let through; the breaker cannot
 tell which, this model can: whether the successes that close the circuit are those of the episode's own requests.
 */
module CircuitRequests {
  import opened CircuitBreaker

  type Id = nat

  /** A request asks to be let through, or one that was let through ends. */
  datatype Event =
    | Ask(id: Id, now: int)
    | Succeed(id: Id, now: int)
    | Fail(id: Id, now: int)
    | TripByHand(now: int)
    | ResetByHand(now: int)

  function OpOf(e: Event): Op {
    match e
    case Ask(_, _) => Allow
    case Succeed(_, _) => RecordSuccess
    case Fail(_, _) => RecordFailure
    case TripByHand(_) => Op.Trip
    case ResetByHand(_) => Op.Reset
  }

  /**
   The breaker and the requests in flight.  `own` are those in flight that the half-open episode in progress has
   let through, its opening probe included; the tallies count the successes in the episode, of its own requests
   and of earlier ones, and stay readable right after it has closed the circuit.
   */
  datatype Traffic = Traffic(breaker: Breaker, inFlight: set<Id>, own: set<Id>, ownWins: nat, lateWins: nat) {
    /** Requests in flight that were let through before the episode. */
    function Late(): set<Id> {
      inFlight - own
    }
  }

  const START := Traffic(NEW, {}, {}, 0, 0)

  /** Names are not used twice at a time, and only requests in flight end. */
  predicate Enabled(s: Traffic, e: Event) {
    match e
    case Ask(id, _) => id !in s.inFlight
    case Succeed(id, _) => id in s.inFlight
    case Fail(id, _) => id in s.inFlight
    case _ => true
  }

  function Next(c: Config, s: Traffic, e: Event): Traffic {
    var (b, admitted) := Apply(c, s.breaker, OpOf(e), e.now);
    var inFlight := match e
      case Ask(id, _) => if admitted then s.inFlight + {id} else s.inFlight
      case Succeed(id, _) => s.inFlight - {id}
      case Fail(id, _) => s.inFlight - {id}
      case _ => s.inFlight;
    if s.breaker.state != HalfOpen then
      Traffic(b, inFlight, if b.state == HalfOpen && e.Ask? then {e.id} else {}, 0, 0)
    else
      match e
      case Ask(id, _) => Traffic(b, inFlight, if admitted then s.own + {id} else s.own, s.ownWins, s.lateWins)
      case Succeed(id, _) =>
        if id in s.own then Traffic(b, inFlight, s.own - {id}, s.ownWins + 1, s.lateWins)
        else Traffic(b, inFlight, s.own, s.ownWins, s.lateWins + 1)
      case _ => Traffic(b, inFlight, s.own, s.ownWins, s.lateWins)
  }

  /** What the breaker counts in an episode are the successes in it, and no more probes than there are in flight. */
  ghost predicate Tallied(s: Traffic) {
    s.own <= s.inFlight && s.breaker.successes == s.ownWins + s.lateWins && s.breaker.probes <= |s.own|
  }

  ghost predicate Inv(c: Config, s: Traffic) {
    && c == Normalize(c) && Consistent(c, s.breaker)
    && (s.breaker.state == HalfOpen ==> Tallied(s))
  }

  lemma StepKeepsInv(c: Config, s: Traffic, e: Event)
    requires Inv(c, s) && Enabled(s, e)
    ensures Inv(c, Next(c, s, e))
  {
    ApplyKeepsConsistent(c, s.breaker, OpOf(e), e.now);
    if s.breaker.state != HalfOpen {
      EpisodeOpens(c, s, e);
    } else {
      TallyIsKept(c, s, e);
    }
    hide Apply, Consistent, Normalize;
  }

  /** An episode opens with one request let through and nothing counted. */
  lemma EpisodeOpens(c: Config, s: Traffic, e: Event)
    requires s.breaker.state != HalfOpen && Enabled(s, e)
    ensures var t := Next(c, s, e);
            t.breaker.state == HalfOpen ==> Tallied(t) && |t.own| == 1 && t.ownWins == t.lateWins == 0
  {
  }

  lemma WithoutOne(ids: set<Id>, id: Id)
    ensures |ids - {id}| == |ids| - if id in ids then 1 else 0
  {
    if id !in ids {
      assert ids - {id} == ids;
    }
  }

  lemma TallyIsKept(c: Config, s: Traffic, e: Event)
    requires c == Normalize(c) && Consistent(c, s.breaker) && s.breaker.state == HalfOpen
    requires Enabled(s, e) && Tallied(s)
    ensures Next(c, s, e).breaker.state == HalfOpen ==> Tallied(Next(c, s, e))
  {
    match e
    case Succeed(id, now) => SuccessKeepsTally(c, s, id, now);
    case Ask(id, now) => AskKeepsTally(c, s, id, now);
    case _ =>
  }

  lemma SuccessKeepsTally(c: Config, s: Traffic, id: Id, now: int)
    requires c == Normalize(c) && Consistent(c, s.breaker) && s.breaker.state == HalfOpen
    requires id in s.inFlight && Tallied(s)
    ensures var t := Next(c, s, Succeed(id, now));
            t.breaker.state == HalfOpen ==> Tallied(t)
  {
    WithoutOne(s.own, id);
    assert id !in s.own ==> s.own - {id} == s.own;
  }

  lemma AskKeepsTally(c: Config, s: Traffic, id: Id, now: int)
    requires c == Normalize(c) && Consistent(c, s.breaker) && s.breaker.state == HalfOpen
    requires id !in s.inFlight && Tallied(s)
    ensures Tallied(Next(c, s, Ask(id, now)))
  {
    assert id !in s.own;
    assert |s.own + {id}| == |s.own| + 1;
  }

  /** What traffic can lead to, from a new breaker on. */
  ghost predicate Reachable(c: Config, s: Traffic) {
    exists events :: IsRun(c, events) && After(c, events) == s
  }

  function After(c: Config, events: seq<Event>): Traffic {
    if events == [] then START else Next(c, After(c, events[..|events| - 1]), events[|events| - 1])
  }

  predicate IsRun(c: Config, events: seq<Event>) {
    events == []
    || (IsRun(c, events[..|events| - 1]) && Enabled(After(c, events[..|events| - 1]), events[|events| - 1]))
  }

  lemma ReachesStart(c: Config)
    ensures Reachable(c, START)
  {
    assert IsRun(c, []) && After(c, []) == START;
  }

  lemma ReachesNext(c: Config, s: Traffic, e: Event)
    requires Reachable(c, s) && Enabled(s, e)
    ensures Reachable(c, Next(c, s, e))
  {
    hide Enabled, Next;
    var events :| IsRun(c, events) && After(c, events) == s;
    var longer := events + [e];
    assert longer[..|longer| - 1] == events;
    assert IsRun(c, longer) && After(c, longer) == Next(c, s, e);
  }

  lemma {:induction false} RunKeepsInv(c: Config, events: seq<Event>)
    requires c == Normalize(c) && IsRun(c, events)
    ensures Inv(c, After(c, events))
  {
    hide Enabled, Next;
    if events != [] {
      RunKeepsInv(c, events[..|events| - 1]);
      StepKeepsInv(c, After(c, events[..|events| - 1]), events[|events| - 1]);
    }
  }

  lemma ReachableKeepsInv(c: Config, s: Traffic)
    requires c == Normalize(c) && Reachable(c, s)
    ensures Inv(c, s)
  {
    var events :| IsRun(c, events) && After(c, events) == s;
    RunKeepsInv(c, events);
  }

  // ---------------------------------------------------------------------------------------------
  // What a closing rests on
  // ---------------------------------------------------------------------------------------------

  /** From a half-open state on: a continuation of the episode whose last event, a success, closes the circuit. */
  ghost predicate Closes(c: Config, s: Traffic, events: seq<Event>)
    decreases events
  {
    && events != [] && s.breaker.state == HalfOpen && Enabled(s, events[0])
    && var t := Next(c, s, events[0]);
       if |events| == 1 then events[0].Succeed? && t.breaker.state == Closed else Closes(c, t, events[1..])
  }

  ghost function AtClose(c: Config, s: Traffic, events: seq<Event>): Traffic
    requires Closes(c, s, events)
    decreases events
  {
    var t := Next(c, s, events[0]);
    if |events| == 1 then t else AtClose(c, t, events[1..])
  }

  lemma ClosesLater(c: Config, s: Traffic, e: Event, rest: seq<Event>) returns (events: seq<Event>)
    requires s.breaker.state == HalfOpen && Enabled(s, e) && Closes(c, Next(c, s, e), rest)
    ensures Closes(c, s, events) && AtClose(c, s, events) == AtClose(c, Next(c, s, e), rest)
  {
    hide Next, Enabled;
    events := [e] + rest;
    assert events[0] == e && events[1..] == rest;
  }

  /** A success in an episode: it closes the circuit exactly when it is the one that was missing. */
  lemma SuccessInEpisode(c: Config, s: Traffic, id: Id, now: int)
    requires Inv(c, s) && s.breaker.state == HalfOpen && id in s.inFlight
    ensures var t := Next(c, s, Succeed(id, now));
            && (t.breaker.state == Closed <==> s.ownWins + s.lateWins + 1 == c.halfOpenProbes)
            && (t.breaker.state == Closed || t.breaker.state == HalfOpen)
            && t.ownWins == s.ownWins + (if id in s.own then 1 else 0)
            && t.lateWins == s.lateWins + (if id in s.own then 0 else 1)
            && t.inFlight == s.inFlight - {id} && t.own == s.own - {id}
  {
  }

  /** Every closing rests on as many successes in the episode as there are probes, of own and of earlier requests. */
  lemma {:induction false} ClosingIsCounted(c: Config, s: Traffic, events: seq<Event>)
    requires Inv(c, s) && Closes(c, s, events)
    ensures var t := AtClose(c, s, events);
            t.ownWins + t.lateWins == c.halfOpenProbes && s.ownWins <= t.ownWins && s.lateWins <= t.lateWins
    decreases events
  {
    var e := events[0];
    StepKeepsInv(c, s, e);
    if |events| == 1 {
      SuccessInEpisode(c, s, e.id, e.now);
    } else {
      TalliesGrow(c, s, e);
      hide Next, Inv, Enabled;
      ClosingIsCounted(c, Next(c, s, e), events[1..]);
    }
  }

  lemma TalliesGrow(c: Config, s: Traffic, e: Event)
    requires s.breaker.state == HalfOpen
    ensures s.ownWins <= Next(c, s, e).ownWins && s.lateWins <= Next(c, s, e).lateWins
  {
  }

  /** A closing rests on the episode's own successes alone exactly when no success of an earlier request fell in it. */
  lemma EarnedMeansNoneLate(c: Config, s: Traffic, events: seq<Event>)
    requires Inv(c, s) && Closes(c, s, events)
    ensures AtClose(c, s, events).ownWins == c.halfOpenProbes <==> AtClose(c, s, events).lateWins == 0
  {
    ClosingIsCounted(c, s, events);
  }

  // ---------------------------------------------------------------------------------------------
  // When every closing is earned
  // ---------------------------------------------------------------------------------------------

  /** From every half-open state there is a way to close the circuit. */
  lemma {:induction false} CloseFrom(c: Config, s: Traffic) returns (events: seq<Event>)
    requires Inv(c, s) && s.breaker.state == HalfOpen
    ensures Closes(c, s, events)
    decreases c.halfOpenProbes - s.breaker.successes, if s.inFlight == {} then 1 else 0
  {
    if s.inFlight == {} {
      var e := Ask(0, 0);
      assert s.own == {};
      StepKeepsInv(c, s, e);
      var t := Next(c, s, e);
      assert 0 in t.inFlight && t.breaker.state == HalfOpen && t.breaker.successes == s.breaker.successes;
      hide Inv, Next, Enabled;
      var rest := CloseFrom(c, t);
      events := ClosesLater(c, s, e, rest);
    } else {
      var id :| id in s.inFlight;
      events := CloseAfter(c, s, id);
    }
  }

  /** With a given success first. */
  lemma {:induction false} CloseAfter(c: Config, s: Traffic, id: Id) returns (events: seq<Event>)
    requires Inv(c, s) && s.breaker.state == HalfOpen && id in s.inFlight
    ensures Closes(c, s, events) && (id !in s.own ==> AtClose(c, s, events).lateWins > s.lateWins)
    decreases c.halfOpenProbes - s.breaker.successes, 0, 0
  {
    var e := Succeed(id, 0);
    SuccessInEpisode(c, s, id, 0);
    StepKeepsInv(c, s, e);
    var t := Next(c, s, e);
    assert Enabled(s, e);
    if t.breaker.state == Closed {
      hide Next, Inv;
      events := [e];
    } else {
      assert t.breaker.successes == s.breaker.successes + 1 <= c.halfOpenProbes;
      hide Inv, Next, Enabled;
      var rest := CloseFrom(c, t);
      ClosingIsCounted(c, t, rest);
      events := ClosesLater(c, s, e, rest);
    }
  }

  /** Without earlier requests in flight, none gets in flight, and none wins. */
  lemma {:induction false} NoneLate(c: Config, s: Traffic, events: seq<Event>)
    requires Inv(c, s) && s.Late() == {} && Closes(c, s, events)
    ensures AtClose(c, s, events).lateWins == s.lateWins
    decreases events
  {
    var e := events[0];
    StepKeepsInv(c, s, e);
    var t := Next(c, s, e);
    if e.Succeed? {
      assert e.id !in s.Late();
      SuccessInEpisode(c, s, e.id, e.now);
    }
    if |events| > 1 {
      assert t.Late() == {} && t.lateWins == s.lateWins;
      hide Inv, Next, Enabled;
      NoneLate(c, t, events[1..]);
    }
  }

  /**
   From any half-open state: every way of closing the circuit rests on HalfOpenProbes successes of the episode's own
   requests if and only if no earlier request has won in it so far and none is in flight.
   */
  lemma ClosingsAreEarned(c: Config, s: Traffic)
    requires Inv(c, s) && s.breaker.state == HalfOpen
    ensures (forall events :: Closes(c, s, events) ==> AtClose(c, s, events).ownWins == c.halfOpenProbes)
            <==> s.lateWins == 0 && s.Late() == {}
  {
    hide Closes, AtClose, Inv;
    if s.lateWins == 0 && s.Late() == {} {
      forall events | Closes(c, s, events) ensures AtClose(c, s, events).ownWins == c.halfOpenProbes {
        NoneLate(c, s, events);
        EarnedMeansNoneLate(c, s, events);
      }
    } else if s.lateWins > 0 {
      var events := CloseFrom(c, s);
      ClosingIsCounted(c, s, events);
    } else {
      var id :| id in s.Late();
      var events := CloseAfter(c, s, id);
      ClosingIsCounted(c, s, events);
    }
  }

  // ---------------------------------------------------------------------------------------------
  // When the probes need not answer at all
  // ---------------------------------------------------------------------------------------------

  lemma LateStep(c: Config, s: Traffic, e: Event)
    requires Inv(c, s) && s.breaker.state == HalfOpen && Enabled(s, e)
    requires Next(c, s, e).breaker.state == HalfOpen || (e.Succeed? && Next(c, s, e).breaker.state == Closed)
    requires Next(c, s, e).ownWins == 0
    ensures s.ownWins == 0
    ensures |s.Late()| >= |Next(c, s, e).Late()| + Next(c, s, e).lateWins - s.lateWins
  {
    match e
    case Ask(id, _) => AskIsNotLate(c, s, id, e.now);
    case Succeed(id, _) =>
      SuccessInEpisode(c, s, id, e.now);
      hide Next, Inv;
      assert Next(c, s, e).Late() == s.Late() - {id};
      WithoutOne(s.Late(), id);
    case _ =>
  }

  lemma AskIsNotLate(c: Config, s: Traffic, id: Id, now: int)
    requires s.breaker.state == HalfOpen && id !in s.inFlight
    ensures var t := Next(c, s, Ask(id, now));
            t.Late() == s.Late() && t.ownWins == s.ownWins && t.lateWins == s.lateWins
  {
  }

  /** Without an own success, the missing ones come from earlier requests in flight. */
  lemma {:induction false} LateOnesNeeded(c: Config, s: Traffic, events: seq<Event>)
    requires Inv(c, s) && Closes(c, s, events) && AtClose(c, s, events).ownWins == 0
    ensures s.ownWins == 0 && |s.Late()| >= c.halfOpenProbes - s.lateWins
    decreases events
  {
    var e := events[0];
    StepKeepsInv(c, s, e);
    var t := Next(c, s, e);
    if |events| == 1 {
      ClosingIsCounted(c, s, events);
      LateStep(c, s, e);
    } else {
      assert t.breaker.state == HalfOpen;
      hide Inv, Next, Enabled;
      LateOnesNeeded(c, t, events[1..]);
      LateStep(c, s, e);
    }
  }

  /** With enough of them the circuit closes while every probe in flight stays unanswered. */
  lemma {:induction false} LateOnesSuffice(c: Config, s: Traffic) returns (events: seq<Event>)
    requires Inv(c, s) && s.breaker.state == HalfOpen
    requires s.ownWins == 0 && |s.Late()| >= c.halfOpenProbes - s.lateWins
    ensures Closes(c, s, events)
    ensures AtClose(c, s, events).ownWins == 0 && AtClose(c, s, events).own == s.own
    decreases c.halfOpenProbes - s.lateWins
  {
    assert s.breaker.successes < c.halfOpenProbes;
    assert s.Late() != {};
    var id :| id in s.Late();
    var e := Succeed(id, 0);
    SuccessInEpisode(c, s, id, 0);
    StepKeepsInv(c, s, e);
    var t := Next(c, s, e);
    assert Enabled(s, e) && t.own == s.own && t.Late() == s.Late() - {id};
    if t.breaker.state == Closed {
      hide Next, Inv;
      events := [e];
    } else {
      hide Inv, Next, Enabled;
      var rest := LateOnesSuffice(c, t);
      events := ClosesLater(c, s, e, rest);
    }
  }

  /**
   From any half-open state: the circuit can close without any success of the episode's own requests if and only
   if there has been none yet and at least as many earlier requests are in flight as successes are missing.
   */
  lemma ClosesWithoutProbes(c: Config, s: Traffic)
    requires Inv(c, s) && s.breaker.state == HalfOpen
    ensures (exists events :: Closes(c, s, events) && AtClose(c, s, events).ownWins == 0)
            <==> s.ownWins == 0 && |s.Late()| >= c.halfOpenProbes - s.lateWins
  {
    hide Closes, AtClose, Inv;
    if s.ownWins == 0 && |s.Late()| >= c.halfOpenProbes - s.lateWins {
      var events := LateOnesSuffice(c, s);
    }
    forall events | Closes(c, s, events) && AtClose(c, s, events).ownWins == 0
      ensures s.ownWins == 0 && |s.Late()| >= c.halfOpenProbes - s.lateWins
    {
      LateOnesNeeded(c, s, events);
    }
  }

  // ---------------------------------------------------------------------------------------------
  // Such a state arises for every configuration
  // ---------------------------------------------------------------------------------------------

  function FirstIds(n: nat): (ids: set<Id>)
    ensures |ids| == n && forall i: Id :: i in ids <==> i < n
  {
    if n == 0 then {} else FirstIds(n - 1) + {n - 1}
  }

  lemma {:induction false} ManyInFlight(c: Config, n: nat)
    ensures Reachable(c, Traffic(NEW, FirstIds(n), {}, 0, 0))
  {
    if n == 0 {
      ReachesStart(c);
    } else {
      ManyInFlight(c, n - 1);
      ReachesNext(c, Traffic(NEW, FirstIds(n - 1), {}, 0, 0), Ask(n - 1, 0));
    }
  }

  /** The breaker after some failures in a row, all at time 1. */
  function Failed(c: Config, failed: nat): Breaker
    requires failed <= c.failureThreshold
  {
    if failed == c.failureThreshold then Breaker(Open, failed, 0, 1, 0) else NEW.(failures := failed)
  }

  lemma OneMoreFailure(c: Config, failed: nat, inFlight: set<Id>, id: Id)
    requires c == Normalize(c) && failed < c.failureThreshold && id in inFlight
    ensures Next(c, Traffic(Failed(c, failed), inFlight, {}, 0, 0), Fail(id, 1))
         == Traffic(Failed(c, failed + 1), inFlight - {id}, {}, 0, 0)
  {
  }

  lemma FailOnce(c: Config, failed: nat, n: nat)
    requires c == Normalize(c) && failed < c.failureThreshold
    ensures Reachable(c, Traffic(Failed(c, failed), FirstIds(n + 1), {}, 0, 0)) ==>
              Reachable(c, Traffic(Failed(c, failed + 1), FirstIds(n), {}, 0, 0))
  {
    hide Reachable, Normalize, Next, Failed;
    OneMoreFailure(c, failed, FirstIds(n + 1), n);
    assert FirstIds(n + 1) - {n} == FirstIds(n);
    if Reachable(c, Traffic(Failed(c, failed), FirstIds(n + 1), {}, 0, 0)) {
      ReachesNext(c, Traffic(Failed(c, failed), FirstIds(n + 1), {}, 0, 0), Fail(n, 1));
    }
  }

  /** Some of them fail and the rest stay in flight. */
  lemma {:induction false} SomeFail(c: Config, n: nat, failed: nat)
    requires c == Normalize(c) && failed <= c.failureThreshold && failed <= n
    ensures Reachable(c, Traffic(Failed(c, failed), FirstIds(n - failed), {}, 0, 0))
    decreases failed
  {
    hide Reachable, Normalize, FirstIds;
    if failed == 0 {
      assert Failed(c, 0) == NEW;
      ManyInFlight(c, n);
    } else {
      hide Failed;
      SomeFail(c, n, failed - 1);
      FailOnce(c, failed - 1, n - failed);
    }
  }

  /**
   For every configuration traffic leads to an episode whose only probe is in flight and that earlier requests can
   close, by their successes alone, before the probe is answered.
   */
  lemma LateSuccessesClose(c: Config) returns (s: Traffic, events: seq<Event>)
    requires c == Normalize(c)
    ensures Reachable(c, s) && s.breaker.state == HalfOpen && |s.own| == 1 && s.ownWins == s.lateWins == 0
    ensures Closes(c, s, events) && AtClose(c, s, events).ownWins == 0 && AtClose(c, s, events).own == s.own
  {
    var n := c.halfOpenProbes;
    SomeFail(c, n + c.failureThreshold, c.failureThreshold);
    var tripped := Traffic(Breaker(Open, c.failureThreshold, 0, 1, 0), FirstIds(n), {}, 0, 0);
    var probe := Ask(n, 1 + c.cooldown);
    ReachesNext(c, tripped, probe);
    s := Next(c, tripped, probe);
    assert s.own == {n} && s.Late() == FirstIds(n);
    ReachableKeepsInv(c, s);
    hide Reachable, Closes, AtClose, Inv;
    events := LateOnesSuffice(c, s);
  }
}
