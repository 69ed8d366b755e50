/**
 What `Close` leaves behind (internal/audit/ledger.go): the file holds every claim, whatever happens next,
 exactly when no push that can still claim a slot, or has claimed one, is under way.
 */
module LedgerClose {
  import opened AuditChain
  import opened Ledger
  import opened LedgerSystem
  import Ring = RingBuffer

  // ---------------------------------------------------------------------------------------------
  // Nothing under way: the drain leaves nothing behind
  // ---------------------------------------------------------------------------------------------

  /**
   The push of `p` has claimed a slot, or may still claim one.  Once it has loaded the head, the check against
   a tail between the present one and the present head must have a chance to pass.
   */
  ghost predicate MayClaim(r: RingState, p: nat) {
    match r.At(p)
    case Idle => false
    case HeadLoaded(_, h) => exists t: nat :: r.tail <= t <= r.head && Ring.Minus(h, t) < r.Capacity()
    case _ => true
  }

  ghost predicate Quiet(r: RingState) {
    forall p :: !MayClaim(r, p)
  }

  /** A loaded head counts as long as the tail has not passed it, short of the counters going all the way round. */
  lemma OvertakenIsHopeless(r: RingState, p: nat)
    requires Ring.Inv(r) && r.At(p).HeadLoaded? && r.head - r.At(p).head <= Ring.WORD - r.Capacity()
    ensures MayClaim(r, p) <==> r.tail <= r.At(p).head
  {
    var h := r.At(p).head;
    assert Ring.ProducerOk(r, p);
    if r.tail <= h {
      assert Ring.Minus(h, h) == 0;
    }
    forall t: nat | h < t <= r.head ensures Ring.Minus(h, t) >= r.Capacity() {
      Ring.Wrapped(h, t);
    }
  }

  /** A closed ledger on which no push can claim any more. */
  ghost predicate Settled(s: System) {
    && s.closed
    && Quiet(s.ring)
    && (Finishing(s.writer) && !s.writer.Draining? ==> s.ring.tail == s.ring.head)
  }

  /** Without claims under way the consumer finds every claim in its slot. */
  lemma NothingPending(r: RingState)
    requires Ring.Inv(r) && Quiet(r)
    ensures r.consumer.Spinning? ==> Ring.Apply(r, Ring.PopLoadSlot).consumer.Holding?
  {
    assert forall i :: i in r.owner ==> MayClaim(r, r.owner[i]);
    if r.consumer.Spinning? {
      Ring.LoadSlotKeepsInv(r);
    }
  }

  /** An empty-handed `Pop` means an empty buffer. */
  lemma EmptyMeansDrained(r: RingState, a: RingAction)
    requires Ring.Inv(r) && Quiet(r) && Ring.Enabled(r, a) && !IsPush(a) && !a.PopAdvance?
    requires Ring.Apply(r, a).consumer.AtPop?
    ensures r.tail == r.head && Ring.Apply(r, a).tail == r.tail
  {
    NothingPending(r);
  }

  lemma PopKeepsProducers(r: RingState, a: RingAction)
    requires Ring.Enabled(r, a) && !IsPush(a)
    ensures Ring.Apply(r, a).producers == r.producers && Ring.Apply(r, a).claims == r.claims
    ensures Ring.Apply(r, a).head == r.head && Ring.Apply(r, a).Capacity() == r.Capacity()
    ensures Ring.Apply(r, a).tail == if a.PopAdvance? then r.consumer.tail + 1 else r.tail
  {
  }

  lemma PopKeepsQuiet(r: RingState, a: RingAction)
    requires Ring.Inv(r) && Quiet(r) && Ring.Enabled(r, a) && !IsPush(a)
    ensures Quiet(Ring.Apply(r, a))
  {
    PopKeepsProducers(r, a);
    var r' := Ring.Apply(r, a);
    assert r.tail <= r'.tail;
    hide Ring.Inv, Ring.Apply, Ring.Enabled, Ring.Minus;
    forall p ensures !MayClaim(r', p) {
      assert r'.At(p) == r.At(p) && !MayClaim(r, p);
    }
  }

  /** The only push steps left are refusals. */
  lemma PushKeepsQuiet(r: RingState, a: RingAction)
    requires Ring.Inv(r) && Quiet(r) && Ring.Enabled(r, a) && IsPush(a) && !a.Start?
    ensures a.LoadTail? && Ring.Apply(r, a) == r.Move(a.p, Ring.Idle) && Quiet(Ring.Apply(r, a))
  {
    assert !MayClaim(r, a.p);
    assert r.tail <= r.tail <= r.head;
    var r' := Ring.Apply(r, a);
    hide Ring.Inv, Ring.Minus;
    forall p ensures !MayClaim(r', p) {
      assert !MayClaim(r, p);
    }
  }

  lemma StepKeepsSettled(d: Digests, key: string, g: AuditRecord, s: System, a: Action)
    requires Inv(d, key, g, s) && Settled(s) && Enabled(s, a)
    ensures Settled(Apply(d, key, s, a)) && Apply(d, key, s, a).ring.claims == s.ring.claims
  {
    match a {
      case Push(r) => PushKeepsQuiet(s.ring, r);
      case Pop(r) =>
        PopKeepsProducers(s.ring, r);
        PopKeepsQuiet(s.ring, r);
        PoppedChanges(s.ring, r);
        if !r.PopAdvance? && Ring.Apply(s.ring, r).consumer.AtPop? {
          EmptyMeansDrained(s.ring, r);
        }
        hide Ring.Apply, Ring.Inv, Ring.Enabled, FileOk, Quiet;
      case _ =>
    }
  }

  lemma {:induction false} RunKeepsSettled(d: Digests, key: string, g: AuditRecord, s: System, actions: seq<Action>)
    requires Inv(d, key, g, s) && Settled(s) && IsRun(d, key, s, actions)
    ensures Settled(After(d, key, s, actions)) && After(d, key, s, actions).ring.claims == s.ring.claims
    decreases actions
  {
    hide Inv, Apply, Settled;
    if actions != [] {
      StepKeepsInv(d, key, g, s, actions[0]);
      StepKeepsSettled(d, key, g, s, actions[0]);
      RunKeepsSettled(d, key, g, Apply(d, key, s, actions[0]), actions[1..]);
    }
  }

  /** At the end of the writer, what is in the file is what was popped. */
  lemma DoneMeansWritten(d: Digests, key: string, g: AuditRecord, s: System)
    requires Inv(d, key, g, s) && s.writer.Done?
    ensures s.written == s.ring.popped == s.ring.claims[..s.ring.tail]
  {
    assert s.written + [] == s.written;
  }

  /**
   If no push could still claim when `Close` was called, then once the writer is done the file holds the whole
   claim order, each record exactly once, and nothing is claimed any more.
   */
  lemma CloseWritesEverything(d: Digests, key: string, g: AuditRecord, s: System, after: seq<Action>)
    requires Inv(d, key, g, s) && !s.closed && Quiet(s.ring) && IsRun(d, key, Apply(d, key, s, Close), after)
    requires After(d, key, Apply(d, key, s, Close), after).writer.Done?
    ensures var t := After(d, key, Apply(d, key, s, Close), after);
            t.ring.claims == s.ring.claims && t.written == s.ring.claims && t.file == Log(d, key, g, s.ring.claims)
  {
    StepKeepsInv(d, key, g, s, Close);
    var c := Apply(d, key, s, Close);
    RunKeepsInv(d, key, g, c, after);
    RunKeepsSettled(d, key, g, c, after);
    var t := After(d, key, c, after);
    DoneMeansWritten(d, key, g, t);
    hide IsRun, After, Log;
    assert t.ring.claims[..t.ring.head] == t.ring.claims;
  }

  // ---------------------------------------------------------------------------------------------
  // Steering the system
  // ---------------------------------------------------------------------------------------------

  /** Some continuation leads from `s` to `t`. */
  ghost predicate Reaches(d: Digests, key: string, s: System, t: System) {
    exists run :: IsRun(d, key, s, run) && After(d, key, s, run) == t
  }

  lemma ReachesItself(d: Digests, key: string, s: System)
    ensures Reaches(d, key, s, s)
  {
    assert IsRun(d, key, s, []) && After(d, key, s, []) == s;
  }

  lemma StepThenReaches(d: Digests, key: string, s: System, a: Action, t: System)
    requires Enabled(s, a) && Reaches(d, key, Apply(d, key, s, a), t)
    ensures Reaches(d, key, s, t)
  {
    hide Enabled, Apply;
    var rest :| IsRun(d, key, Apply(d, key, s, a), rest) && After(d, key, Apply(d, key, s, a), rest) == t;
    var run := [a] + rest;
    assert run[0] == a && run[1..] == rest;
    assert IsRun(d, key, s, run) && After(d, key, s, run) == t;
  }

  lemma {:induction false} RunThenReaches(d: Digests, key: string, s: System, run: seq<Action>, t: System)
    requires IsRun(d, key, s, run) && Reaches(d, key, After(d, key, s, run), t)
    ensures Reaches(d, key, s, t)
    decreases run
  {
    hide Enabled, Apply, Reaches;
    if run != [] {
      RunThenReaches(d, key, Apply(d, key, s, run[0]), run[1..], t);
      StepThenReaches(d, key, s, run[0], t);
    }
  }

  lemma ReachesTrans(d: Digests, key: string, s: System, t: System, u: System)
    requires Reaches(d, key, s, t) && Reaches(d, key, t, u)
    ensures Reaches(d, key, s, u)
  {
    var run :| IsRun(d, key, s, run) && After(d, key, s, run) == t;
    hide Reaches;
    RunThenReaches(d, key, s, run, u);
  }

  // ---------------------------------------------------------------------------------------------
  // The writer by itself always gets to the end
  // ---------------------------------------------------------------------------------------------

  /** What the writer does next on a closed ledger. */
  function WriterStep(s: System): Action
    requires !s.writer.Done?
  {
    match s.writer
    case Selecting => Stop
    case Flushing(_) => if s.batch == [] then FlushEnd else WriteOne
    case _ =>
      match s.ring.consumer
      case AtPop => Pop(Ring.PopLoadTail)
      case TailLoaded(_) => Pop(Ring.PopLoadHead)
      case Spinning(_, _) => Pop(Ring.PopLoadSlot)
      case Holding(_, _) => Pop(Ring.PopClear)
      case Cleared(_, _) => Pop(Ring.PopAdvance)
  }

  /** How far the writer's position is from the end, between two pops. */
  function Rank(w: Writer): nat {
    match w
    case Flushing(next) => (match next case Polling => 6 case Selecting => 4 case _ => 1)
    case Polling => 5
    case Selecting => 3
    case Draining => 2
    case Done => 0
  }

  /** How far the consumer is from the end of its pop. */
  function PopRank(c: Ring.Consumer<AuditRecord>): nat {
    match c
    case AtPop => Ring.RETRIES + 4
    case TailLoaded(_) => Ring.RETRIES + 3
    case Spinning(_, tries) => if tries > Ring.RETRIES then 2 else Ring.RETRIES - tries + 2
    case Holding(_, _) => 1
    case Cleared(_, _) => 0
  }

  /** Only the consumer's side has moved: the writer never touches a push. */
  ghost predicate PushesUntouched(r: RingState, r': RingState) {
    && r'.producers == r.producers && r'.claims == r.claims && r'.head == r.head && r'.Capacity() == r.Capacity()
    && r.tail <= r'.tail
  }

  /** The writer's step is possible, gets closer to the end and pops at most one record. */
  lemma WriterAdvances(d: Digests, key: string, g: AuditRecord, s: System)
    requires Inv(d, key, g, s) && s.closed && !s.writer.Done?
    ensures Enabled(s, WriterStep(s))
    ensures var t := Apply(d, key, s, WriterStep(s));
            && t.closed && PushesUntouched(s.ring, t.ring)
            && (t.ring.tail == s.ring.tail + 1
                || (t.ring.tail == s.ring.tail
                    && (Rank(t.writer) < Rank(s.writer)
                        || (t.writer == s.writer && s.writer.Flushing? && |t.batch| < |s.batch|)
                        || (t.writer == s.writer && !s.writer.Flushing? && t.batch == s.batch
                            && PopRank(t.ring.consumer) < PopRank(s.ring.consumer)))))
  {
    hide Seal, Log, HeadAfter, FileOk;
    if s.writer.Polling? || s.writer.Draining? {
      var a := WriterStep(s).a;
      assert Ring.Enabled(s.ring, a) && !IsPush(a);
      PopKeepsProducers(s.ring, a);
    }
  }

  /** The writer alone gets to any point of the claim order it has not passed, or to its end. */
  lemma {:induction false} WriterReaches(d: Digests, key: string, g: AuditRecord, s: System, target: nat)
    returns (t: System)
    requires Inv(d, key, g, s) && s.closed && s.ring.tail <= target
    ensures Reaches(d, key, s, t) && Inv(d, key, g, t) && t.closed && PushesUntouched(s.ring, t.ring)
    ensures t.ring.tail == target || (t.ring.tail < target && t.writer.Done?)
    ensures s.writer.Done? ==> t == s
    decreases target - s.ring.tail, Rank(s.writer), if s.writer.Flushing? then |s.batch| else PopRank(s.ring.consumer)
  {
    hide Inv, Enabled, Apply, Reaches, Rank, PopRank, WriterStep;
    if s.ring.tail == target || s.writer.Done? {
      t := s;
      ReachesItself(d, key, s);
    } else {
      WriterAdvances(d, key, g, s);
      var a := WriterStep(s);
      StepKeepsInv(d, key, g, s, a);
      t := WriterReaches(d, key, g, Apply(d, key, s, a), target);
      StepThenReaches(d, key, s, a, t);
    }
  }

  // ---------------------------------------------------------------------------------------------
  // A push left alone always returns
  // ---------------------------------------------------------------------------------------------

  /** The next step of a push under way. */
  function PushStep(r: RingState, p: nat): RingAction
    requires !r.At(p).Idle?
  {
    match r.At(p)
    case Trying(_) => Ring.LoadHead(p)
    case HeadLoaded(_, _) => Ring.LoadTail(p)
    case Ready(_, _, _) => Ring.Cas(p)
    case Claimed(_, _) => Ring.Store(p)
  }

  /** Steps left, at most, when nobody interferes. */
  function StepsLeft(r: RingState, p: nat): nat {
    match r.At(p)
    case Idle => 0
    case Claimed(_, _) => 1
    case Ready(_, h, _) => if h == r.head then 2 else 5
    case HeadLoaded(_, h) => if h == r.head then 3 else 6
    case Trying(_) => 4
  }

  /** The push is bound to claim if the buffer is empty. */
  predicate WillClaim(r: RingState, p: nat) {
    r.At(p).Trying? || r.At(p).Ready? || (r.At(p).HeadLoaded? && r.At(p).head == r.head)
  }

  lemma PushAdvances(r: RingState, p: nat)
    requires Ring.Inv(r) && !r.At(p).Idle?
    ensures Ring.Enabled(r, PushStep(r, p))
    ensures var r' := Ring.Apply(r, PushStep(r, p));
            && StepsLeft(r', p) < StepsLeft(r, p)
            && r'.tail == r.tail && r.claims <= r'.claims && r'.producers == r.producers[p := r'.At(p)]
            && (r.tail == r.head && WillClaim(r, p) ==> r'.head > r'.tail || (r'.tail == r'.head && WillClaim(r', p)))
  {
    assert Ring.ProducerOk(r, p);
    if r.At(p).HeadLoaded? {
      Ring.AdmissionCheck(r.At(p).head, r.tail, r.Capacity());
    }
  }

  /** Left alone, a push returns; on an empty buffer it claims. */
  lemma {:induction false} PushReturns(d: Digests, key: string, g: AuditRecord, s: System, p: nat) returns (t: System)
    requires Inv(d, key, g, s)
    ensures Reaches(d, key, s, t) && Inv(d, key, g, t) && t == s.(ring := t.ring)
    ensures t.ring.At(p).Idle? && t.ring.tail == s.ring.tail && s.ring.claims <= t.ring.claims
    ensures forall q :: q != p ==> t.ring.At(q) == s.ring.At(q)
    ensures t.ring.producers.Keys == s.ring.producers.Keys
    ensures s.ring.tail == s.ring.head && WillClaim(s.ring, p) ==> t.ring.head > t.ring.tail
    decreases StepsLeft(s.ring, p)
  {
    if s.ring.At(p).Idle? {
      t := s;
      ReachesItself(d, key, s);
    } else {
      var a := Push(PushStep(s.ring, p));
      PushAdvances(s.ring, p);
      StepKeepsInv(d, key, g, s, a);
      var s' := Apply(d, key, s, a);
      assert Enabled(s, a) && s' == s.(ring := s'.ring);
      hide Enabled, Apply, Reaches, Ring.Apply, Ring.Enabled, StepsLeft, WillClaim, PushStep;
      t := PushReturns(d, key, g, s', p);
      StepThenReaches(d, key, s, a, t);
      ClaimsCounted(d, key, g, s');
      ClaimsCounted(d, key, g, t);
    }
  }

  lemma ClaimsCounted(d: Digests, key: string, g: AuditRecord, s: System)
    requires Inv(d, key, g, s)
    ensures |s.ring.claims| == s.ring.head && s.ring.tail <= s.ring.head
  {
  }

  /** The pushes under way. */
  function Busy(r: RingState): set<nat> {
    set p | p in r.producers && !r.producers[p].Idle?
  }

  /** Every `TryPush` has returned. */
  ghost predicate AllReturned(s: System) {
    forall p :: s.ring.At(p).Idle?
  }

  /** One after the other, all pushes return. */
  lemma {:induction false} AllReturn(d: Digests, key: string, g: AuditRecord, s: System) returns (t: System)
    requires Inv(d, key, g, s)
    ensures Reaches(d, key, s, t) && Inv(d, key, g, t) && t == s.(ring := t.ring) && AllReturned(t)
    ensures t.ring.tail == s.ring.tail && s.ring.claims <= t.ring.claims
    decreases |Busy(s.ring)|
  {
    hide Inv, Reaches;
    if Busy(s.ring) == {} {
      t := s;
      assert forall p :: p in s.ring.producers ==> p !in Busy(s.ring);
      ReachesItself(d, key, s);
    } else {
      var p :| p in Busy(s.ring);
      var s' := PushReturns(d, key, g, s, p);
      FewerBusy(s.ring, s'.ring, p);
      t := AllReturn(d, key, g, s');
      ReachesTrans(d, key, s, s', t);
    }
  }

  lemma FewerBusy(r: RingState, r': RingState, p: nat)
    requires p in Busy(r) && r'.At(p).Idle? && r'.producers.Keys == r.producers.Keys
    requires forall q :: q != p ==> r'.At(q) == r.At(q)
    ensures |Busy(r')| < |Busy(r)|
  {
    assert forall q :: q in r'.producers && q != p ==> r'.producers[q] == r'.At(q) == r.At(q) == r.producers[q];
    assert Busy(r') == Busy(r) - {p};
  }

  // ---------------------------------------------------------------------------------------------
  // Something under way: it can be lost
  // ---------------------------------------------------------------------------------------------

  /** Gets the push past its check while that can pass, or the writer to the end with claims left over. */
  lemma PassCheck(d: Digests, key: string, g: AuditRecord, s: System, p: nat) returns (t: System)
    requires Inv(d, key, g, s) && s.closed && MayClaim(s.ring, p)
    ensures Reaches(d, key, s, t) && Inv(d, key, g, t) && t.closed
    ensures !t.ring.At(p).Idle? && (t.ring.At(p).HeadLoaded? ==> t.writer.Done? && t.ring.tail < t.ring.head)
  {
    hide Inv, Enabled, Apply, Reaches;
    if s.ring.At(p).HeadLoaded? {
      var h := s.ring.At(p).head;
      var target: nat :| s.ring.tail <= target <= s.ring.head && Ring.Minus(h, target) < s.ring.Capacity();
      var u := WriterReaches(d, key, g, s, target);
      if u.ring.tail == target {
        var a := Push(Ring.LoadTail(p));
        CheckPasses(d, key, u, p);
        StepKeepsInv(d, key, g, u, a);
        t := Apply(d, key, u, a);
        ReachesItself(d, key, t);
        StepThenReaches(d, key, u, a, t);
        ReachesTrans(d, key, s, u, t);
      } else {
        t := u;
      }
    } else {
      t := s;
      ReachesItself(d, key, s);
    }
  }

  lemma CheckPasses(d: Digests, key: string, s: System, p: nat)
    requires s.ring.At(p).HeadLoaded? && Ring.Minus(s.ring.At(p).head, s.ring.tail) < s.ring.Capacity()
    ensures Enabled(s, Push(Ring.LoadTail(p)))
    ensures Apply(d, key, s, Push(Ring.LoadTail(p))).ring.At(p).Ready?
    ensures Apply(d, key, s, Push(Ring.LoadTail(p))).closed == s.closed
  {
  }

  /**
   Whatever else is going on: if a push that may still claim, or has claimed, is under way when `Close` is
   called, there is a continuation in which the writer finishes, every push returns, and a record that was
   accepted is not in the file.
   */
  lemma LatePushIsLost(d: Digests, key: string, g: AuditRecord, s: System, p: nat) returns (t: System)
    requires Inv(d, key, g, s) && !s.closed && MayClaim(s.ring, p)
    ensures Reaches(d, key, Apply(d, key, s, Close), t) && t.writer.Done? && AllReturned(t)
    ensures t.written < t.ring.claims && t.file == Log(d, key, g, t.written)
  {
    var c := Apply(d, key, s, Close);
    StepKeepsInv(d, key, g, s, Close);
    hide Enabled, Apply, Reaches, MayClaim;
    assert MayClaim(c.ring, p);
    var u := PassCheck(d, key, g, c, p);
    var v := WriterReaches(d, key, g, u, u.ring.head + 1);
    ReachesTrans(d, key, c, u, v);
    ClaimsCounted(d, key, g, v);
    UnwrittenClaim(d, key, g, v, p);
    var w := PushReturns(d, key, g, v, p);
    ReachesTrans(d, key, c, v, w);
    ClaimsCounted(d, key, g, w);
    t := AllReturn(d, key, g, w);
    ReachesTrans(d, key, c, w, t);
    DoneMeansWritten(d, key, g, t);
    ClaimsCounted(d, key, g, t);
  }

  /** A push past its check either has claimed already or is bound to. */
  lemma UnwrittenClaim(d: Digests, key: string, g: AuditRecord, s: System, p: nat)
    requires Inv(d, key, g, s) && !s.ring.At(p).Idle? && (s.ring.At(p).HeadLoaded? ==> s.ring.tail < s.ring.head)
    ensures s.ring.tail < s.ring.head || (s.ring.tail == s.ring.head && WillClaim(s.ring, p))
  {
    assert Ring.ProducerOk(s.ring, p);
  }

  /**
   `Close` is safe exactly when no push that can still claim, or has claimed, is under way: for every state an
   open ledger can get into, the file holds the whole claim order at the end of every continuation if and only
   if the ledger is quiet in that sense.
   */
  lemma CloseIsSafeWhenQuiet(d: Digests, key: string, g: AuditRecord, capacity: nat, before: seq<Action>)
    requires 0 < capacity < Ring.WORD && IsRun(d, key, New(capacity, g), before)
    requires !After(d, key, New(capacity, g), before).closed
    ensures var s := After(d, key, New(capacity, g), before);
            Quiet(s.ring) <==>
            forall t :: Reaches(d, key, Apply(d, key, s, Close), t) && t.writer.Done? ==>
              t.file == Log(d, key, g, t.ring.claims)
  {
    var s := After(d, key, New(capacity, g), before);
    InitInv(d, key, g, capacity);
    RunKeepsInv(d, key, g, New(capacity, g), before);
    hide Apply, After, IsRun, Inv, Chain, MayClaim;
    if Quiet(s.ring) {
      forall t | Reaches(d, key, Apply(d, key, s, Close), t) && t.writer.Done?
        ensures t.file == Log(d, key, g, t.ring.claims)
      {
        var c := Apply(d, key, s, Close);
        var after :| IsRun(d, key, c, after) && After(d, key, c, after) == t;
        CloseWritesEverything(d, key, g, s, after);
      }
    } else {
      var p :| MayClaim(s.ring, p);
      var t := LatePushIsLost(d, key, g, s, p);
      assert |t.file| == 1 + |t.written| < |Log(d, key, g, t.ring.claims)|;
    }
  }
}
