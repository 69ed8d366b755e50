/**
 The multi-producer single-consumer ring buffer (internal/audit/ledger.go) as a transition system: one
 action per atomic operation, any number of producers, one consumer, any capacity.

 Besides the shared memory the state carries what happened so far: the records in the order their slots were
 claimed, the records popped, and who has claimed a slot without having filled it yet.
 */
module RingBuffer {
  import opened Options

  type ProducerId = nat

  const WORD := 0x1_0000_0000_0000_0000

  /** Loads the consumer makes of one slot before giving up: one, then up to a hundred more. */
  const RETRIES := 100

  /** Inside `TryPush`. */
  datatype Producer<R> =
    | Idle
    | Trying(rec: R)
    | HeadLoaded(rec: R, head: nat)
    | Ready(rec: R, head: nat, tail: nat)
    | Claimed(rec: R, index: nat)

  /** Inside `Pop`. */
  datatype Consumer<R> =
    | AtPop
    | TailLoaded(tail: nat)
    | Spinning(tail: nat, tries: nat)
    | Holding(tail: nat, rec: R)
    | Cleared(tail: nat, rec: R)

  datatype State<R> = State(
    head: nat, tail: nat, slots: seq<Option<R>>,
    producers: map<ProducerId, Producer<R>>, consumer: Consumer<R>,
    claims: seq<R>, popped: seq<R>, owner: map<nat, ProducerId>)
  {
    function Capacity(): nat {
      |slots|
    }

    /** What a producer is doing; one that never called is idle. */
    function At(p: ProducerId): Producer<R> {
      if p in producers then producers[p] else Idle
    }

    function Move(p: ProducerId, pc: Producer<R>): State<R> {
      this.(producers := producers[p := pc])
    }

    /** The record of claim `i` is in its slot: stored by its producer and not yet cleared by the consumer. */
    predicate Landed(i: nat) {
      i < head && i !in owner && !(consumer.Cleared? && consumer.tail == i)
    }
  }

  function New<R>(capacity: nat): State<R> {
    State(0, 0, seq(capacity, _ => None), map[], AtPop, [], [], map[])
  }

  datatype Action<R> =
    | Start(p: ProducerId, rec: R)
    | LoadHead(p: ProducerId)
    | LoadTail(p: ProducerId)
    | Cas(p: ProducerId)
    | Store(p: ProducerId)
    | PopLoadTail
    | PopLoadHead
    | PopLoadSlot
    | PopClear
    | PopAdvance

  /** Unsigned 64-bit subtraction. */
  function Minus(a: nat, b: nat): nat {
    (a - b) % WORD
  }

  predicate Enabled<R>(s: State<R>, a: Action<R>) {
    match a
    case Start(p, _) => s.At(p).Idle?
    case LoadHead(p) => s.At(p).Trying?
    case LoadTail(p) => s.At(p).HeadLoaded?
    case Cas(p) => s.At(p).Ready?
    case Store(p) => s.At(p).Claimed? && s.Capacity() > 0
    case PopLoadTail => s.consumer.AtPop?
    case PopLoadHead => s.consumer.TailLoaded?
    case PopLoadSlot => s.consumer.Spinning? && s.Capacity() > 0
    case PopClear => s.consumer.Holding? && s.Capacity() > 0
    case PopAdvance => s.consumer.Cleared?
  }

  function Apply<R>(s: State<R>, a: Action<R>): State<R>
    requires Enabled(s, a)
  {
    match a
    case Start(p, rec) => s.Move(p, Trying(rec))
    case LoadHead(p) => s.Move(p, HeadLoaded(s.At(p).rec, s.head))
    case LoadTail(p) =>
      var pc := s.At(p);
      if Minus(pc.head, s.tail) >= s.Capacity() then s.Move(p, Idle) else s.Move(p, Ready(pc.rec, pc.head, s.tail))
    case Cas(p) =>
      var pc := s.At(p);
      if s.head != pc.head then s.Move(p, Trying(pc.rec))
      else
        s.Move(p, Claimed(pc.rec, pc.head)).(
          head := s.head + 1, claims := s.claims + [pc.rec], owner := s.owner[pc.head := p])
    case Store(p) =>
      var pc := s.At(p);
      s.Move(p, Idle).(slots := s.slots[pc.index % s.Capacity() := Some(pc.rec)], owner := s.owner - {pc.index})
    case PopLoadTail => s.(consumer := TailLoaded(s.tail))
    case PopLoadHead =>
      if s.consumer.tail >= s.head then s.(consumer := AtPop) else s.(consumer := Spinning(s.consumer.tail, 0))
    case PopLoadSlot =>
      (match s.slots[s.consumer.tail % s.Capacity()]
       case Some(rec) => s.(consumer := Holding(s.consumer.tail, rec))
       case None =>
         if s.consumer.tries >= RETRIES then s.(consumer := AtPop)
         else s.(consumer := Spinning(s.consumer.tail, s.consumer.tries + 1)))
    case PopClear =>
      s.(consumer := Cleared(s.consumer.tail, s.consumer.rec), slots := s.slots[s.consumer.tail % s.Capacity() := None])
    case PopAdvance =>
      s.(consumer := AtPop, tail := s.consumer.tail + 1, popped := s.popped + [s.consumer.rec])
  }

  ghost predicate IsRun<R>(s: State<R>, actions: seq<Action<R>>)
    decreases actions
  {
    actions == [] || (Enabled(s, actions[0]) && IsRun(Apply(s, actions[0]), actions[1..]))
  }

  ghost function After<R>(s: State<R>, actions: seq<Action<R>>): State<R>
    requires IsRun(s, actions)
    decreases actions
  {
    if actions == [] then s else After(Apply(s, actions[0]), actions[1..])
  }

  // ---------------------------------------------------------------------------------------------
  // The invariant
  // ---------------------------------------------------------------------------------------------

  /** The counters bound the claims in flight, and what was popped is a prefix of what was claimed. */
  ghost predicate Counters<R>(s: State<R>) {
    && 0 < s.Capacity() < WORD
    && s.tail <= s.head <= s.tail + s.Capacity()
    && |s.claims| == s.head
    && |s.popped| == s.tail
    && s.popped == s.claims[..s.tail]
  }

  /** What the local copies of a producer are worth. */
  ghost predicate ProducerOk<R>(s: State<R>, p: ProducerId)
    requires |s.claims| == s.head
  {
    match s.At(p)
    case Idle => true
    case Trying(_) => true
    case HeadLoaded(_, h) => h <= s.head
    case Ready(_, h, t) => h <= s.head && t <= s.tail && (h >= t ==> h - t < s.Capacity())
    case Claimed(rec, i) => s.tail <= i < s.head && s.claims[i] == rec && i in s.owner && s.owner[i] == p
  }

  ghost predicate Producers<R>(s: State<R>)
    requires |s.claims| == s.head
  {
    && (forall p :: ProducerOk(s, p))
    && (forall i :: i in s.owner ==> s.At(s.owner[i]).Claimed? && s.At(s.owner[i]).index == i)
  }

  ghost predicate ConsumerOk<R>(s: State<R>)
    requires |s.claims| == s.head
  {
    match s.consumer
    case AtPop => true
    case TailLoaded(t) => t == s.tail
    case Spinning(t, _) => t == s.tail < s.head
    case Holding(t, rec) => t == s.tail < s.head && rec == s.claims[t] && t !in s.owner
    case Cleared(t, rec) => t == s.tail < s.head && rec == s.claims[t] && t !in s.owner
  }

  /** The slot of index `i` of the current window holds its record if it has landed, and nothing otherwise. */
  ghost predicate SlotOk<R>(s: State<R>, i: nat)
    requires |s.claims| == s.head && s.Capacity() > 0
  {
    s.slots[i % s.Capacity()] == if s.Landed(i) then Some(s.claims[i]) else None
  }

  ghost predicate Slots<R>(s: State<R>)
    requires |s.claims| == s.head && s.Capacity() > 0
  {
    forall i: nat :: s.tail <= i < s.tail + s.Capacity() ==> SlotOk(s, i)
  }

  ghost predicate Inv<R>(s: State<R>) {
    Counters(s) && Producers(s) && ConsumerOk(s) && Slots(s)
  }

  /** Two indices of one window never share a slot. */
  lemma DistinctSlots(i: nat, j: nat, n: nat)
    requires n > 0 && i < j < i + n
    ensures i % n != j % n
  {
    if i % n == j % n {
      var a, b := i / n, j / n;
      assert j - i == n * (b - a);
      Positive(n, b - a);
    }
  }

  lemma Positive(n: nat, d: int)
    requires n > 0
    ensures d >= 1 ==> n * d >= n
    ensures d <= 0 ==> n * d <= 0
  {
  }

  /** One window later the same slot comes round again. */
  lemma SameSlot(i: nat, n: nat)
    requires n > 0
    ensures (i + n) % n == i % n
  {
    var q, r := i / n, i % n;
    assert i + n == n * (q + 1) + r;
    var d := (i + n) / n - (q + 1);
    assert n * d == r - (i + n) % n;
    Positive(n, d);
    Positive(n, -d);
  }

  lemma InitInv<R>(capacity: nat)
    requires 0 < capacity < WORD
    ensures Inv(New<R>(capacity))
  {
  }

  // ---------------------------------------------------------------------------------------------
  // Every step keeps it
  // ---------------------------------------------------------------------------------------------

  /** While head is loaded no later than tail, the unsigned difference is the true one or refuses. */
  lemma AdmissionCheck(h: nat, t: nat, n: nat)
    requires n < WORD && h <= t + n
    ensures h >= t ==> Minus(h, t) == h - t
    ensures Minus(h, t) < n && h >= t ==> h - t < n
  {
  }

  /** A head loaded before the tail passed it is refused, unless the counters went all the way round. */
  lemma Wrapped(h: nat, t: nat)
    requires h < t <= h + WORD
    ensures Minus(h, t) == (if t == h + WORD then 0 else WORD - (t - h))
  {
  }

  /** Steps that touch only a producer's local state. */
  lemma MoveKeepsInv<R>(s: State<R>, p: ProducerId, pc: Producer<R>)
    requires Inv(s) && !s.At(p).Claimed? && !pc.Claimed? && ProducerOk(s.Move(p, pc), p)
    ensures Inv(s.Move(p, pc))
  {
    var s' := s.Move(p, pc);
    forall q ensures ProducerOk(s', q) {
      assert ProducerOk(s, q);
    }
    forall i: nat | s'.tail <= i < s'.tail + s'.Capacity() ensures SlotOk(s', i) {
      assert SlotOk(s, i);
    }
  }

  /** A successful claim: the slot claimed is empty, and room for it was really there. */
  lemma ClaimKeepsInv<R>(s: State<R>, p: ProducerId)
    requires Inv(s) && s.At(p).Ready? && s.head == s.At(p).head
    ensures s.head < s.tail + s.Capacity()
    ensures s.slots[s.head % s.Capacity()] == None
    ensures Inv(Apply(s, Cas(p)))
  {
    assert ProducerOk(s, p);
    var h, n := s.head, s.Capacity();
    assert h < s.tail + n by {
      assert s.At(p).tail <= s.tail && h >= s.At(p).tail && h - s.At(p).tail < n;
    }
    OwnedIsClaimed(s);
    assert SlotOk(s, h);
    var s' := Apply(s, Cas(p));
    assert s'.claims[..s'.tail] == s.claims[..s.tail];
    assert Producers(s') by {
      hide SlotOk, ConsumerOk;
      forall q ensures ProducerOk(s', q) {
        assert ProducerOk(s, q);
      }
    }
    hide ProducerOk;
    forall i: nat | s'.tail <= i < s'.tail + n ensures SlotOk(s', i) {
      assert SlotOk(s, i);
    }
  }

  lemma OwnedIsClaimed<R>(s: State<R>)
    requires |s.claims| == s.head && Producers(s)
    ensures forall i :: i in s.owner ==> i < s.head
  {
    forall i | i in s.owner ensures i < s.head {
      assert ProducerOk(s, s.owner[i]);
    }
  }

  /** Filling a claimed slot changes that slot only. */
  lemma StoreKeepsInv<R>(s: State<R>, p: ProducerId)
    requires Inv(s) && s.At(p).Claimed?
    ensures s.slots[s.At(p).index % s.Capacity()] == None
    ensures Inv(Apply(s, Store(p)))
  {
    assert ProducerOk(s, p);
    var h, n := s.At(p).index, s.Capacity();
    var s' := Apply(s, Store(p));
    assert SlotOk(s, h);
    forall q ensures ProducerOk(s', q) {
      assert ProducerOk(s, q);
    }
    forall i: nat | s'.tail <= i < s'.tail + n ensures SlotOk(s', i) {
      assert SlotOk(s, i);
      if i < h { DistinctSlots(i, h, n); } else if h < i { DistinctSlots(h, i, n); }
    }
  }

  lemma LoadSlotKeepsInv<R>(s: State<R>)
    requires Inv(s) && s.consumer.Spinning?
    ensures var t := s.consumer.tail;
            s.slots[t % s.Capacity()] == if t in s.owner then None else Some(s.claims[t])
    ensures Inv(Apply(s, PopLoadSlot))
  {
    assert SlotOk(s, s.tail);
    ConsumerMoveKeepsInv(s, Apply(s, PopLoadSlot).consumer);
  }

  /** Steps that touch only the consumer's local state, and keep it from clearing. */
  lemma ConsumerMoveKeepsInv<R>(s: State<R>, pc: Consumer<R>)
    requires Inv(s) && !s.consumer.Cleared? && !pc.Cleared? && ConsumerOk(s.(consumer := pc))
    ensures Inv(s.(consumer := pc))
  {
    var s' := s.(consumer := pc);
    forall q ensures ProducerOk(s', q) {
      assert ProducerOk(s, q);
    }
    forall i: nat | s'.tail <= i < s'.tail + s'.Capacity() ensures SlotOk(s', i) {
      assert SlotOk(s, i);
    }
  }

  lemma ClearKeepsInv<R>(s: State<R>)
    requires Inv(s) && s.consumer.Holding?
    ensures Inv(Apply(s, PopClear))
  {
    var s' := Apply(s, PopClear);
    var n := s.Capacity();
    forall q ensures ProducerOk(s', q) {
      assert ProducerOk(s, q);
    }
    forall i: nat | s'.tail <= i < s'.tail + n ensures SlotOk(s', i) {
      assert SlotOk(s, i);
      if s.tail < i { DistinctSlots(s.tail, i, n); }
    }
  }

  /** Advancing the tail hands the cleared slot to the next window. */
  lemma AdvanceKeepsInv<R>(s: State<R>)
    requires Inv(s) && s.consumer.Cleared?
    ensures Inv(Apply(s, PopAdvance))
  {
    var s' := Apply(s, PopAdvance);
    var n := s.Capacity();
    assert s.claims[..s'.tail] == s.claims[..s.tail] + [s.claims[s.tail]];
    forall q ensures ProducerOk(s', q) {
      assert ProducerOk(s, q);
    }
    assert SlotOk(s, s.tail);
    SameSlot(s.tail, n);
    forall i: nat | s'.tail <= i < s'.tail + n ensures SlotOk(s', i) {
      if i < s.tail + n {
        assert SlotOk(s, i);
      }
    }
  }

  lemma StepKeepsInv<R>(s: State<R>, a: Action<R>)
    requires Inv(s) && Enabled(s, a)
    ensures Inv(Apply(s, a))
  {
    match a {
      case Start(p, rec) => MoveKeepsInv(s, p, Trying(rec));
      case LoadHead(p) => MoveKeepsInv(s, p, HeadLoaded(s.At(p).rec, s.head));
      case LoadTail(p) =>
        assert ProducerOk(s, p);
        AdmissionCheck(s.At(p).head, s.tail, s.Capacity());
        MoveKeepsInv(s, p, Apply(s, a).At(p));
      case Cas(p) =>
        if s.head == s.At(p).head {
          ClaimKeepsInv(s, p);
        } else {
          MoveKeepsInv(s, p, Trying(s.At(p).rec));
        }
      case Store(p) => StoreKeepsInv(s, p);
      case PopLoadTail => ConsumerMoveKeepsInv(s, Apply(s, a).consumer);
      case PopLoadHead => ConsumerMoveKeepsInv(s, Apply(s, a).consumer);
      case PopLoadSlot => LoadSlotKeepsInv(s);
      case PopClear => ClearKeepsInv(s);
      case PopAdvance => AdvanceKeepsInv(s);
    }
  }

  lemma {:induction false} RunKeepsInv<R>(s: State<R>, actions: seq<Action<R>>)
    requires Inv(s) && IsRun(s, actions)
    ensures Inv(After(s, actions))
    ensures s.claims <= After(s, actions).claims && s.popped <= After(s, actions).popped
    decreases actions
  {
    hide Inv;
    if actions != [] {
      StepKeepsInv(s, actions[0]);
      RunKeepsInv(Apply(s, actions[0]), actions[1..]);
    }
  }

  /**
   In every interleaving, from an empty buffer of any capacity: what was popped is a prefix of what was
   claimed, in claim order; never more than a buffer's worth of claims is outstanding; and the slot the next
   claim would take is empty whenever there is room for one.
   */
  lemma RingIsFifo<R>(capacity: nat, actions: seq<Action<R>>)
    requires 0 < capacity < WORD && IsRun(New(capacity), actions)
    ensures var s := After(New(capacity), actions);
            && s.Capacity() == capacity
            && s.popped <= s.claims
            && s.tail == |s.popped| <= s.head == |s.claims| <= s.tail + capacity
            && (s.head < s.tail + capacity ==> s.slots[s.head % capacity] == None)
  {
    InitInv<R>(capacity);
    RunKeepsInv(New(capacity), actions);
    CapacityIsFixed(New(capacity), actions);
    var s := After(New(capacity), actions);
    if s.head < s.tail + capacity {
      assert SlotOk(s, s.head);
    }
  }

  lemma {:induction false} CapacityIsFixed<R>(s: State<R>, actions: seq<Action<R>>)
    requires IsRun(s, actions)
    ensures After(s, actions).Capacity() == s.Capacity()
    decreases actions
  {
    if actions != [] {
      CapacityIsFixed(Apply(s, actions[0]), actions[1..]);
    }
  }

  /** A push is admitted only when there is room at the moment of the claim, and then claims an empty slot. */
  lemma ClaimsOnlyWithRoom<R>(capacity: nat, actions: seq<Action<R>>, p: ProducerId)
    requires 0 < capacity < WORD && IsRun(New(capacity), actions)
    requires var s := After(New(capacity), actions);
             s.At(p).Ready? && s.head == s.At(p).head
    ensures var s := After(New(capacity), actions);
            0 < s.Capacity() && s.head < s.tail + s.Capacity() && s.slots[s.head % s.Capacity()] == None
            && Apply(s, Cas(p)).claims == s.claims + [s.At(p).rec]
  {
    InitInv<R>(capacity);
    RunKeepsInv(New(capacity), actions);
    ClaimKeepsInv(After(New(capacity), actions), p);
  }

  /**
   When a push is refused: either the buffer is full at that moment, or the head it loaded has been overtaken
   by the tail and the difference has wrapped.  Either way a refusal changes nothing but the caller.
   */
  lemma RefusalIsHarmless<R>(capacity: nat, actions: seq<Action<R>>, p: ProducerId)
    requires 0 < capacity < WORD && IsRun(New(capacity), actions)
    requires After(New(capacity), actions).At(p).HeadLoaded?
    ensures var s := After(New(capacity), actions);
            var h := s.At(p).head;
            var refused := Apply(s, LoadTail(p)).At(p).Idle?;
            && (refused <==>
                if h >= s.tail then h == s.head == s.tail + s.Capacity() else Minus(h, s.tail) >= s.Capacity())
            && (refused ==> Apply(s, LoadTail(p)) == s.Move(p, Idle))
  {
    InitInv<R>(capacity);
    RunKeepsInv(New(capacity), actions);
    var s := After(New(capacity), actions);
    assert ProducerOk(s, p);
    AdmissionCheck(s.At(p).head, s.tail, s.Capacity());
  }

  /** How often the consumer looks into its slot. */
  function Looks<R>(actions: seq<Action<R>>): nat {
    if actions == [] then 0 else (if actions[0].PopLoadSlot? then 1 else 0) + Looks(actions[1..])
  }

  /** The consumer neither clears its slot nor starts another `Pop`. */
  predicate OnlyLooks<R>(actions: seq<Action<R>>) {
    forall i :: 0 <= i < |actions| ==> !actions[i].PopClear? && !actions[i].PopLoadTail?
  }

  /**
   While others go on, `Pop` looks into the slot of a claim a hundred and one times; it takes the record at the first
   look that finds one, and gives up only when none of them does.
   */
  lemma {:induction false} PopIsPatient<R>(s: State<R>, tries: nat, actions: seq<Action<R>>)
    requires s.consumer.Spinning? && s.consumer.tries == tries <= 100
    requires IsRun(s, actions) && OnlyLooks(actions)
    ensures var c, n := After(s, actions).consumer, tries + Looks(actions);
            || (c == Spinning(s.consumer.tail, n) && n <= 100)
            || (c == AtPop && n == 101)
            || (c.Holding? && c.tail == s.consumer.tail && n <= 101)
    decreases actions
  {
    if actions != [] {
      var t := Apply(s, actions[0]);
      if t.consumer.Spinning? {
        PopIsPatient(t, t.consumer.tries, actions[1..]);
      } else {
        LooksNoMore(t, actions[1..]);
      }
    }
  }

  lemma {:induction false} LooksNoMore<R>(s: State<R>, actions: seq<Action<R>>)
    requires s.consumer.AtPop? || s.consumer.Holding?
    requires IsRun(s, actions) && OnlyLooks(actions)
    ensures Looks(actions) == 0 && After(s, actions).consumer == s.consumer
    decreases actions
  {
    if actions != [] {
      LooksNoMore(Apply(s, actions[0]), actions[1..]);
    }
  }
}
