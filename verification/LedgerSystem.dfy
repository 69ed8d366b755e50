/**
 The ring buffer together with the ledger's writer goroutine and `Close` (internal/audit/ledger.go), as one
 transition system.  The writer is the buffer's consumer; it writes one record per action.
 */
module LedgerSystem {
  import opened AuditChain
  import opened Ledger
  import Ring = RingBuffer

  type RingState = Ring.State<AuditRecord>
  type RingAction = Ring.Action<AuditRecord>

  const BATCH_SIZE := 256

  /** Where the writer loop is. */
  datatype Writer = Polling | Selecting | Draining | Flushing(next: Writer) | Done

  /** Besides the program's state, `written` remembers the queued form of the records in the file. */
  datatype System = System(
    ring: RingState, writer: Writer, batch: seq<AuditRecord>, file: seq<AuditRecord>, head: Head, closed: bool,
    written: seq<AuditRecord>)

  datatype Action =
    | Push(a: RingAction)
    | Pop(a: RingAction)
    | WriteOne
    | FlushEnd
    | Wake
    | Stop
    | Close

  /** The ledger just created on an empty journal. */
  function New(capacity: nat, g: AuditRecord): System {
    System(Ring.New(capacity), Polling, [], [g], HeadOf(g), false, [])
  }

  predicate IsPush(a: RingAction) {
    a.Start? || a.LoadHead? || a.LoadTail? || a.Cas? || a.Store?
  }

  /** Pushes start only while the ledger is open; pops happen only in the two polling loops. */
  predicate Enabled(s: System, a: Action) {
    match a
    case Push(r) => IsPush(r) && Ring.Enabled(s.ring, r) && (r.Start? ==> !s.closed)
    case Pop(r) => !IsPush(r) && Ring.Enabled(s.ring, r) && (s.writer.Polling? || s.writer.Draining?)
    case WriteOne => s.writer.Flushing? && s.batch != []
    case FlushEnd => s.writer.Flushing? && s.batch == []
    case Wake => s.writer.Selecting?
    case Stop => s.writer.Selecting? && s.closed
    case Close => true
  }

  /** After `Pop` came back empty: flush what is there, then wait for work or finish. */
  function WhenEmpty(w: Writer): Writer {
    Flushing(if w.Polling? then Selecting else Done)
  }

  function Apply(d: Digests, key: string, s: System, a: Action): System
    requires Enabled(s, a)
  {
    match a
    case Push(r) => s.(ring := Ring.Apply(s.ring, r))
    case Pop(r) =>
      var ring := Ring.Apply(s.ring, r);
      if r.PopAdvance? then
        var batch := s.batch + [s.ring.consumer.rec];
        s.(ring := ring, batch := batch,
           writer := if s.writer.Polling? && |batch| >= BATCH_SIZE then Flushing(Polling) else s.writer)
      else if ring.consumer.AtPop? then s.(ring := ring, writer := WhenEmpty(s.writer))
      else s.(ring := ring)
    case WriteOne =>
      var r := Seal(d, key, s.head, s.batch[0]);
      s.(file := s.file + [r], head := HeadOf(r), written := s.written + [s.batch[0]], batch := s.batch[1..])
    case FlushEnd => s.(writer := s.writer.next)
    case Wake => s.(writer := Polling)
    case Stop => s.(writer := Draining)
    case Close => s.(closed := true)
  }

  ghost predicate IsRun(d: Digests, key: string, s: System, actions: seq<Action>)
    decreases actions
  {
    actions == [] || (Enabled(s, actions[0]) && IsRun(d, key, Apply(d, key, s, actions[0]), actions[1..]))
  }

  ghost function After(d: Digests, key: string, s: System, actions: seq<Action>): System
    requires IsRun(d, key, s, actions)
    decreases actions
  {
    if actions == [] then s else After(d, key, Apply(d, key, s, actions[0]), actions[1..])
  }

  // ---------------------------------------------------------------------------------------------
  // The file at every step
  // ---------------------------------------------------------------------------------------------

  /** The writer has reached, or is on its way out through, the final drain. */
  predicate Finishing(w: Writer) {
    w.Draining? || w.Done? || (w.Flushing? && w.next.Done?)
  }

  ghost predicate WriterOk(s: System) {
    && (s.writer.Flushing? ==> s.writer.next in {Polling, Selecting, Done})
    && (!(s.writer.Polling? || s.writer.Draining?) ==> s.ring.consumer.AtPop?)
    && (Finishing(s.writer) ==> s.closed)
    && (s.writer.Selecting? || s.writer.Done? ==> s.batch == [])
  }

  ghost predicate FileOk(d: Digests, key: string, g: AuditRecord, s: System) {
    && s.file == Log(d, key, g, s.written)
    && s.head == HeadAfter(d, key, HeadOf(g), s.written)
    && s.ring.popped == s.written + s.batch
  }

  ghost predicate Inv(d: Digests, key: string, g: AuditRecord, s: System) {
    Ring.Inv(s.ring) && WriterOk(s) && FileOk(d, key, g, s)
  }

  lemma WriteKeepsFile(d: Digests, key: string, g: AuditRecord, s: System)
    requires FileOk(d, key, g, s) && Enabled(s, WriteOne)
    ensures FileOk(d, key, g, Apply(d, key, s, WriteOne))
  {
    hide Seal, Chain, HeadAfter;
    ChainStep(d, key, HeadOf(g), s.written, s.batch[0]);
    assert s.written + s.batch == s.written + [s.batch[0]] + s.batch[1..];
  }

  /** Only the last step of `Pop` changes what has been popped. */
  lemma PoppedChanges(r: RingState, a: RingAction)
    requires Ring.Enabled(r, a)
    ensures Ring.Apply(r, a).popped == if a.PopAdvance? then r.popped + [r.consumer.rec] else r.popped
    ensures IsPush(a) ==> Ring.Apply(r, a).consumer == r.consumer
    ensures a.PopAdvance? ==> r.consumer.Cleared? && Ring.Apply(r, a).consumer.AtPop?
  {
  }

  lemma StepKeepsInv(d: Digests, key: string, g: AuditRecord, s: System, a: Action)
    requires Inv(d, key, g, s) && Enabled(s, a)
    ensures Inv(d, key, g, Apply(d, key, s, a))
  {
    hide Ring.Inv, Ring.Apply, Ring.Enabled, Log, HeadAfter, Seal;
    match a {
      case Push(r) =>
        Ring.StepKeepsInv(s.ring, r);
        PoppedChanges(s.ring, r);
      case Pop(r) =>
        Ring.StepKeepsInv(s.ring, r);
        PoppedChanges(s.ring, r);
        if r.PopAdvance? {
          assert s.written + (s.batch + [s.ring.consumer.rec]) == s.written + s.batch + [s.ring.consumer.rec];
        }
      case WriteOne => WriteKeepsFile(d, key, g, s);
      case FlushEnd =>
      case Wake =>
      case Stop =>
      case Close =>
    }
  }

  lemma {:induction false} RunKeepsInv(d: Digests, key: string, g: AuditRecord, s: System, actions: seq<Action>)
    requires Inv(d, key, g, s) && IsRun(d, key, s, actions)
    ensures Inv(d, key, g, After(d, key, s, actions))
    decreases actions
  {
    hide Inv, Apply;
    if actions != [] {
      StepKeepsInv(d, key, g, s, actions[0]);
      RunKeepsInv(d, key, g, Apply(d, key, s, actions[0]), actions[1..]);
    }
  }

  lemma InitInv(d: Digests, key: string, g: AuditRecord, capacity: nat)
    requires 0 < capacity < Ring.WORD
    ensures Inv(d, key, g, New(capacity, g))
  {
    Ring.InitInv<AuditRecord>(capacity);
    assert Log(d, key, g, []) == [g];
  }

  /**
   At every step, whatever the interleaving and the batch splits: the file is the genesis followed by the
   sealed form of a prefix of the claim order, and the verifier accepts it.
   */
  lemma FileIsPrefixOfClaims(d: Digests, hmacKey: string, g: AuditRecord, capacity: nat, actions: seq<Action>)
    requires 0 < capacity < Ring.WORD && IsGenesis(d, g)
    requires IsRun(d, EffectiveKey(hmacKey), New(capacity, g), actions)
    ensures var s := After(d, EffectiveKey(hmacKey), New(capacity, g), actions);
            && s.written <= s.ring.claims
            && s.file == Log(d, EffectiveKey(hmacKey), g, s.written)
            && (|s.written| <= MAX_UINT64 ==>
                  Accepts(d, hmacKey, Entries(s.file)) && |NonBlank(Entries(s.file))| == 1 + |s.written|)
  {
    var key := EffectiveKey(hmacKey);
    InitInv(d, key, g, capacity);
    RunKeepsInv(d, key, g, New(capacity, g), actions);
    var s := After(d, key, New(capacity, g), actions);
    assert s.written <= s.ring.popped <= s.ring.claims;
    if |s.written| <= MAX_UINT64 {
      JournalIsAccepted(d, hmacKey, g, s.written);
    }
  }

  // ---------------------------------------------------------------------------------------------
  // How much may be lost with the writer
  // ---------------------------------------------------------------------------------------------

  /** Before the final drain at most 256 records have been taken from the buffer without being in the file. */
  ghost predicate BatchOk(s: System) {
    && (s.writer.Polling? ==> |s.batch| < 256)
    && (s.writer.Flushing? && !s.writer.next.Done? ==> |s.batch| <= 256)
  }

  /** It is the 256th record that starts a flush, and no earlier one. */
  lemma FlushesFullBatches(d: Digests, key: string, s: System, a: Action)
    requires WriterOk(s) && BatchOk(s) && Enabled(s, a)
    ensures BatchOk(Apply(d, key, s, a))
    ensures s.writer.Polling? && a.Pop? && a.a.PopAdvance? ==>
              Apply(d, key, s, a).writer == if |s.batch| == 255 then Flushing(Polling) else Polling
  {
    hide Ring.Apply, Ring.Enabled, Seal;
    if a.Pop? {
      PoppedChanges(s.ring, a.a);
    }
  }

  lemma {:induction false} RunKeepsBatch(d: Digests, key: string, g: AuditRecord, s: System, actions: seq<Action>)
    requires Inv(d, key, g, s) && BatchOk(s) && IsRun(d, key, s, actions)
    ensures BatchOk(After(d, key, s, actions))
    decreases actions
  {
    hide Ring.Inv, FileOk, WriterOk, BatchOk, Apply;
    if actions != [] {
      StepKeepsInv(d, key, g, s, actions[0]);
      FlushesFullBatches(d, key, s, actions[0]);
      RunKeepsBatch(d, key, g, Apply(d, key, s, actions[0]), actions[1..]);
    }
  }

  /** At every step, until the ledger is closed, all but 256 of the records popped are in the file. */
  lemma FileLagsByOneBatch(d: Digests, key: string, g: AuditRecord, capacity: nat, actions: seq<Action>)
    requires 0 < capacity < Ring.WORD && IsRun(d, key, New(capacity, g), actions)
    ensures var s := After(d, key, New(capacity, g), actions);
            && s.ring.popped == s.written + s.batch
            && (!Finishing(s.writer) ==> |s.ring.popped| <= |s.written| + 256)
            && (s.writer.Polling? ==> |s.ring.popped| < |s.written| + 256)
  {
    InitInv(d, key, g, capacity);
    RunKeepsInv(d, key, g, New(capacity, g), actions);
    RunKeepsBatch(d, key, g, New(capacity, g), actions);
    hide Ring.Inv;
  }
}
