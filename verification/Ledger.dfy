/**
 The ledger that appends sealed records to the journal, and what it finds when it is opened again
 (internal/audit/ledger.go).

 The journal is an append-only list of lines; appends succeed.  The boot time is an input.
 */
module Ledger {
  import opened AuditChain
  import opened Options

  /** Where a chain stands: the last number and the last hash. */
  datatype Head = Head(sequence: uint64, hash: string)

  function GenesisRecord(d: Digests, nodeId: string, bootEpoch: int): AuditRecord {
    AuditRecord(0, bootEpoch, nodeId, bootEpoch, "", "", "GENESIS", "", "", "",
                ComputeGenesisHash(d, nodeId, bootEpoch))
  }

  function EffectiveNode(nodeId: string): string {
    if nodeId == "" then DEFAULT_NODE_ID else nodeId
  }

  /** A queued record with its number, its link and its hash. */
  function Seal(d: Digests, key: string, head: Head, rec: AuditRecord): AuditRecord {
    var r := rec.(sequenceId := Succ(head.sequence), prevHash := head.hash);
    r.(entryHash := ComputeEntryHash(d, key, r))
  }

  function HeadOf(r: AuditRecord): Head {
    Head(r.sequenceId, r.entryHash)
  }

  /** The sealed form of a list of queued records, in order. */
  function Chain(d: Digests, key: string, head: Head, recs: seq<AuditRecord>): (sealed: seq<AuditRecord>)
    ensures |sealed| == |recs|
    decreases recs
  {
    if recs == [] then []
    else
      var r := Seal(d, key, head, recs[0]);
      [r] + Chain(d, key, HeadOf(r), recs[1..])
  }

  /** Where the chain stands after them. */
  function HeadAfter(d: Digests, key: string, head: Head, recs: seq<AuditRecord>): Head
    decreases recs
  {
    if recs == [] then head else HeadAfter(d, key, HeadOf(Seal(d, key, head, recs[0])), recs[1..])
  }

  function Entries(recs: seq<AuditRecord>): (lines: seq<Line>)
    ensures |lines| == |recs|
  {
    seq(|recs|, i requires 0 <= i < |recs| => Entry(recs[i]))
  }

  /** What recovery reads back: the last line that is not blank, if it is a record. */
  function Recovered(lines: seq<Line>): Option<Head> {
    var log := NonBlank(lines);
    if log == [] || !log[|log| - 1].Entry? then None else Some(HeadOf(log[|log| - 1].rec))
  }

  predicate AllBlank(lines: seq<Line>) {
    forall i :: 0 <= i < |lines| ==> lines[i].Blank?
  }

  lemma {:induction false} BlanksVanish(lines: seq<Line>)
    requires AllBlank(lines)
    ensures NonBlank(lines) == []
  {
    if lines != [] {
      BlanksVanish(lines[..|lines| - 1]);
    }
  }

  /** Only the last line that is not blank matters; there must be one, and it must be a record. */
  lemma RecoveredIsLast(lines: seq<Line>)
    ensures AllBlank(lines) ==> Recovered(lines) == None
    ensures forall i :: 0 <= i < |lines| && AllBlank(lines[i + 1..]) ==>
              && (lines[i].Garbage? ==> Recovered(lines) == None)
              && (lines[i].Entry? ==>
                    Recovered(lines) == Some(Head(lines[i].rec.sequenceId, lines[i].rec.entryHash)))
  {
    hide NonBlank;
    if AllBlank(lines) {
      BlanksVanish(lines);
    }
    forall i | 0 <= i < |lines| && AllBlank(lines[i + 1..]) && !lines[i].Blank?
      ensures NonBlank(lines) == NonBlank(lines[..i]) + [lines[i]]
    {
      NonBlankSplit(lines, i);
      BlanksVanish(lines[i + 1..]);
    }
  }

  /** The number and the hash of the last line that is not blank; nothing when it is no record or there is none. */
  method RecoverLastRecord(lines: seq<Line>) returns (head: Option<Head>)
    ensures head == Recovered(lines)
    ensures AllBlank(lines) ==> head == None
    ensures forall i :: 0 <= i < |lines| && AllBlank(lines[i + 1..]) ==>
              && (lines[i].Garbage? ==> head == None)
              && (lines[i].Entry? ==> head == Some(Head(lines[i].rec.sequenceId, lines[i].rec.entryHash)))
  {
    RecoveredIsLast(lines);
    var lastLine := Blank;
    for i := 0 to |lines|
      invariant NonBlank(lines[..i]) == [] ==> lastLine == Blank
      invariant NonBlank(lines[..i]) != [] ==>
                  !lastLine.Blank? && lastLine == NonBlank(lines[..i])[|NonBlank(lines[..i])| - 1]
    {
      assert lines[..i + 1][..i] == lines[..i];
      if !lines[i].Blank? {
        lastLine := lines[i];
      }
    }
    assert lines[..|lines|] == lines;
    match lastLine {
      case Blank => return None;
      case Garbage => return None;
      case Entry(rec) => return Some(Head(rec.sequenceId, rec.entryHash));
    }
  }

  /** The journal file. */
  class Journal {
    var lines: seq<Line>

    constructor ()
      ensures lines == []
    {
      lines := [];
    }

    method Append(r: AuditRecord)
      modifies this
      ensures lines == old(lines) + [Entry(r)]
    {
      lines := lines + [Entry(r)];
    }
  }

  /** The journal and the chain head after opening, or nothing when recovery fails. */
  function Opened(d: Digests, lines: seq<Line>, nodeId: string, bootEpoch: int): Option<(seq<Line>, Head)> {
    if lines == [] then
      var g := GenesisRecord(d, EffectiveNode(nodeId), bootEpoch);
      Some(([Entry(g)], Head(0, g.entryHash)))
    else
      match Recovered(lines)
      case None => None
      case Some(head) => Some((lines, head))
  }

  class ChainedLedger {
    const d: Digests
    const hmacKey: string
    const journal: Journal
    var lastHash: string
    var lastSeq: uint64

    ghost function View(): Head
      reads this
    {
      Head(lastSeq, lastHash)
    }

    constructor (d: Digests, hmacKey: string, journal: Journal, head: Head)
      ensures this.d == d && this.hmacKey == hmacKey && this.journal == journal && View() == head
    {
      this.d, this.hmacKey, this.journal := d, hmacKey, journal;
      lastHash, lastSeq := head.hash, head.sequence;
    }

    /** Opens or creates the ledger; null when the journal has no last record to go on from. */
    static method Open(d: Digests, hmacKey: string, journal: Journal, nodeId: string, bootEpoch: int)
      returns (ledger: ChainedLedger?)
      modifies journal
      ensures match Opened(d, old(journal.lines), nodeId, bootEpoch)
              case None => ledger == null && journal.lines == old(journal.lines)
              case Some((lines, head)) =>
                ledger != null && fresh(ledger) && journal.lines == lines && ledger.View() == head
                && ledger.d == d && ledger.journal == journal
      ensures ledger != null ==> ledger.hmacKey == if hmacKey == "" then DEFAULT_HMAC_KEY else hmacKey
      ensures old(journal.lines) == [] ==>
                && ledger != null && |journal.lines| == 1 && journal.lines[0].Entry?
                && var node := if nodeId == "" then DEFAULT_NODE_ID else nodeId;
                   var h0 := d.sha(GenesisText(node, bootEpoch));
                   && journal.lines[0].rec
                      == AuditRecord(0, bootEpoch, node, bootEpoch, "", "", "GENESIS", "", "", "", h0)
                   && ledger.View() == Head(0, h0)
      ensures old(journal.lines) != [] ==> journal.lines == old(journal.lines)
      ensures old(journal.lines) != [] ==>
                (ledger != null <==> Recovered(old(journal.lines)).Some?)
                && (ledger != null ==> Recovered(old(journal.lines)) == Some(ledger.View()))
    {
      var node := if nodeId == "" then DEFAULT_NODE_ID else nodeId;
      var key := if hmacKey == "" then DEFAULT_HMAC_KEY else hmacKey;
      if |journal.lines| == 0 {
        var h0 := ComputeGenesisHash(d, node, bootEpoch);
        journal.Append(AuditRecord(0, bootEpoch, node, bootEpoch, "", "", "GENESIS", "", "", "", h0));
        ledger := new ChainedLedger(d, key, journal, Head(0, h0));
      } else {
        var head := RecoverLastRecord(journal.lines);
        if head.None? {
          return null;
        }
        ledger := new ChainedLedger(d, key, journal, head.value);
      }
    }

    /** Numbers, links, hashes and appends a batch. */
    method FlushBatch(batch: seq<AuditRecord>)
      modifies this, journal
      ensures journal.lines == old(journal.lines) + Entries(Chain(d, hmacKey, old(View()), batch))
      ensures View() == HeadAfter(d, hmacKey, old(View()), batch)
    {
      ChainOfNone(d, hmacKey, View());
      hide Chain, HeadAfter, Entries, ComputeEntryHash;
      for i := 0 to |batch|
        invariant journal.lines == old(journal.lines) + Entries(Chain(d, hmacKey, old(View()), batch[..i]))
        invariant View() == HeadAfter(d, hmacKey, old(View()), batch[..i])
      {
        var rec := batch[i];
        ChainStep(d, hmacKey, old(View()), batch[..i], rec);
        assert batch[..i + 1] == batch[..i] + [rec];
        lastSeq := Succ(lastSeq);
        rec := rec.(sequenceId := lastSeq, prevHash := lastHash);
        rec := rec.(entryHash := ComputeEntryHash(d, hmacKey, rec));
        lastHash := rec.entryHash;
        journal.Append(rec);
      }
      assert batch[..|batch|] == batch;
    }
  }

  // ---------------------------------------------------------------------------------------------
  // Chains
  // ---------------------------------------------------------------------------------------------

  lemma EntriesConcat(a: seq<AuditRecord>, b: seq<AuditRecord>)
    ensures Entries(a + b) == Entries(a) + Entries(b)
  {
  }

  /** Batches do not show: chaining twice is chaining the concatenation. */
  lemma {:induction false} ChainConcat(d: Digests, key: string, head: Head, a: seq<AuditRecord>, b: seq<AuditRecord>)
    ensures Chain(d, key, head, a + b) == Chain(d, key, head, a) + Chain(d, key, HeadAfter(d, key, head, a), b)
    ensures HeadAfter(d, key, head, a + b) == HeadAfter(d, key, HeadAfter(d, key, head, a), b)
    decreases a
  {
    hide Seal;
    if a == [] {
      assert a + b == b;
    } else {
      assert (a + b)[0] == a[0] && (a + b)[1..] == a[1..] + b;
      ChainConcat(d, key, HeadOf(Seal(d, key, head, a[0])), a[1..], b);
    }
  }

  lemma ChainOfNone(d: Digests, key: string, head: Head)
    ensures Entries(Chain(d, key, head, [])) == [] && HeadAfter(d, key, head, []) == head
  {
  }

  lemma ChainStep(d: Digests, key: string, head: Head, recs: seq<AuditRecord>, rec: AuditRecord)
    ensures var sealed := Seal(d, key, HeadAfter(d, key, head, recs), rec);
            && Chain(d, key, head, recs + [rec]) == Chain(d, key, head, recs) + [sealed]
            && HeadAfter(d, key, head, recs + [rec]) == HeadOf(sealed)
            && Entries(Chain(d, key, head, recs + [rec])) == Entries(Chain(d, key, head, recs)) + [Entry(sealed)]
  {
    hide Seal;
    ChainConcat(d, key, head, recs, [rec]);
    var next := HeadAfter(d, key, head, recs);
    var sealed := Seal(d, key, next, rec);
    assert [rec][1..] == [];
    assert Chain(d, key, next, [rec]) == [sealed] + Chain(d, key, HeadOf(sealed), []);
    assert HeadAfter(d, key, next, [rec]) == HeadAfter(d, key, HeadOf(sealed), []);
    assert Chain(d, key, HeadOf(sealed), []) == [];
  }

  /** A record without what sealing adds: what the caller recorded. */
  function Unsealed(r: AuditRecord): AuditRecord {
    r.(sequenceId := 0, prevHash := "", entryHash := "")
  }

  /** Sealing loses, repeats and reorders nothing, and numbers consecutively. */
  lemma {:induction false} ChainContents(d: Digests, key: string, head: Head, recs: seq<AuditRecord>)
    requires head.sequence + |recs| <= MAX_UINT64
    ensures forall i :: 0 <= i < |recs| ==> Unsealed(Chain(d, key, head, recs)[i]) == Unsealed(recs[i])
    ensures forall i :: 0 <= i < |recs| ==> Chain(d, key, head, recs)[i].sequenceId == head.sequence + 1 + i
    ensures HeadAfter(d, key, head, recs).sequence == head.sequence + |recs|
    decreases recs
  {
    hide ComputeEntryHash;
    if recs != [] {
      ChainContents(d, key, HeadOf(Seal(d, key, head, recs[0])), recs[1..]);
    }
  }

  // ---------------------------------------------------------------------------------------------
  // The journal of a chain
  // ---------------------------------------------------------------------------------------------

  function Log(d: Digests, key: string, g: AuditRecord, recs: seq<AuditRecord>): seq<AuditRecord> {
    [g] + Chain(d, key, HeadOf(g), recs)
  }

  /** A genesis followed by the sealed form of everything recorded. */
  function JournalOf(d: Digests, key: string, g: AuditRecord, recs: seq<AuditRecord>): seq<Line> {
    Entries(Log(d, key, g, recs))
  }

  ghost predicate IsGenesis(d: Digests, g: AuditRecord) {
    g.sequenceId == 0 && GenesisOk(d, g)
  }

  lemma SealIsAuthentic(d: Digests, key: string, head: Head, rec: AuditRecord)
    ensures var r := Seal(d, key, head, rec);
            HashOk(d, key, r) && r.sequenceId == Succ(head.sequence) && r.prevHash == head.hash
  {
    hide EntryText;
  }

  lemma {:induction false} LogIsValid(d: Digests, key: string, g: AuditRecord, recs: seq<AuditRecord>)
    requires IsGenesis(d, g) && |recs| <= MAX_UINT64
    ensures Valid(d, key, Log(d, key, g, recs))
    ensures HeadOf(Log(d, key, g, recs)[|recs|]) == HeadAfter(d, key, HeadOf(g), recs)
    ensures HeadAfter(d, key, HeadOf(g), recs).sequence == |recs|
    decreases recs
  {
    hide GenesisOk, ComputeEntryHash;
    if recs == [] {
      assert Log(d, key, g, recs) == [g];
    } else {
      var n := |recs| - 1;
      var front, rec := recs[..n], recs[n];
      assert recs == front + [rec];
      LogIsValid(d, key, g, front);
      ChainStep(d, key, HeadOf(g), front, rec);
      var sealed := Seal(d, key, HeadAfter(d, key, HeadOf(g), front), rec);
      assert Log(d, key, g, recs) == Log(d, key, g, front) + [sealed];
      SealIsAuthentic(d, key, HeadAfter(d, key, HeadOf(g), front), rec);
      hide Chain, HeadAfter, Seal, HashOk;
      assert Log(d, key, g, front)[n] == Log(d, key, g, recs)[n];
      ValidStep(d, key, Log(d, key, g, front), sealed);
    }
  }

  lemma {:induction false} EntriesAreRecords(log: seq<AuditRecord>)
    ensures NonBlank(Entries(log)) == Entries(log) && Records(Entries(log)) == log
  {
    if log != [] {
      var n := |log| - 1;
      EntriesAreRecords(log[..n]);
      assert log == log[..n] + [log[n]];
      EntriesConcat(log[..n], [log[n]]);
      assert Entries(log) == Entries(log[..n]) + [Entry(log[n])];
      RecordsStep(Entries(log[..n]), Entry(log[n]));
    }
  }

  /** Writer and verifier agree, and recovery restores the head the writer left. */
  lemma JournalIsAccepted(d: Digests, hmacKey: string, g: AuditRecord, recs: seq<AuditRecord>)
    requires IsGenesis(d, g) && |recs| <= MAX_UINT64
    ensures var lines := JournalOf(d, EffectiveKey(hmacKey), g, recs);
            && Accepts(d, hmacKey, lines)
            && |NonBlank(lines)| == 1 + |recs|
            && Recovered(lines) == Some(HeadAfter(d, EffectiveKey(hmacKey), HeadOf(g), recs))
            && Recovered(lines).value.sequence == |recs|
  {
    var key := EffectiveKey(hmacKey);
    LogIsValid(d, key, g, recs);
    EntriesAreRecords(Log(d, key, g, recs));
    hide NonBlank, Records, Valid, HeadAfter, IsGenesis, EffectiveKey;
  }

  /** A journal written under one key is accepted under another exactly when the two keys authenticate it alike. */
  lemma JournalUnderOtherKey(d: Digests, k: string, k': string, g: AuditRecord, recs: seq<AuditRecord>)
    requires IsGenesis(d, g) && |recs| <= MAX_UINT64 && k != "" && k' != ""
    ensures var log := Log(d, k, g, recs);
            Accepts(d, k', JournalOf(d, k, g, recs)) <==>
            forall i :: 1 <= i < |log| ==> d.mac(k', TextOf(log[i])) == d.mac(k, TextOf(log[i]))
  {
    var log := Log(d, k, g, recs);
    LogIsValid(d, k, g, recs);
    ChainContents(d, k, HeadOf(g), recs);
    EntriesAreRecords(log);
    AcceptsWithItsKey(d, k', JournalOf(d, k, g, recs));
    hide NonBlank, Records, GenesisOk, TextOf, Chain, Accepts;
    forall i | 0 <= i < |log| ensures InOrder(d, k, log, i) && (i > 0 ==> log[i].sequenceId != 0) {
      assert InOrder(d, k, log, i);
    }
    if Valid(d, k', log) {
      forall i | 1 <= i < |log| ensures d.mac(k', TextOf(log[i])) == d.mac(k, TextOf(log[i])) {
        assert InOrder(d, k', log, i);
      }
    }
  }

  // ---------------------------------------------------------------------------------------------
  // Any number of sessions
  // ---------------------------------------------------------------------------------------------

  /** Open, flush some batches, close. */
  datatype Session = Session(nodeId: string, bootEpoch: int, batches: seq<seq<AuditRecord>>)

  /** The effect of flushing batch after batch. */
  function Flushed(d: Digests, key: string, lines: seq<Line>, head: Head, batches: seq<seq<AuditRecord>>): seq<Line>
    decreases batches
  {
    if batches == [] then lines
    else
      Flushed(d, key, lines + Entries(Chain(d, key, head, batches[0])), HeadAfter(d, key, head, batches[0]),
              batches[1..])
  }

  function AfterSession(d: Digests, hmacKey: string, lines: seq<Line>, s: Session): Option<seq<Line>> {
    match Opened(d, lines, s.nodeId, s.bootEpoch)
    case None => None
    case Some((start, head)) => Some(Flushed(d, EffectiveKey(hmacKey), start, head, s.batches))
  }

  function AfterSessions(d: Digests, hmacKey: string, lines: seq<Line>, sessions: seq<Session>): Option<seq<Line>>
    decreases sessions
  {
    if sessions == [] then Some(lines)
    else
      match AfterSession(d, hmacKey, lines, sessions[0])
      case None => None
      case Some(next) => AfterSessions(d, hmacKey, next, sessions[1..])
  }

  function Flat(batches: seq<seq<AuditRecord>>): seq<AuditRecord> {
    if batches == [] then [] else batches[0] + Flat(batches[1..])
  }

  /** Everything recorded in a list of sessions, in order. */
  function AllRecorded(sessions: seq<Session>): seq<AuditRecord> {
    if sessions == [] then [] else Flat(sessions[0].batches) + AllRecorded(sessions[1..])
  }

  lemma {:induction false} FlushesExtend(d: Digests, key: string, g: AuditRecord, recs: seq<AuditRecord>,
                                         batches: seq<seq<AuditRecord>>)
    ensures Flushed(d, key, JournalOf(d, key, g, recs), HeadAfter(d, key, HeadOf(g), recs), batches)
         == JournalOf(d, key, g, recs + Flat(batches))
    decreases batches
  {
    hide Chain, HeadAfter;
    if batches == [] {
      assert recs + [] == recs;
    } else {
      var b := batches[0];
      ChainConcat(d, key, HeadOf(g), recs, b);
      var more := Chain(d, key, HeadAfter(d, key, HeadOf(g), recs), b);
      EntriesConcat(Log(d, key, g, recs), more);
      assert Log(d, key, g, recs) + more == Log(d, key, g, recs + b);
      FlushesExtend(d, key, g, recs + b, batches[1..]);
      assert recs + b + Flat(batches[1..]) == recs + Flat(batches);
    }
  }

  lemma {:induction false} MoreSessions(d: Digests, hmacKey: string, g: AuditRecord, recs: seq<AuditRecord>,
                                        sessions: seq<Session>)
    requires IsGenesis(d, g) && |recs| + |AllRecorded(sessions)| <= MAX_UINT64
    ensures AfterSessions(d, hmacKey, JournalOf(d, EffectiveKey(hmacKey), g, recs), sessions)
         == Some(JournalOf(d, EffectiveKey(hmacKey), g, recs + AllRecorded(sessions)))
    decreases sessions
  {
    var key := EffectiveKey(hmacKey);
    hide Chain, HeadAfter, Flushed, Recovered, IsGenesis, EffectiveKey;
    if sessions == [] {
      assert recs + [] == recs;
    } else {
      var s := sessions[0];
      JournalIsAccepted(d, hmacKey, g, recs);
      FlushesExtend(d, key, g, recs, s.batches);
      MoreSessions(d, hmacKey, g, recs + Flat(s.batches), sessions[1..]);
      assert recs + Flat(s.batches) + AllRecorded(sessions[1..]) == recs + AllRecorded(sessions);
    }
  }

  /**
   After any positive number of sessions on one journal with one key: opening never fails, the journal is the
   chain of everything recorded, the verifier accepts it with one more record than were recorded, and recovery
   finds exactly the last number and hash.
   */
  lemma SessionsAreAccepted(d: Digests, hmacKey: string, sessions: seq<Session>)
    requires sessions != [] && |AllRecorded(sessions)| <= MAX_UINT64
    ensures var g := GenesisRecord(d, EffectiveNode(sessions[0].nodeId), sessions[0].bootEpoch);
            var recs := AllRecorded(sessions);
            var lines := JournalOf(d, EffectiveKey(hmacKey), g, recs);
            && AfterSessions(d, hmacKey, [], sessions) == Some(lines)
            && Accepts(d, hmacKey, lines)
            && |NonBlank(lines)| == 1 + |recs|
            && Recovered(lines) == Some(HeadAfter(d, EffectiveKey(hmacKey), HeadOf(g), recs))
  {
    var s, rest := sessions[0], sessions[1..];
    var key := EffectiveKey(hmacKey);
    var g := GenesisRecord(d, EffectiveNode(s.nodeId), s.bootEpoch);
    assert IsGenesis(d, g);
    assert JournalOf(d, key, g, []) == [Entry(g)] && HeadAfter(d, key, HeadOf(g), []) == Head(0, g.entryHash);
    FlushesExtend(d, key, g, [], s.batches);
    assert [] + Flat(s.batches) == Flat(s.batches);
    MoreSessions(d, hmacKey, g, Flat(s.batches), rest);
    JournalIsAccepted(d, hmacKey, g, AllRecorded(sessions));
  }
}
