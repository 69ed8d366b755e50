/**
 The hash-chained audit journal: the entry encoding (internal/audit/ledger.go) and the verifier
 (internal/audit/verify.go).

 The two digests are parameters, so every statement holds for any functions in their place; where a
 statement needs collisions to be absent it says between which texts.
 */
module AuditChain {
  import opened Decimal

  type uint64 = n: nat | n < 0x1_0000_0000_0000_0000

  const MAX_UINT64: uint64 := 0xFFFF_FFFF_FFFF_FFFF

  const DEFAULT_HMAC_KEY := "guardrail-proxy-hmac-sha256-audit-secret-key-32b"
  const DEFAULT_NODE_ID := "guardrail-proxy-node-1"

  /** SHA-256 of a text and HMAC-SHA-256 of a text under a key, both printed in hexadecimal. */
  datatype Digests = Digests(sha: string -> string, mac: (string, string) -> string)

  datatype AuditRecord = AuditRecord(
    sequenceId: uint64, timestamp: int, nodeId: string, bootEpoch: int,
    tenantId: string, sessionId: string, action: string, requestHash: string, responseHash: string,
    prevHash: string, entryHash: string)

  /** A line of the journal file: blank, not a record, or a record. */
  datatype Line = Blank | Garbage | Entry(rec: AuditRecord)

  /** Go's unsigned increment. */
  function Succ(n: uint64): uint64 {
    if n == MAX_UINT64 then 0 else n + 1
  }

  function EffectiveKey(key: string): string {
    if key == "" then DEFAULT_HMAC_KEY else key
  }

  function GenesisText(nodeId: string, bootEpoch: int): string {
    "GENESIS:" + nodeId + ":" + PrintInt(bootEpoch)
  }

  function EntryText(prevHash: string, seqId: uint64, ts: int, tenantId: string, action: string, reqHash: string,
                     respHash: string): string {
    prevHash + ":"
    + (Print(seqId) + ":" + (PrintInt(ts) + ":" + (tenantId + ":" + (action + ":" + (reqHash + ":" + respHash)))))
  }

  function ComputeGenesisHash(d: Digests, nodeId: string, bootEpoch: int): string {
    d.sha(GenesisText(nodeId, bootEpoch))
  }

  /** The text a record is authenticated by. */
  function TextOf(r: AuditRecord): string {
    EntryText(r.prevHash, r.sequenceId, r.timestamp, r.tenantId, r.action, r.requestHash, r.responseHash)
  }

  function ComputeEntryHash(d: Digests, key: string, r: AuditRecord): string {
    d.mac(key, TextOf(r))
  }

  // ---------------------------------------------------------------------------------------------
  // The encoding is injective
  // ---------------------------------------------------------------------------------------------

  /** The fields the entry hash covers. */
  function Covered(r: AuditRecord): (string, uint64, int, string, string, string, string) {
    (r.prevHash, r.sequenceId, r.timestamp, r.tenantId, r.action, r.requestHash, r.responseHash)
  }

  /** No ':' in the fields that are followed by one; the last field may contain anything. */
  predicate Separable(r: AuditRecord) {
    ':' !in r.prevHash && ':' !in r.tenantId && ':' !in r.action && ':' !in r.requestHash
  }

  lemma NoColon(n: int)
    ensures ':' !in PrintInt(n)
  {
    PrintIntChars(n);
  }

  /** A field and the rest of the text. */
  lemma FieldsAgree(a: string, x: string, b: string, y: string)
    requires a + ":" + x == b + ":" + y && ':' !in a && ':' !in b
    ensures a == b && x == y
  {
    SplitFirst(a, x, b, y, ':');
  }

  /** Two separable records with the same text agree on every covered field. */
  lemma EntryTextIsInjective(r: AuditRecord, s: AuditRecord)
    requires Separable(r) && Separable(s) && TextOf(r) == TextOf(s)
    ensures Covered(r) == Covered(s)
  {
    hide PrintInt, Print;
    NoColonNat(r.sequenceId);
    NoColonNat(s.sequenceId);
    NoColon(r.timestamp);
    NoColon(s.timestamp);
    var r5, s5 := r.requestHash + ":" + r.responseHash, s.requestHash + ":" + s.responseHash;
    var r4, s4 := r.action + ":" + r5, s.action + ":" + s5;
    var r3, s3 := r.tenantId + ":" + r4, s.tenantId + ":" + s4;
    var r2, s2 := PrintInt(r.timestamp) + ":" + r3, PrintInt(s.timestamp) + ":" + s3;
    var r1, s1 := Print(r.sequenceId) + ":" + r2, Print(s.sequenceId) + ":" + s2;
    FieldsAgree(r.prevHash, r1, s.prevHash, s1);
    FieldsAgree(Print(r.sequenceId), r2, Print(s.sequenceId), s2);
    FieldsAgree(PrintInt(r.timestamp), r3, PrintInt(s.timestamp), s3);
    FieldsAgree(r.tenantId, r4, s.tenantId, s4);
    FieldsAgree(r.action, r5, s.action, s5);
    FieldsAgree(r.requestHash, r.responseHash, s.requestHash, s.responseHash);
    PrintIsInjective(r.sequenceId, s.sequenceId);
    PrintIntIsInjective(r.timestamp, s.timestamp);
  }

  lemma NoColonNat(n: nat)
    ensures ':' !in Print(n)
  {
    NoColon(n);
  }

  /** A ':' moves between neighbouring fields without showing. */
  lemma ColonsAreAmbiguous(r: AuditRecord, x: string, y: string, z: string)
    ensures var a := r.(tenantId := x + ":" + y, action := z);
            var b := r.(tenantId := x, action := y + ":" + z);
            TextOf(a) == TextOf(b) && Covered(a) != Covered(b)
  {
    var rest := r.requestHash + ":" + r.responseHash;
    assert (x + ":" + y) + ":" + (z + ":" + rest) == x + ":" + ((y + ":" + z) + ":" + rest);
    assert |x + ":" + y| != |x|;
  }

  /** No ':' in the three hashes, as when they are hexadecimal. */
  predicate HashesSeparable(r: AuditRecord) {
    ':' !in r.prevHash && ':' !in r.requestHash && ':' !in r.responseHash
  }

  predicate ColonFree(r: AuditRecord) {
    HashesSeparable(r) && ':' !in r.tenantId && ':' !in r.action
  }

  /** All records with the same text as `r` agree with it on every covered field. */
  ghost predicate TextDetermines(r: AuditRecord) {
    forall s :: TextOf(s) == TextOf(r) ==> Covered(s) == Covered(r)
  }

  /** The text of a record without ':' in its fields has only the separators' own, so no other record has it. */
  lemma ColonFreeTextIsUnique(r: AuditRecord, s: AuditRecord)
    requires ColonFree(r) && TextOf(s) == TextOf(r)
    ensures Covered(s) == Covered(r)
  {
    CountColons(r);
    CountColons(s);
    hide TextOf;
    EntryTextIsInjective(r, s);
  }

  /** The numbers bring no ':' into the text. */
  lemma CountColons(r: AuditRecord)
    ensures multiset(TextOf(r))[':']
         == 6 + multiset(r.prevHash)[':'] + multiset(r.tenantId)[':'] + multiset(r.action)[':']
            + multiset(r.requestHash)[':'] + multiset(r.responseHash)[':']
  {
    hide PrintInt, Print;
    NoColonNat(r.sequenceId);
    NoColon(r.timestamp);
    assert multiset(":")[':'] == 1;
  }

  /**
   When the hashes are separable, the text determines the covered fields exactly if neither tenant nor action
   holds a ':'; if one does, already another record with separable hashes has the same text.
   */
  lemma TextDeterminesExactly(r: AuditRecord)
    requires HashesSeparable(r)
    ensures TextDetermines(r) <==> ':' !in r.tenantId && ':' !in r.action
    ensures !TextDetermines(r) ==> exists s :: HashesSeparable(s) && TextOf(s) == TextOf(r) && Covered(s) != Covered(r)
  {
    hide TextOf;
    if ':' in r.tenantId {
      var i :| 0 <= i < |r.tenantId| && r.tenantId[i] == ':';
      var x, y := r.tenantId[..i], r.tenantId[i + 1..];
      assert r == r.(tenantId := x + ":" + y, action := r.action);
      ColonsAreAmbiguous(r, x, y, r.action);
      assert HashesSeparable(r.(tenantId := x, action := y + ":" + r.action));
    } else if ':' in r.action {
      var i :| 0 <= i < |r.action| && r.action[i] == ':';
      var y, z := r.action[..i], r.action[i + 1..];
      assert r == r.(tenantId := r.tenantId, action := y + ":" + z);
      ColonsAreAmbiguous(r, r.tenantId, y, z);
      assert HashesSeparable(r.(tenantId := r.tenantId + ":" + y, action := z));
    } else {
      forall s | TextOf(s) == TextOf(r) ensures Covered(s) == Covered(r) {
        ColonFreeTextIsUnique(r, s);
      }
    }
  }

  /** The parts of a text between its colons. */
  function Parts(s: string): (parts: seq<string>)
    ensures |parts| > 0
  {
    if s == "" then [""]
    else if s[0] == ':' then [""] + Parts(s[1..])
    else
      var rest := Parts(s[1..]);
      [[s[0]] + rest[0]] + rest[1..]
  }

  lemma {:induction false} FirstPart(a: string, rest: string)
    requires ':' !in a
    ensures Parts(a) == [a] && Parts(a + ":" + rest) == [a] + Parts(rest)
  {
    var s := a + ":" + rest;
    if a == "" {
      assert s[0] == ':' && s[1..] == rest;
    } else {
      FirstPart(a[1..], rest);
      assert s[0] == a[0] && s[1..] == a[1..] + ":" + rest;
      assert [a[0]] + a[1..] == a;
    }
  }

  /** The entry text of a record without colons is its seven fields in this order, the numbers in decimal. */
  lemma EntryTextParts(r: AuditRecord)
    requires ColonFree(r)
    ensures Parts(TextOf(r)) == [r.prevHash, Print(r.sequenceId), PrintInt(r.timestamp), r.tenantId, r.action,
                                 r.requestHash, r.responseHash]
  {
    hide PrintInt, Print, Parts;
    NoColonNat(r.sequenceId);
    NoColon(r.timestamp);
    var r5 := r.requestHash + ":" + r.responseHash;
    var r4 := r.action + ":" + r5;
    var r3 := r.tenantId + ":" + r4;
    var r2 := PrintInt(r.timestamp) + ":" + r3;
    var r1 := Print(r.sequenceId) + ":" + r2;
    FirstPart(r.prevHash, r1);
    FirstPart(Print(r.sequenceId), r2);
    FirstPart(PrintInt(r.timestamp), r3);
    FirstPart(r.tenantId, r4);
    FirstPart(r.action, r5);
    FirstPart(r.requestHash, r.responseHash);
    FirstPart(r.responseHash, "");
  }

  /** The genesis text is the word GENESIS, the node and the boot epoch. */
  lemma GenesisTextParts(node: string, epoch: int)
    requires ':' !in node
    ensures Parts(GenesisText(node, epoch)) == ["GENESIS", node, PrintInt(epoch)]
  {
    hide PrintInt, Parts;
    NoColon(epoch);
    FirstPart("GENESIS", node + ":" + PrintInt(epoch));
    FirstPart(node, PrintInt(epoch));
    FirstPart(PrintInt(epoch), "");
    assert GenesisText(node, epoch) == "GENESIS" + ":" + (node + ":" + PrintInt(epoch));
  }

  /** The genesis text needs no restriction: the epoch follows the last ':'. */
  lemma GenesisTextIsInjective(node: string, epoch: int, node': string, epoch': int)
    requires GenesisText(node, epoch) == GenesisText(node', epoch')
    ensures node == node' && epoch == epoch'
  {
    NoColon(epoch);
    NoColon(epoch');
    var a, b := "GENESIS:" + node, "GENESIS:" + node';
    assert a + [':'] + PrintInt(epoch) == b + [':'] + PrintInt(epoch');
    SplitLast(a, PrintInt(epoch), b, PrintInt(epoch'), ':');
    assert a[8..] == node && b[8..] == node';
    PrintIntIsInjective(epoch, epoch');
  }

  // ---------------------------------------------------------------------------------------------
  // What the verifier decides
  // ---------------------------------------------------------------------------------------------

  predicate GenesisOk(d: Digests, r: AuditRecord) {
    r.entryHash == ComputeGenesisHash(d, r.nodeId, r.bootEpoch)
  }

  predicate HashOk(d: Digests, key: string, r: AuditRecord) {
    r.entryHash == ComputeEntryHash(d, key, r)
  }

  /** `r` continues the chain after `prev`. */
  predicate Follows(prev: AuditRecord, r: AuditRecord) {
    r.sequenceId == Succ(prev.sequenceId) && r.prevHash == prev.entryHash
  }

  /** Record `i` is in order: a valid genesis, or an authentic record that follows its predecessor, if any. */
  predicate InOrder(d: Digests, key: string, log: seq<AuditRecord>, i: nat)
    requires i < |log|
  {
    if log[i].sequenceId == 0 then GenesisOk(d, log[i])
    else HashOk(d, key, log[i]) && (i > 0 ==> Follows(log[i - 1], log[i]))
  }

  ghost predicate Valid(d: Digests, key: string, log: seq<AuditRecord>) {
    forall i :: 0 <= i < |log| ==> InOrder(d, key, log, i)
  }

  /** The lines that are not blank. */
  function NonBlank(lines: seq<Line>): seq<Line> {
    if lines == [] then []
    else NonBlank(lines[..|lines| - 1]) + if lines[|lines| - 1].Blank? then [] else [lines[|lines| - 1]]
  }

  /** The records up to the first line that is not one. */
  function Records(lines: seq<Line>): seq<AuditRecord> {
    if lines == [] || !lines[0].Entry? then [] else [lines[0].rec] + Records(lines[1..])
  }

  /** Every line that is not blank is a record, and the records are in order under exactly this key. */
  ghost predicate AcceptsUnder(d: Digests, key: string, lines: seq<Line>) {
    var log := NonBlank(lines);
    |Records(log)| == |log| && Valid(d, key, Records(log))
  }

  /** What the verifier accepts when it is given `hmacKey`. */
  ghost predicate Accepts(d: Digests, hmacKey: string, lines: seq<Line>) {
    AcceptsUnder(d, EffectiveKey(hmacKey), lines)
  }

  /** A key that is not empty is used as it is; the empty one stands for the default. */
  lemma AcceptsWithItsKey(d: Digests, hmacKey: string, lines: seq<Line>)
    ensures hmacKey != "" ==> (Accepts(d, hmacKey, lines) <==> AcceptsUnder(d, hmacKey, lines))
    ensures hmacKey == "" ==> (Accepts(d, hmacKey, lines) <==> AcceptsUnder(d, DEFAULT_HMAC_KEY, lines))
  {
  }

  lemma {:induction false} RecordsOfEntries(lines: seq<Line>)
    ensures |Records(lines)| <= |lines|
    ensures forall i :: 0 <= i < |Records(lines)| ==> lines[i] == Entry(Records(lines)[i])
    ensures |Records(lines)| < |lines| ==> !lines[|Records(lines)|].Entry?
  {
    if lines != [] && lines[0].Entry? {
      RecordsOfEntries(lines[1..]);
    }
  }

  lemma {:induction false} RecordsStep(lines: seq<Line>, last: Line)
    ensures Records(lines + [last])
         == if |Records(lines)| == |lines| && last.Entry? then Records(lines) + [last.rec] else Records(lines)
  {
    RecordsOfEntries(lines);
    if lines == [] {
      assert [last][1..] == [];
    } else if lines[0].Entry? {
      assert (lines + [last])[1..] == lines[1..] + [last];
      RecordsStep(lines[1..], last);
    }
  }

  /** What the scan has established after some lines. */
  ghost predicate Scanned(d: Digests, key: string, lines: seq<Line>, prevHash: string, lastSeq: uint64, count: nat) {
    var log := NonBlank(lines);
    && |Records(log)| == |log| == count
    && Valid(d, key, Records(log))
    && (count > 0 ==> prevHash == Records(log)[count - 1].entryHash && lastSeq == Records(log)[count - 1].sequenceId)
  }

  /** The scan's checks on one record. */
  predicate Passes(d: Digests, key: string, r: AuditRecord, prevHash: string, lastSeq: uint64, count: nat) {
    if r.sequenceId == 0 then GenesisOk(d, r)
    else (count > 0 ==> r.sequenceId == Succ(lastSeq) && r.prevHash == prevHash) && HashOk(d, key, r)
  }

  /** One line: the scan goes on exactly when the journal up to it is still accepted. */
  lemma ScanStep(d: Digests, hmacKey: string, lines: seq<Line>, line: Line, prevHash: string, lastSeq: uint64,
                 count: nat)
    requires Scanned(d, EffectiveKey(hmacKey), lines, prevHash, lastSeq, count)
    ensures line.Blank? ==> Scanned(d, EffectiveKey(hmacKey), lines + [line], prevHash, lastSeq, count)
    ensures line.Garbage? ==> !Accepts(d, hmacKey, lines + [line])
    ensures line.Entry? ==>
              if Passes(d, EffectiveKey(hmacKey), line.rec, prevHash, lastSeq, count)
              then Scanned(d, EffectiveKey(hmacKey), lines + [line], line.rec.entryHash, line.rec.sequenceId, count + 1)
              else !Accepts(d, hmacKey, lines + [line])
  {
    assert (lines + [line])[..|lines|] == lines;
    RecordsStep(NonBlank(lines), line);
    assert NonBlank(lines + [line]) == if line.Blank? then NonBlank(lines) else NonBlank(lines) + [line];
    hide NonBlank, Records, HashOk, GenesisOk;
    if line.Entry? {
      ValidStep(d, EffectiveKey(hmacKey), Records(NonBlank(lines)), line.rec);
    }
  }

  lemma ValidStep(d: Digests, key: string, log: seq<AuditRecord>, r: AuditRecord)
    ensures Valid(d, key, log + [r]) <==> Valid(d, key, log) && InOrder(d, key, log + [r], |log|)
  {
    var all := log + [r];
    assert forall i :: 0 <= i < |log| ==> (InOrder(d, key, all, i) <==> InOrder(d, key, log, i));
  }

  /** `count` is the length of the longest accepted run of records from the start. */
  ghost predicate LongestAccepted(d: Digests, hmacKey: string, lines: seq<Line>, count: nat) {
    var log := NonBlank(lines);
    && count <= |log|
    && Accepts(d, hmacKey, log[..count])
    && (count < |log| ==> !Accepts(d, hmacKey, log[..count + 1]))
  }

  /** The verifier: decides acceptance and counts the records verified before the first fault. */
  method VerifyChain(d: Digests, hmacKey: string, lines: seq<Line>) returns (ok: bool, verifiedCount: nat)
    ensures ok <==> Accepts(d, hmacKey, lines)
    ensures hmacKey != "" ==> (ok <==> AcceptsUnder(d, hmacKey, lines))
    ensures hmacKey == "" ==> (ok <==> AcceptsUnder(d, DEFAULT_HMAC_KEY, lines))
    ensures LongestAccepted(d, hmacKey, lines, verifiedCount)
    ensures ok <==> verifiedCount == |NonBlank(lines)|
  {
    var key := EffectiveKey(hmacKey);
    var prevHash, lastSeq: uint64 := "", 0;
    verifiedCount := 0;
    ScanStart(d, key, lines);
    AcceptsWithItsKey(d, hmacKey, lines);
    hide Scanned, Accepts, AcceptsUnder, LongestAccepted, NonBlank;
    for i := 0 to |lines|
      invariant Scanned(d, key, lines[..i], prevHash, lastSeq, verifiedCount)
    {
      assert lines[..i + 1] == lines[..i] + [lines[i]];
      ScanStep(d, hmacKey, lines[..i], lines[i], prevHash, lastSeq, verifiedCount);
      if lines[i].Blank? {
        continue;
      }
      if !Accepts(d, hmacKey, lines[..i + 1]) {
        Rejected(d, hmacKey, lines, i, prevHash, lastSeq, verifiedCount);
      }
      if lines[i].Garbage? {
        return false, verifiedCount;
      }
      var rec := lines[i].rec;
      if rec.sequenceId == 0 {
        if rec.entryHash != ComputeGenesisHash(d, rec.nodeId, rec.bootEpoch) {
          return false, verifiedCount;
        }
        prevHash, lastSeq, verifiedCount := rec.entryHash, 0, verifiedCount + 1;
        continue;
      }
      if verifiedCount == 0 {
        prevHash, lastSeq := rec.prevHash, rec.sequenceId - 1;
      }
      if rec.sequenceId != Succ(lastSeq) {
        return false, verifiedCount;
      }
      if rec.prevHash != prevHash {
        return false, verifiedCount;
      }
      if rec.entryHash != ComputeEntryHash(d, key, rec) {
        return false, verifiedCount;
      }
      prevHash, lastSeq, verifiedCount := rec.entryHash, rec.sequenceId, verifiedCount + 1;
    }
    assert lines[..|lines|] == lines;
    Accepted(d, hmacKey, lines, prevHash, lastSeq, verifiedCount);
    return true, verifiedCount;
  }

  lemma ScanStart(d: Digests, key: string, lines: seq<Line>)
    ensures Scanned(d, key, lines[..0], "", 0, 0)
  {
  }

  lemma Accepted(d: Digests, hmacKey: string, lines: seq<Line>, prevHash: string, lastSeq: uint64, count: nat)
    requires Scanned(d, EffectiveKey(hmacKey), lines, prevHash, lastSeq, count)
    ensures Accepts(d, hmacKey, lines) && LongestAccepted(d, hmacKey, lines, count) && count == |NonBlank(lines)|
  {
    var log := NonBlank(lines);
    assert log[..|log|] == log;
    NonBlankTwice(lines);
  }

  lemma {:induction false} NonBlankConcat(a: seq<Line>, b: seq<Line>)
    ensures NonBlank(a + b) == NonBlank(a) + NonBlank(b)
  {
    if b == [] {
      assert a + b == a;
    } else {
      assert (a + b)[..|a + b| - 1] == a + b[..|b| - 1];
      NonBlankConcat(a, b[..|b| - 1]);
    }
  }

  lemma {:induction false} NonBlankTwice(a: seq<Line>)
    ensures NonBlank(NonBlank(a)) == NonBlank(a)
  {
    if a != [] {
      var front, last := a[..|a| - 1], a[|a| - 1];
      NonBlankTwice(front);
      if last.Blank? {
        assert NonBlank(a) == NonBlank(front);
      } else {
        assert NonBlank(a) == NonBlank(front) + [last];
        NonBlankConcat(NonBlank(front), [last]);
        assert [last][..0] == [];
      }
    }
  }

  /** Acceptance is closed under taking prefixes. */
  lemma PrefixAccepted(d: Digests, key: string, a: seq<Line>, b: seq<Line>)
    requires Accepts(d, key, a + b)
    ensures Accepts(d, key, a)
  {
    NonBlankConcat(a, b);
    var log, all := NonBlank(a), NonBlank(a + b);
    RecordsOfEntries(log);
    RecordsOfEntries(all);
    var k := EffectiveKey(key);
    assert forall i :: 0 <= i < |log| ==> log[i] == all[i] && all[i].Entry?;
    forall i | 0 <= i < |Records(log)| ensures InOrder(d, k, Records(log), i) {
      assert log[i] == all[i];
      assert InOrder(d, k, Records(all), i);
      if i > 0 {
        assert log[i - 1] == all[i - 1];
      }
    }
  }

  /** A line that fails after an accepted prefix rejects the journal, and the prefix is the longest accepted one. */
  lemma Rejected(d: Digests, hmacKey: string, lines: seq<Line>, i: nat, prevHash: string, lastSeq: uint64, count: nat)
    requires i < |lines| && !lines[i].Blank?
    requires Scanned(d, EffectiveKey(hmacKey), lines[..i], prevHash, lastSeq, count)
    requires !Accepts(d, hmacKey, lines[..i + 1])
    ensures !Accepts(d, hmacKey, lines)
    ensures LongestAccepted(d, hmacKey, lines, count) && count < |NonBlank(lines)|
  {
    hide NonBlank, Records, Valid;
    NonBlankSplit(lines, i);
    assert lines == lines[..i + 1] + lines[i + 1..];
    if Accepts(d, hmacKey, lines) {
      PrefixAccepted(d, hmacKey, lines[..i + 1], lines[i + 1..]);
    }
    NonBlankTwice(lines[..i]);
    NonBlankTwice(lines[..i + 1]);
    var log, front := NonBlank(lines), NonBlank(lines[..i]);
    assert |front| == count && log == front + ([lines[i]] + NonBlank(lines[i + 1..]));
    assert log[..count] == front;
    assert log[..count + 1] == front + [lines[i]];
  }

  lemma NonBlankSplit(lines: seq<Line>, i: nat)
    requires i < |lines| && !lines[i].Blank?
    ensures NonBlank(lines[..i + 1]) == NonBlank(lines[..i]) + [lines[i]]
    ensures NonBlank(lines) == NonBlank(lines[..i]) + ([lines[i]] + NonBlank(lines[i + 1..]))
  {
    hide NonBlank;
    var a, b, rest := lines[..i], [lines[i]], lines[i + 1..];
    NonBlankOne(lines[i]);
    NonBlankConcat(a, b);
    assert lines[..i + 1] == a + b;
    NonBlankConcat(b, rest);
    NonBlankConcat(a, b + rest);
    assert lines == a + (b + rest);
  }

  lemma NonBlankOne(x: Line)
    requires !x.Blank?
    ensures NonBlank([x]) == [x]
  {
    assert [x][..0] == [];
  }
}
