/**
 What an accepted journal means: its segments, how far its last hash pins down the history, and which
 changes to a record the verifier can notice (internal/audit/verify.go).
 */
module AuditCommitment {
  import opened AuditChain

  // ---------------------------------------------------------------------------------------------
  // Segments
  // ---------------------------------------------------------------------------------------------

  /** A run of linked records, opened by a valid genesis or by any authentic record with a non-zero number. */
  ghost predicate IsSegment(d: Digests, key: string, seg: seq<AuditRecord>) {
    && |seg| > 0
    && (if seg[0].sequenceId == 0 then GenesisOk(d, seg[0]) else HashOk(d, key, seg[0]))
    && forall i :: 0 < i < |seg| ==> seg[i].sequenceId != 0 && HashOk(d, key, seg[i]) && Follows(seg[i - 1], seg[i])
  }

  /** Segments in a row; only the first may lack a genesis. */
  ghost predicate AreSegments(d: Digests, key: string, segs: seq<seq<AuditRecord>>) {
    && (forall k :: 0 <= k < |segs| ==> IsSegment(d, key, segs[k]))
    && forall k :: 0 < k < |segs| ==> segs[k][0].sequenceId == 0
  }

  function Concat(segs: seq<seq<AuditRecord>>): seq<AuditRecord> {
    if segs == [] then [] else Concat(segs[..|segs| - 1]) + segs[|segs| - 1]
  }

  /** Cutting a log before every genesis. */
  ghost function SegmentsOf(log: seq<AuditRecord>): seq<seq<AuditRecord>> {
    if log == [] then []
    else
      var front, r := SegmentsOf(log[..|log| - 1]), log[|log| - 1];
      if front == [] || r.sequenceId == 0 then front + [[r]]
      else front[|front| - 1 := front[|front| - 1] + [r]]
  }

  lemma ConcatStep(segs: seq<seq<AuditRecord>>, seg: seq<AuditRecord>)
    ensures Concat(segs + [seg]) == Concat(segs) + seg
  {
    assert (segs + [seg])[..|segs|] == segs;
  }

  /** The record the last segment ends with. */
  ghost predicate EndsWith(segs: seq<seq<AuditRecord>>, r: AuditRecord) {
    |segs| > 0 && |segs[|segs| - 1]| > 0 && segs[|segs| - 1][|segs[|segs| - 1]| - 1] == r
  }

  lemma OpenSegment(d: Digests, key: string, segs: seq<seq<AuditRecord>>, r: AuditRecord)
    requires AreSegments(d, key, segs) && (segs == [] || r.sequenceId == 0)
    requires if r.sequenceId == 0 then GenesisOk(d, r) else HashOk(d, key, r)
    ensures AreSegments(d, key, segs + [[r]]) && Concat(segs + [[r]]) == Concat(segs) + [r] && EndsWith(segs + [[r]], r)
  {
    hide HashOk, GenesisOk, Follows, Concat;
    ConcatStep(segs, [r]);
  }

  lemma GrowSegment(d: Digests, key: string, segs: seq<seq<AuditRecord>>, prev: AuditRecord, r: AuditRecord)
    requires AreSegments(d, key, segs) && EndsWith(segs, prev)
    requires r.sequenceId != 0 && HashOk(d, key, r) && Follows(prev, r)
    ensures var m := |segs| - 1;
            var grown := segs[m := segs[m] + [r]];
            AreSegments(d, key, grown) && Concat(grown) == Concat(segs) + [r] && EndsWith(grown, r)
  {
    hide HashOk, GenesisOk, Follows, Concat;
    var m := |segs| - 1;
    var last := segs[m] + [r];
    ConcatStep(segs[..m], segs[m]);
    ConcatStep(segs[..m], last);
    assert segs == segs[..m] + [segs[m]] && segs[m := last] == segs[..m] + [last];
    assert IsSegment(d, key, last) by {
      assert IsSegment(d, key, segs[m]);
    }
  }

  lemma {:induction false} SegmentsOfValid(d: Digests, key: string, log: seq<AuditRecord>)
    requires Valid(d, key, log)
    ensures AreSegments(d, key, SegmentsOf(log)) && Concat(SegmentsOf(log)) == log
    ensures log != [] ==> EndsWith(SegmentsOf(log), log[|log| - 1])
  {
    hide HashOk, GenesisOk, Follows, AreSegments, Concat;
    if log == [] {
      NoSegments(d, key);
    } else {
      var n := |log| - 1;
      var before, r := log[..n], log[n];
      assert log == before + [r];
      ValidStep(d, key, before, r);
      SegmentsOfValid(d, key, before);
      var front := SegmentsOf(before);
      assert InOrder(d, key, log, n);
      if front == [] || r.sequenceId == 0 {
        OpenSegment(d, key, front, r);
      } else {
        GrowSegment(d, key, front, before[n - 1], r);
      }
    }
  }

  lemma NoSegments(d: Digests, key: string)
    ensures AreSegments(d, key, []) && Concat([]) == []
  {
  }

  lemma {:induction false} ConcatIsValid(d: Digests, key: string, segs: seq<seq<AuditRecord>>)
    requires AreSegments(d, key, segs)
    ensures Valid(d, key, Concat(segs))
  {
    hide HashOk, GenesisOk, Follows;
    if segs != [] {
      var m := |segs| - 1;
      var front, seg := segs[..m], segs[m];
      ConcatIsValid(d, key, front);
      var before := Concat(front);
      AppendSegment(d, key, before, seg);
    }
  }

  lemma AppendSegment(d: Digests, key: string, before: seq<AuditRecord>, seg: seq<AuditRecord>)
    requires Valid(d, key, before) && IsSegment(d, key, seg)
    requires before == [] || seg[0].sequenceId == 0
    ensures Valid(d, key, before + seg)
  {
    hide HashOk, GenesisOk, Follows;
    var log := before + seg;
    forall i | 0 <= i < |log| ensures InOrder(d, key, log, i) {
      if i < |before| {
        assert InOrder(d, key, before, i);
      } else {
        assert log[i] == seg[i - |before|];
        assert i > |before| ==> log[i - 1] == seg[i - 1 - |before|];
      }
    }
  }

  /** The verifier accepts exactly the concatenations of linked segments. */
  lemma ValidMeansSegments(d: Digests, key: string, log: seq<AuditRecord>)
    ensures Valid(d, key, log) <==> exists segs :: AreSegments(d, key, segs) && Concat(segs) == log
  {
    if Valid(d, key, log) {
      SegmentsOfValid(d, key, log);
    }
    forall segs | AreSegments(d, key, segs) && Concat(segs) == log ensures Valid(d, key, log) {
      ConcatIsValid(d, key, segs);
    }
  }

  // ---------------------------------------------------------------------------------------------
  // The last hash commits to the final segment
  // ---------------------------------------------------------------------------------------------

  /** How many records at the end of the log are not a genesis: the body of the final segment. */
  function TailLength(log: seq<AuditRecord>): (n: nat)
    ensures n <= |log|
  {
    if log == [] || log[|log| - 1].sequenceId == 0 then 0 else 1 + TailLength(log[..|log| - 1])
  }

  /** The record `k` places before the end. */
  function FromEnd(log: seq<AuditRecord>, k: nat): AuditRecord
    requires k < |log|
  {
    log[|log| - 1 - k]
  }

  lemma {:induction false} TailIsBody(log: seq<AuditRecord>)
    ensures forall k :: 0 <= k < TailLength(log) ==> FromEnd(log, k).sequenceId != 0
    ensures TailLength(log) < |log| ==> FromEnd(log, TailLength(log)).sequenceId == 0
  {
    if log != [] && log[|log| - 1].sequenceId != 0 {
      var front := log[..|log| - 1];
      TailIsBody(front);
      assert forall k :: 0 < k < |log| ==> FromEnd(log, k) == FromEnd(front, k - 1);
    }
  }

  /** No two different texts of these records have the same digest. */
  ghost predicate NoCollision(d: Digests, key: string, a: seq<AuditRecord>, b: seq<AuditRecord>) {
    forall i, j :: 0 <= i < |a| && 0 <= j < |b| && ComputeEntryHash(d, key, a[i]) == ComputeEntryHash(d, key, b[j]) ==>
      TextOf(a[i]) == TextOf(b[j])
  }

  ghost predicate AllSeparable(log: seq<AuditRecord>) {
    forall i :: 0 <= i < |log| ==> Separable(log[i])
  }

  /** Inside the final segment every record is authentic and continues its predecessor. */
  lemma BodyIsLinked(d: Digests, key: string, log: seq<AuditRecord>, k: nat)
    requires Valid(d, key, log) && k < TailLength(log)
    ensures HashOk(d, key, FromEnd(log, k))
    ensures k + 1 < |log| ==> Follows(FromEnd(log, k + 1), FromEnd(log, k))
  {
    hide HashOk, GenesisOk, TailLength;
    TailIsBody(log);
    assert InOrder(d, key, log, |log| - 1 - k);
  }

  /**
   Two accepted logs under one key with the same last hash agree, record by record going backwards, on every
   covered field and on the hash, down to the start of the shorter final segment.
   */
  lemma {:induction false} HeadCommitsToHistory(d: Digests, key: string, a: seq<AuditRecord>, b: seq<AuditRecord>,
                                                k: nat)
    requires Valid(d, key, a) && Valid(d, key, b) && AllSeparable(a) && AllSeparable(b) && NoCollision(d, key, a, b)
    requires k < TailLength(a) && k < TailLength(b) && FromEnd(a, 0).entryHash == FromEnd(b, 0).entryHash
    ensures Covered(FromEnd(a, k)) == Covered(FromEnd(b, k)) && FromEnd(a, k).entryHash == FromEnd(b, k).entryHash
  {
    hide TailLength, HashOk, GenesisOk, TextOf, ComputeEntryHash, Separable, Valid;
    if k > 0 {
      HeadCommitsToHistory(d, key, a, b, k - 1);
      BodyIsLinked(d, key, a, k - 1);
      BodyIsLinked(d, key, b, k - 1);
    }
    BodyIsLinked(d, key, a, k);
    BodyIsLinked(d, key, b, k);
    SameHash(d, key, FromEnd(a, k), FromEnd(b, k));
  }

  lemma SameHash(d: Digests, key: string, r: AuditRecord, s: AuditRecord)
    requires HashOk(d, key, r) && HashOk(d, key, s) && r.entryHash == s.entryHash
    requires Separable(r) && Separable(s)
    requires ComputeEntryHash(d, key, r) == ComputeEntryHash(d, key, s) ==> TextOf(r) == TextOf(s)
    ensures Covered(r) == Covered(s)
  {
    EntryTextIsInjective(r, s);
  }

  /** Numbers count up from the genesis. */
  lemma {:induction false} NumbersFromGenesis(d: Digests, key: string, log: seq<AuditRecord>, k: nat)
    requires Valid(d, key, log) && TailLength(log) < |log| && k <= TailLength(log)
    ensures FromEnd(log, k).sequenceId == TailLength(log) - k
    decreases TailLength(log) - k
  {
    hide TailLength, HashOk;
    TailIsBody(log);
    if k < TailLength(log) {
      NumbersFromGenesis(d, key, log, k + 1);
      BodyIsLinked(d, key, log, k);
    }
  }

  /**
   When both final segments are opened by a genesis, the last hash fixes the whole segment: its length, every
   record in it, and the node and boot epoch of its genesis.
   */
  lemma HeadCommitsToGenesis(d: Digests, key: string, a: seq<AuditRecord>, b: seq<AuditRecord>)
    requires Valid(d, key, a) && Valid(d, key, b) && AllSeparable(a) && AllSeparable(b) && NoCollision(d, key, a, b)
    requires 0 < TailLength(a) < |a| && 0 < TailLength(b) < |b| && FromEnd(a, 0).entryHash == FromEnd(b, 0).entryHash
    requires var g, h := FromEnd(a, TailLength(a)), FromEnd(b, TailLength(b));
             ComputeGenesisHash(d, g.nodeId, g.bootEpoch) == ComputeGenesisHash(d, h.nodeId, h.bootEpoch) ==>
               GenesisText(g.nodeId, g.bootEpoch) == GenesisText(h.nodeId, h.bootEpoch)
    ensures var n := TailLength(a);
            n == TailLength(b) && FromEnd(a, n).sequenceId == FromEnd(b, n).sequenceId == 0
            && FromEnd(a, n).nodeId == FromEnd(b, n).nodeId && FromEnd(a, n).bootEpoch == FromEnd(b, n).bootEpoch
  {
    hide TailLength, HashOk, TextOf, ComputeEntryHash, ComputeGenesisHash, GenesisText, NoCollision, AllSeparable,
         Valid;
    HeadCommitsToHistory(d, key, a, b, 0);
    NumbersFromGenesis(d, key, a, 0);
    NumbersFromGenesis(d, key, b, 0);
    var n := TailLength(a);
    HeadCommitsToHistory(d, key, a, b, n - 1);
    BodyIsLinked(d, key, a, n - 1);
    BodyIsLinked(d, key, b, n - 1);
    GenesisAt(d, key, a);
    GenesisAt(d, key, b);
    var g, h := FromEnd(a, n), FromEnd(b, n);
    GenesisTextIsInjective(g.nodeId, g.bootEpoch, h.nodeId, h.bootEpoch);
  }

  lemma GenesisAt(d: Digests, key: string, log: seq<AuditRecord>)
    requires Valid(d, key, log) && TailLength(log) < |log|
    ensures var g := FromEnd(log, TailLength(log));
            g.sequenceId == 0 && GenesisOk(d, g)
  {
    hide TailLength, HashOk, GenesisOk;
    TailIsBody(log);
    assert InOrder(d, key, log, |log| - 1 - TailLength(log));
  }

  // ---------------------------------------------------------------------------------------------
  // Which changes are noticed
  // ---------------------------------------------------------------------------------------------

  /** Same covered fields and same hash: all that the verifier reads of a numbered record. */
  predicate SameEntry(r: AuditRecord, s: AuditRecord) {
    Covered(r) == Covered(s) && r.entryHash == s.entryHash
  }

  /** The successor of place `i` is absent, a genesis, or goes on from `r`. */
  predicate NextAccepts(log: seq<AuditRecord>, i: nat, r: AuditRecord) {
    i + 1 < |log| ==> log[i + 1].sequenceId == 0 || Follows(r, log[i + 1])
  }

  /** A numbered record between its neighbours. */
  predicate Fits(log: seq<AuditRecord>, i: nat, r: AuditRecord)
    requires i < |log|
  {
    (i > 0 ==> Follows(log[i - 1], r)) && NextAccepts(log, i, r)
  }

  /** A genesis that anyone can compute, in a place where it is accepted. */
  predicate SelfMadeGenesis(d: Digests, log: seq<AuditRecord>, i: nat, r: AuditRecord) {
    r.sequenceId == 0 && GenesisOk(d, r) && NextAccepts(log, i, r)
  }

  /** Replacing a record concerns the record and its neighbours. */
  lemma ReplacementIsLocal(d: Digests, key: string, log: seq<AuditRecord>, i: nat, r: AuditRecord)
    requires Valid(d, key, log) && i < |log|
    ensures Valid(d, key, log[i := r]) <==>
            if r.sequenceId == 0 then SelfMadeGenesis(d, log, i, r) else HashOk(d, key, r) && Fits(log, i, r)
  {
    hide GenesisOk, HashOk;
    var changed := log[i := r];
    forall j | 0 <= j < |log| && j != i && j != i + 1 ensures InOrder(d, key, changed, j) {
      assert InOrder(d, key, log, j);
    }
    if i + 1 < |log| {
      assert InOrder(d, key, log, i + 1);
      assert InOrder(d, key, changed, i + 1) <==> NextAccepts(log, i, r);
    }
    assert Valid(d, key, changed) ==>
             InOrder(d, key, changed, i) && (i + 1 < |log| ==> InOrder(d, key, changed, i + 1));
  }

  /** The texts authentic under the key are, as far as `r` goes, those of the records that were sealed with it. */
  ghost predicate Unforged(d: Digests, key: string, r: AuditRecord, known: seq<AuditRecord>) {
    r.sequenceId != 0 && HashOk(d, key, r) ==> exists j :: 0 <= j < |known| && TextOf(known[j]) == TextOf(r)
  }

  /**
   Replacing a record by any other, number, hash and all.  If the new record was not sealed with the key just
   for this, the journal is accepted exactly when it is a sealed record, unchanged in all that the verifier reads,
   that fits between the neighbours, or a self-made genesis that the successor accepts.
   */
  lemma ReplacementIsAccepted(d: Digests, key: string, log: seq<AuditRecord>, i: nat, r: AuditRecord,
                              known: seq<AuditRecord>)
    requires Valid(d, key, log) && i < |log| && Unforged(d, key, r, known)
    requires forall j :: 0 <= j < |known| ==> HashOk(d, key, known[j]) && ColonFree(known[j])
    ensures Valid(d, key, log[i := r]) <==>
            || SelfMadeGenesis(d, log, i, r)
            || (r.sequenceId != 0 && exists j :: 0 <= j < |known| && SameEntry(r, known[j]) && Fits(log, i, known[j]))
  {
    ReplacementIsLocal(d, key, log, i, r);
    hide TextOf, Valid, GenesisOk;
    if r.sequenceId != 0 {
      KnownMeansAuthentic(d, key, r, known);
    }
    assert forall j :: 0 <= j < |known| && SameEntry(r, known[j]) ==> (Fits(log, i, r) <==> Fits(log, i, known[j]));
  }

  lemma CoveredGivesText(r: AuditRecord, s: AuditRecord)
    requires Covered(r) == Covered(s)
    ensures TextOf(r) == TextOf(s)
  {
  }

  /**
   In particular, as long as no other text authentic under the key is at hand: an edit of a numbered record
   goes unnoticed exactly when hash and covered fields stay as they were, or when the record becomes a
   self-made genesis whose successor is absent, a genesis, or goes on from it.
   */
  lemma EditIsNoticed(d: Digests, key: string, log: seq<AuditRecord>, i: nat, r: AuditRecord)
    requires Valid(d, key, log) && i < |log| && log[i].sequenceId != 0 && ColonFree(log[i])
    requires Unforged(d, key, r, [log[i]])
    ensures Valid(d, key, log[i := r]) <==> SameEntry(r, log[i]) || SelfMadeGenesis(d, log, i, r)
  {
    assert InOrder(d, key, log, i);
    assert i + 1 < |log| ==> InOrder(d, key, log, i + 1);
    assert Fits(log, i, log[i]);
    ReplacementIsAccepted(d, key, log, i, r, [log[i]]);
    assert SameEntry(r, log[i]) ==> r.sequenceId != 0 && SameEntry(r, [log[i]][0]);
  }

  /** And an edit of a genesis goes unnoticed exactly when it remains one that agrees with itself and its successor. */
  lemma GenesisEditIsNoticed(d: Digests, key: string, log: seq<AuditRecord>, i: nat, r: AuditRecord)
    requires Valid(d, key, log) && i < |log| && log[i].sequenceId == 0 && Unforged(d, key, r, [])
    ensures Valid(d, key, log[i := r]) <==> SelfMadeGenesis(d, log, i, r)
  {
    ReplacementIsLocal(d, key, log, i, r);
  }

  /**
   With its hash left as it is, a genesis may be rewritten exactly as long as node and boot epoch stay,
   unless the two genesis texts collide: nothing else of it is authenticated.
   */
  lemma GenesisEditInPlace(d: Digests, key: string, log: seq<AuditRecord>, i: nat, r: AuditRecord)
    requires Valid(d, key, log) && i < |log| && log[i].sequenceId == 0
    requires r.sequenceId == 0 && r.entryHash == log[i].entryHash
    requires ComputeGenesisHash(d, r.nodeId, r.bootEpoch) == ComputeGenesisHash(d, log[i].nodeId, log[i].bootEpoch) ==>
               GenesisText(r.nodeId, r.bootEpoch) == GenesisText(log[i].nodeId, log[i].bootEpoch)
    ensures Valid(d, key, log[i := r]) <==> r.nodeId == log[i].nodeId && r.bootEpoch == log[i].bootEpoch
  {
    assert InOrder(d, key, log, i);
    assert i + 1 < |log| ==> InOrder(d, key, log, i + 1);
    hide GenesisText, HashOk;
    ReplacementIsLocal(d, key, log, i, r);
    if GenesisOk(d, r) {
      GenesisTextIsInjective(r.nodeId, r.bootEpoch, log[i].nodeId, log[i].bootEpoch);
    }
  }

  /**
   Without the key: an accepted journal may be cut anywhere and ended with a self-made genesis.  So a genesis can
   be appended, and the last record overwritten, hash and all, without the verifier noticing.
   */
  lemma AnyoneCanEndTheJournal(d: Digests, key: string, log: seq<AuditRecord>, n: nat, g: AuditRecord)
    requires Valid(d, key, log) && n <= |log| && g.sequenceId == 0 && GenesisOk(d, g)
    ensures Valid(d, key, log[..n]) && Valid(d, key, log[..n] + [g])
    ensures log != [] ==> Valid(d, key, log[|log| - 1 := g])
  {
    hide GenesisOk, HashOk;
    forall j | 0 <= j < n ensures InOrder(d, key, log[..n], j) {
      assert InOrder(d, key, log, j);
    }
    ValidStep(d, key, log[..n], g);
    if log != [] {
      ReplacementIsLocal(d, key, log, |log| - 1, g);
    }
  }

  // ---------------------------------------------------------------------------------------------
  // Removing and inserting records
  // ---------------------------------------------------------------------------------------------

  /** A piece of an accepted journal. */
  lemma PieceIsValid(d: Digests, key: string, log: seq<AuditRecord>, i: nat, j: nat)
    requires Valid(d, key, log) && i <= j <= |log|
    ensures Valid(d, key, log[i..j])
  {
    hide GenesisOk, HashOk;
    forall k | 0 <= k < j - i ensures InOrder(d, key, log[i..j], k) {
      assert InOrder(d, key, log, i + k);
    }
  }

  lemma FrontIsValid(d: Digests, key: string, a: seq<AuditRecord>, b: seq<AuditRecord>)
    ensures Valid(d, key, a + b) ==> Valid(d, key, a)
  {
    if Valid(d, key, a + b) {
      PieceIsValid(d, key, a + b, 0, |a|);
      assert (a + b)[0..|a|] == a;
    }
  }

  /** Two accepted pieces make an accepted whole exactly when the second starts anew or goes on from the first. */
  lemma JoinIsValid(d: Digests, key: string, a: seq<AuditRecord>, b: seq<AuditRecord>)
    requires Valid(d, key, a) && Valid(d, key, b)
    ensures Valid(d, key, a + b) <==> (a != [] && b != [] ==> b[0].sequenceId == 0 || Follows(a[|a| - 1], b[0]))
  {
    hide GenesisOk, HashOk;
    var log := a + b;
    forall k | 0 <= k < |log| && k != |a| ensures InOrder(d, key, log, k) {
      if k < |a| {
        assert InOrder(d, key, a, k);
      } else {
        assert InOrder(d, key, b, k - |a|) && log[k - 1] == b[k - 1 - |a|];
      }
    }
    if b != [] {
      assert InOrder(d, key, b, 0);
      assert Valid(d, key, log) <==> InOrder(d, key, log, |a|);
    } else {
      assert log == a;
    }
  }

  /**
   Removing records, any number in a row, goes unnoticed exactly when nothing is left before or after them, or
   what follows is a genesis or goes on from what precedes.  So the oldest and the latest records can be dropped.
   */
  lemma RemovalIsAccepted(d: Digests, key: string, log: seq<AuditRecord>, i: nat, j: nat)
    requires Valid(d, key, log) && i <= j <= |log|
    ensures Valid(d, key, log[..i] + log[j..]) <==>
            (0 < i && j < |log| ==> log[j].sequenceId == 0 || Follows(log[i - 1], log[j]))
    ensures Valid(d, key, log[i..]) && Valid(d, key, log[..i])
  {
    PieceIsValid(d, key, log, 0, i);
    PieceIsValid(d, key, log, i, |log|);
    PieceIsValid(d, key, log, j, |log|);
    assert log[0..i] == log[..i] && log[i..|log|] == log[i..] && log[j..|log|] == log[j..];
    JoinIsValid(d, key, log[..i], log[j..]);
  }

  /** From one genesis to the next the numbers count up without a gap. */
  lemma {:induction false} NumbersCountUp(d: Digests, key: string, log: seq<AuditRecord>, i: nat, j: nat)
    requires Valid(d, key, log) && i <= j < |log| && forall k :: i < k <= j ==> log[k].sequenceId != 0
    ensures log[j].sequenceId == log[i].sequenceId + (j - i)
    decreases j
  {
    hide GenesisOk, HashOk;
    if i < j {
      NumbersCountUp(d, key, log, i, j - 1);
      assert InOrder(d, key, log, j);
    }
  }

  /** Records cannot be taken out of the middle of a segment without the verifier noticing. */
  lemma RemovalInsideIsNoticed(d: Digests, key: string, log: seq<AuditRecord>, i: nat, j: nat)
    requires Valid(d, key, log) && 0 < i < j < |log| && forall k :: i <= k <= j ==> log[k].sequenceId != 0
    ensures !Valid(d, key, log[..i] + log[j..])
  {
    NumbersCountUp(d, key, log, i - 1, j);
    RemovalIsAccepted(d, key, log, i, j);
  }

  /**
   Inserting a record before place `i`, under the same assumption as for a replacement: unnoticed exactly when it
   is a self-made genesis that the record at `i` accepts, or a sealed record, unchanged in all that the verifier
   reads, that goes on from its predecessor and that the record at `i` accepts.
   */
  lemma InsertionIsAccepted(d: Digests, key: string, log: seq<AuditRecord>, i: nat, r: AuditRecord,
                            known: seq<AuditRecord>)
    requires Valid(d, key, log) && i <= |log| && Unforged(d, key, r, known)
    requires forall j :: 0 <= j < |known| ==> HashOk(d, key, known[j]) && ColonFree(known[j])
    ensures Valid(d, key, log[..i] + [r] + log[i..]) <==>
            && (i < |log| ==> log[i].sequenceId == 0 || Follows(r, log[i]))
            && if r.sequenceId == 0 then GenesisOk(d, r)
               else (i > 0 ==> Follows(log[i - 1], r)) && exists j :: 0 <= j < |known| && SameEntry(r, known[j])
  {
    hide TextOf, GenesisOk;
    PieceIsValid(d, key, log, 0, i);
    PieceIsValid(d, key, log, i, |log|);
    assert log[0..i] == log[..i] && log[i..|log|] == log[i..];
    ValidStep(d, key, log[..i], r);
    if r.sequenceId != 0 {
      KnownMeansAuthentic(d, key, r, known);
    }
    hide HashOk, Covered;
    var front := log[..i] + [r];
    assert Valid(d, key, front) <==>
             if r.sequenceId == 0 then GenesisOk(d, r) else HashOk(d, key, r) && (i > 0 ==> Follows(log[i - 1], r));
    FrontIsValid(d, key, front, log[i..]);
    if Valid(d, key, front) {
      JoinIsValid(d, key, front, log[i..]);
    }
  }

  /** A numbered record is authentic exactly when it is one of those sealed, as far as the verifier reads it. */
  lemma KnownMeansAuthentic(d: Digests, key: string, r: AuditRecord, known: seq<AuditRecord>)
    requires Unforged(d, key, r, known) && r.sequenceId != 0
    requires forall j :: 0 <= j < |known| ==> HashOk(d, key, known[j]) && ColonFree(known[j])
    ensures HashOk(d, key, r) <==> exists j :: 0 <= j < |known| && SameEntry(r, known[j])
  {
    hide TextOf;
    if HashOk(d, key, r) {
      var j :| 0 <= j < |known| && TextOf(known[j]) == TextOf(r);
      ColonFreeTextIsUnique(known[j], r);
      assert SameEntry(r, known[j]);
    }
    forall j | 0 <= j < |known| && SameEntry(r, known[j]) ensures HashOk(d, key, r) {
      CoveredGivesText(r, known[j]);
    }
  }

  /** So inside a segment nothing but a copy of its genesis, right after it, can be inserted. */
  lemma InsertionInsideSegment(d: Digests, key: string, log: seq<AuditRecord>, i: nat, r: AuditRecord)
    requires Valid(d, key, log) && 0 < i < |log| && log[i].sequenceId != 0
    requires Valid(d, key, log[..i] + [r] + log[i..])
    ensures r.sequenceId == log[i - 1].sequenceId == 0 && r.entryHash == log[i - 1].entryHash
  {
    hide GenesisOk, HashOk;
    var longer := log[..i] + [r] + log[i..];
    assert longer[i - 1] == log[i - 1] && longer[i] == r && longer[i + 1] == log[i];
    assert InOrder(d, key, longer, i) && InOrder(d, key, longer, i + 1) && InOrder(d, key, log, i);
  }
}
