# Guardrail proxy: verified models

Dafny models of the stateful algorithms inside the AI security guardrail proxy, with proofs of what each of
them promises. `dafny verify dfyconfig.toml` checks the whole project.

| module | what it models |
|---|---|
| `AhoCorasick` | the injection matcher: trie, breadth-first completion of the node table in place, one-pass search |
| `Lookahead` | the sliding window that relays response streams, and the canary inspector it runs |
| `RingBuffer` | the lock-free buffer in front of the audit ledger, as a transition system over its atomic operations |
| `Ledger`, `LedgerSystem`, `LedgerClose` | the chained ledger: sealing, flushing, recovery; ring, writer goroutine and `Close` together; what `Close` leaves behind |
| `AuditChain`, `AuditCommitment` | the entry encoding and the journal verifier; what an accepted journal commits to |
| `Limiter` | the per-tenant sliding-window limiter |
| `CircuitBreaker`, `CircuitRequests` | the upstream circuit breaker; the same under traffic whose requests have names |
| `Vault`, `DlpScanner`, `SessionVault`, `Replacement` | the session vault, one redaction pass and all of them in a row, undoing them, the objects that do it |
| `Luhn` | the card-number checksum |
| `YamlText`, `YamlParser`, `YamlRoundTrip` | the configuration parser, a printer, and the round trip |
| `Occurrences`, `Decimal`, `Options` | substrings, decimal numerals and optional values, shared |

Code that updates state is a class or a loop proved equal to a function of the old state; the theorems about
runs are about those functions. Several lemmas use `hide` to keep recursive definitions out of proofs that only
need their contracts.

Inputs to the models: the clock (limiter, breaker, boot epoch), the token estimate of a request, the list of
matches of a redaction pass (or the function that finds them) and its validator, the pattern-cleaning function of
the matcher, the reads an upstream delivers and the outcome of each downstream write, and the two digests of the
journal (SHA-256 and HMAC-SHA-256), which are arbitrary functions; a lemma that needs digests of different texts to
differ says of which texts.

## Results that qualify the code or its documentation

* **Tampering.** The repository's README says any modification of a past entry breaks the chain. `VerifyChain`
  reads only some fields. Replacing a record by any other, number and hash included, is accepted exactly when the
  new one is a record sealed under the key, unchanged in covered fields and hash, that fits between the neighbours,
  or a self-consistent genesis whose successor is absent, a genesis, or follows it
  (`AuditCommitment.ReplacementIsAccepted`; `EditIsNoticed` and `GenesisEditIsNoticed` for edits of one record). So
  session, node and epoch of a numbered record may be rewritten, and of a genesis everything but number, hash, node
  and epoch (`AuditCommitment.GenesisEditInPlace`). Without the key, a self-made genesis may be appended, may
  overwrite the last record, or may end a journal cut short anywhere (`AuditCommitment.AnyoneCanEndTheJournal`).
  Removing records, any number in a row, is accepted exactly when nothing is left before or after them, or what
  follows is a genesis or goes on from what precedes (`AuditCommitment.RemovalIsAccepted`); so the oldest and the
  latest records can be dropped without the key, and none inside a segment (`AuditCommitment.RemovalInsideIsNoticed`).
  Inserting is decided alike (`AuditCommitment.InsertionIsAccepted`): inside a segment nothing fits but a copy of its
  genesis, right after it (`AuditCommitment.InsertionInsideSegment`).
* **Field separators.** When no hash field contains a ':', the entry text determines the covered fields if and
  only if neither tenant nor action contains one (`AuditChain.TextDeterminesExactly`,
  `AuditChain.ColonsAreAmbiguous`).
* **Close.** `Close` leaves the whole claim order in the file, whatever happens next, if and only if no push that
  can still claim a slot, or has claimed one, is under way when it is called; otherwise a record can be accepted and
  never written (`LedgerClose.CloseIsSafeWhenQuiet`, `LedgerClose.LatePushIsLost`). A push that has loaded the head
  can still claim exactly as long as the tail has not passed that head, short of 2^64 pushes in between
  (`LedgerClose.OvertakenIsHopeless`).
* **Lookahead margin.** The transformer's comment promises no leak for patterns of length at most the margin L;
  it holds exactly up to L + 1 (`Lookahead.MarginIsExact`).
* **Token quota.** The quota fails in two ways. A negative estimate, which a negative `max_tokens` in a payload
  makes, lets its amount through on top of the quota a moment later (`Limiter.NegativeEstimateIsAdmitted`). And Go's
  integer addition wraps, so an estimate beyond the largest integer less tpm is admitted on top of a full quota
  (`Limiter.OversizedEstimateIsAdmitted`, `Limiter.TokenCheckIsExact`). Next to safe estimates, and for quotas below
  half the largest integer, the quota holds over all runs if and only if the estimate lies between 0 and the largest
  integer less tpm, or the request limit is 1 (`Limiter.TokenBoundIsExact`; without a request limit for all quotas
  below the largest integer). With no restriction on estimates it holds if and only if the request limit is 1
  (`Limiter.UnrestrictedTokenBound`). `Limiter.TokenBound` therefore bounds the estimates.
* **Half-open probes.** The documented limit of `HalfOpenProbes` requests applies to requests in flight; an
  episode can let `2 * HalfOpenProbes - 1` through, and no more (`CircuitBreaker.EpisodeBound`,
  `CircuitBreaker.EpisodeBoundIsReached`), so the documented limit holds if and only if `HalfOpenProbes` is 1
  (`CircuitBreaker.EpisodesWithinProbes`). A half-open circuit
  closes on the success that makes as many in the episode as there are probes (`CircuitBreaker.ClosesOnSuccesses`),
  whoever's they are. Every way of closing rests on the episode's own requests if and only if no earlier request has
  succeeded in it and none is in flight (`CircuitRequests.ClosingsAreEarned`), and the circuit can close without any
  probe answered if and only if enough earlier requests are in flight (`CircuitRequests.ClosesWithoutProbes`), which
  happens for every configuration (`CircuitRequests.LateSuccessesClose`).
* **Redaction.** A validated match can remain after the pass over it alone, in some payload, exactly when it overlaps
  the pseudonym it gets: one contains the other, the match starts like the pseudonym ends, or the match ends like the pseudonym
  starts and its first part can be left standing before it (`Replacement.ReturnsExactly`, `Vault.MatchCanRemain`).
  Matches that overlap no pseudonym are gone after the pass and after all passes (`Vault.NoSecretRemains`,
  `DlpScanner.NoSecretOfAnyPassRemains`), brackets or not; database URIs are such unless an 'R' follows an opening
  bracket in them (`Vault.UriIsPlain`).
* **Sessions.** The vault's session key joins tenant and session with a ':', so a tenant shares no session with tenants
  whose names hold no ':' if and only if its own holds none (`DlpScanner.IsolationIsExact`).
* **Pseudonyms.** The repository's README shows `[REDACTED_SECRET_AWS_KEY_0]`; the code, and the model, number
  from 1 without a kind: `[REDACTED_SECRET_1]`.

## Model

| member | source | states |
|---|---|---|
| AhoCorasick.AhoCorasick.constructor | internal/inbound/ahocorasick.go:43-104 | The compiled table is the complete automaton of the cleaned patterns: its words are exactly their prefixes, every fail link is the longest proper suffix that is a word, every transition the longest suffix of word plus byte, every output list the patterns that are suffixes, longest first; node numbers are bounded by one plus the total pattern length |
| AhoCorasick.AhoCorasick.Insert | internal/inbound/ahocorasick.go:49-66 | Inserting one pattern adds its prefixes to the words, lists it at its own node and changes nothing else |
| AhoCorasick.AhoCorasick.Complete | internal/inbound/ahocorasick.go:68-101 | The in-place breadth-first pass turns the trie into the automaton, taking every node from the line exactly once, in depth order |
| AhoCorasick.AhoCorasick.Search | internal/inbound/ahocorasick.go:107-120 | A match is reported exactly when some non-empty cleaned pattern is a substring of the text with its capital ASCII letters made small, whichever way that is said: by the lowering function, by any text that differs only in capitals turned small, or, for a text without capitals, by the text itself; the report ends earliest, is the longest there, and first listed on ties |
| AhoCorasick.LongestSuffixIsLongest | internal/inbound/ahocorasick.go:84-99 | The suffix the transitions are defined by is a suffix, a word, and no shorter than any other suffix that is a word |
| AhoCorasick.LongestSuffixStep | internal/inbound/ahocorasick.go:84-99 | Taking the longest known suffix commutes with reading one more byte, so one state per byte is enough |
| AhoCorasick.FailTransition | internal/inbound/ahocorasick.go:84-99 | The fail state's transition on a byte is the fail link of the child on that byte and, without a child, the transition itself |
| AhoCorasick.ShallowerIsFinished | internal/inbound/ahocorasick.go:80-101 | When a node is taken from the line all shallower nodes are finished and all nodes of its depth have their fail link and outputs |
| AhoCorasick.InheritFromFail | internal/inbound/ahocorasick.go:88-95 | Linking a child to the fail state's target and appending that node's outputs settles the child for good, although the table is half trie and half automaton |
| AhoCorasick.RedirectToFail | internal/inbound/ahocorasick.go:96-99 | Overwriting a missing edge with the fail state's transition keeps the half-built table correct |
| AhoCorasick.FinishTable | internal/inbound/ahocorasick.go:80-103 | With the line empty every row, fail link and output list has its final value |
| AhoCorasick.FinishOrder | internal/inbound/ahocorasick.go:80-103 | With the line empty every node has been taken, none twice, in non-decreasing depth |
| AhoCorasick.OutputsOfLongestSuffix | internal/inbound/ahocorasick.go:91-94 | The outputs of the longest known suffix are all patterns ending here: forgetting the rest of the text loses none |
| AhoCorasick.HeadOutput | internal/inbound/ahocorasick.go:115-117 | The output list is empty exactly when no pattern ends here, and its head is the longest, first-listed one |
| AhoCorasick.InsertByte | internal/inbound/ahocorasick.go:55-63 | Following an existing edge or growing a fresh one spells one more byte and adds at most that one word |
| AhoCorasick.SubstringEndsSomewhere | internal/inbound/ahocorasick.go:109-118 | A cleaned pattern is a substring of the text exactly when some prefix of the text ends with one |
| AhoCorasick.FirstMatchIsUnique | internal/inbound/ahocorasick.go:107-120 | The text determines the reported pattern |
| AhoCorasick.LowerIsFolding | internal/inbound/ahocorasick.go:110-113 | The lowered text is the only one without the bytes 65 to 90 that differs from the text at most by 32 added to such bytes |
| AhoCorasick.CaseDoesNotMatter | internal/inbound/ahocorasick.go:110-113 | A text without capitals is searched as it is, and turning any one capital into its small letter never changes what is searched |
| AhoCorasick.ReportIsBest | internal/inbound/ahocorasick.go:107-120 | In terms of occurrences alone: the reported pattern occurs in the text, and every other occurrence of a pattern ends later, or ends there too and is shorter, or is as long and listed no earlier |
| Lookahead.TransformStream | internal/outbound/lookahead.go:79-212 | The relay with its growable buffer shifted in place computes the run of its inputs; after an abort the client has the bytes forwarded and then the error frame, otherwise the bytes forwarded and nothing else |
| Lookahead.ReleaseWindows | internal/outbound/lookahead.go:114-140 | The inner loop terminates for every window and margin and releases all but the margin of every window that passes |
| Lookahead.WindowBuffer.Append | internal/outbound/lookahead.go:112 | Appending a chunk keeps the held bytes, moving them to a larger array when needed |
| Lookahead.WindowBuffer.Slide | internal/outbound/lookahead.go:133-135 | The overlapping copy leaves exactly the bytes after the released head |
| Lookahead.NewConfig | internal/outbound/lookahead.go:63-75 | Positive sizes are used as configured, others select 128 and 64, so window and margin in force are positive |
| Lookahead.CleanRelease | internal/outbound/lookahead.go:116-135 | Releasing any part of a window that passed inspection leaks no pattern of the stream read so far |
| Lookahead.MarginProtects | internal/outbound/lookahead.go:123-136 | Holding back a margin makes the verdict on the bytes read a verdict on every continuation |
| Lookahead.NoLeakOverAnyRun | internal/outbound/lookahead.go:49-165 | For any sizes, chunking and way of stopping: what was forwarded is a prefix of the stream that never passes the start of an occurrence, read or unread, and at most max(W-1, L) bytes are held back between reads |
| Lookahead.ChunkIndependence | internal/outbound/lookahead.go:100-165 | An undisturbed run aborts exactly when the whole stream contains a pattern, and otherwise forwards every byte unchanged |
| Lookahead.DownstreamExactly | internal/outbound/lookahead.go:79-212 | When no write breaks and an undisturbed stream contains no pattern, the client gets exactly its bytes; when it does, a part of them that ends before the first occurrence, then the error frame |
| Lookahead.EndingIsReported | internal/outbound/lookahead.go:89-165 | When no write breaks, a run that is not aborted ends as its last read says: cancelled, failed or complete; complete, it has forwarded everything taken, and cut short everything but a bounded rest, data that came with the read error included |
| Lookahead.BrokenWriteIsLast | internal/outbound/lookahead.go:124-131 | In every run a broken write is the last one, and only a broken write ends a run as one |
| Lookahead.WritesAreCounted | internal/outbound/lookahead.go:124-153 | In every run every write forwards something and nothing is forwarded without one |
| Lookahead.BrokenWriteCutsShort | internal/outbound/lookahead.go:124-131 | After a broken write the client has everything forwarded before and as much of the last write as went through, which was all of the held bytes or all but the margin |
| Lookahead.LongerPatternLeaks | internal/outbound/lookahead.go:49-50 | For every window and margin, a pattern longer than the margin plus one leaks its first byte on some chunking |
| Lookahead.MarginIsExact | internal/outbound/lookahead.go:49-50 | No run leaks a pattern if and only if it is at most one byte longer than the margin |
| Lookahead.DetectsPatterns | internal/outbound/canary.go:28-36 | The canary check is the test for one of two byte strings, the session's canary if any and SEC-CNR- |
| Lookahead.CanaryNeverLeaks | internal/outbound/engine.go:46-54 | With the engine's inspector no canary leaks in any run, whatever the other scanners say, if the general prefix fits the margin and the canary does too or starts with that prefix; nor does any other text that the other scanners flag wherever it stands and that fits the margin |
| Lookahead.StreamVerdictIsBodyVerdict | internal/outbound/engine.go:58-67 | A stream that runs to its end is aborted exactly when the canary check rejects the same bytes as one body |
| RingBuffer.StepKeepsInv | internal/audit/ledger.go:84-125 | Every atomic step of any producer or of the consumer keeps counters, claims, slots and local copies consistent |
| RingBuffer.RingIsFifo | internal/audit/ledger.go:84-125 | In every interleaving and for every capacity the popped records are a prefix of the records in the order of successful claims, at most a buffer's worth is outstanding, and the next slot to claim is empty |
| RingBuffer.ClaimsOnlyWithRoom | internal/audit/ledger.go:86-93 | A successful claim happens only while the buffer has room and takes an empty slot, however stale the loaded counters were |
| RingBuffer.RefusalIsHarmless | internal/audit/ledger.go:86-90 | A push is refused exactly when the buffer is full or the loaded head was overtaken and the difference wrapped; refusing changes nothing but the caller |
| RingBuffer.StoreKeepsInv | internal/audit/ledger.go:92-93 | The slot a producer fills is empty until then, and filling it disturbs no other record |
| RingBuffer.LoadSlotKeepsInv | internal/audit/ledger.go:111-121 | The consumer finds a slot empty exactly while its claimer has not stored yet, and otherwise finds the record claimed there |
| RingBuffer.AdvanceKeepsInv | internal/audit/ledger.go:122-124 | Clearing before advancing hands an empty slot to the next round and appends the right record to what was popped |
| RingBuffer.PopIsPatient | internal/audit/ledger.go:110-121 | While producers go on in any way, Pop looks into the slot of an unfinished push up to 101 times, takes the record at the first look that finds one, and gives up exactly when none of the 101 does |
| LedgerSystem.StepKeepsInv | internal/audit/ledger.go:305-375 | Every step of producers, writer and Close keeps the file the sealed form of the records written, which with the batch are the records popped |
| LedgerSystem.FileIsPrefixOfClaims | internal/audit/ledger.go:305-402 | At every moment, whatever the interleaving and the batch splits, the file is the genesis and a sealed prefix of the claim order, and the verifier accepts it |
| LedgerSystem.FlushesFullBatches | internal/audit/ledger.go:344-353 | In the polling loop the 256th record popped starts a flush and no earlier one does |
| LedgerSystem.FileLagsByOneBatch | internal/audit/ledger.go:344-358 | At every step before the final drain all but at most 256 of the records popped are in the file |
| LedgerClose.CloseIsSafeWhenQuiet | internal/audit/ledger.go:254-402 | In every state an open ledger can get into: the file holds the whole claim order at the end of every continuation of Close if and only if no push that can still claim, or has claimed, is under way |
| LedgerClose.CloseWritesEverything | internal/audit/ledger.go:363-402 | If no push could still claim when Close was called, the finished writer leaves the whole claim order in the file, each record once |
| LedgerClose.LatePushIsLost | internal/audit/ledger.go:254-402 | Otherwise, whatever else is going on, some continuation finishes the writer, returns from every push and leaves an accepted record out of the file |
| LedgerClose.OvertakenIsHopeless | internal/audit/ledger.go:86-90 | Short of a full round of the 64-bit counters, a push that has loaded the head can still claim exactly as long as the tail has not passed that head |
| LedgerClose.EmptyMeansDrained | internal/audit/ledger.go:105-121 | With no such push under way, Pop comes back empty only from an empty buffer |
| LedgerClose.WriterReaches | internal/audit/ledger.go:344-375 | After Close the writer by itself gets to any point of the claim order not yet passed, or finishes before it |
| LedgerClose.PushReturns | internal/audit/ledger.go:84-101 | A push left alone returns, and claims a slot when the buffer is empty |
| Ledger.ChainedLedger.Open | internal/audit/ledger.go:144-220 | Opening an empty journal writes one genesis record, given field by field, with the configured node or the default one and its SHA-256; opening another writes nothing and goes on from its last record, or fails when there is none; a configured key is used as it is, the empty one stands for the default |
| Ledger.ChainedLedger.FlushBatch | internal/audit/ledger.go:312-342 | A flush appends the sealed form of the batch in order and leaves number and hash of the last record |
| Ledger.RecoverLastRecord | internal/audit/ledger.go:222-250 | Recovery returns number and hash of the line that only blank lines follow, if it is a record, and fails when that line is no record or every line is blank |
| Ledger.RecoveredIsLast | internal/audit/ledger.go:222-250 | A journal of blank lines has nothing to recover, a last line that is no record hides whatever precedes it, and a last record is recovered |
| Ledger.ChainConcat | internal/audit/ledger.go:312-342 | Batch boundaries do not show in the journal |
| Ledger.ChainContents | internal/audit/ledger.go:319-341 | Sealing loses, repeats and reorders nothing and numbers consecutively |
| Ledger.LogIsValid | internal/audit/ledger.go:319-341 | A genesis followed by sealed records passes every check of the verifier |
| Ledger.JournalIsAccepted | internal/audit/verify.go:30-107 | The verifier accepts what the writer wrote, counting one more than was recorded, and recovery finds the writer's last number and hash |
| Ledger.JournalUnderOtherKey | internal/audit/verify.go:78-95 | A journal written under one key is accepted under another, neither empty, exactly when both keys give every recorded text the same HMAC |
| Ledger.SessionsAreAccepted | internal/audit/ledger.go:183-250 | After any number of open, record and close sessions opening has never failed, the journal chains everything recorded in order, is accepted, and recovers to the last number and hash |
| AuditChain.VerifyChain | internal/audit/verify.go:15-108 | The verifier accepts exactly the journals whose lines are all records in order under the given key itself, the empty key standing for the default, and its count is the length of the longest accepted run from the start |
| AuditChain.ScanStep | internal/audit/verify.go:37-97 | The checks on one line pass exactly when the journal up to it is still accepted |
| AuditChain.PrefixAccepted | internal/audit/verify.go:37-97 | Every prefix of an accepted journal is accepted |
| AuditChain.Rejected | internal/audit/verify.go:43-92 | A line that fails rejects the journal and every extension, and what precedes it is the longest accepted prefix |
| AuditChain.EntryTextIsInjective | internal/audit/ledger.go:60-64 | Two records whose separated fields hold no ':' and whose texts agree, agree on every covered field, both decimal numbers included |
| AuditChain.TextDeterminesExactly | internal/audit/ledger.go:60-64 | For a record whose hash fields hold no ':', the text determines the covered fields among all records if and only if neither tenant nor action holds a ':' |
| AuditChain.ColonFreeTextIsUnique | internal/audit/ledger.go:60-64 | No other covered fields, colons or not, have the text of a record without ':' |
| AuditChain.ColonsAreAmbiguous | internal/audit/ledger.go:60-64 | With a ':' inside tenant or action, different records have the same text |
| AuditChain.EntryTextParts | internal/audit/ledger.go:60-64 | For a record without ':' in its fields, the parts of the entry text between colons are previous hash, number, timestamp, tenant, action, request hash and response hash, in this order, the numbers in decimal |
| AuditChain.GenesisTextIsInjective | internal/audit/ledger.go:53-57 | The genesis text determines node and boot epoch without any restriction |
| AuditChain.GenesisTextParts | internal/audit/ledger.go:53-57 | For a node without ':', the parts of the genesis text are the word GENESIS, the node and the boot epoch in decimal |
| AuditCommitment.ValidMeansSegments | internal/audit/verify.go:50-97 | A log is valid exactly when it is a concatenation of linked segments, each but the first opened by a valid genesis |
| AuditCommitment.HeadCommitsToHistory | internal/audit/verify.go:68-95 | Two accepted logs under one key with the same last hash agree backwards on every covered field down to the start of the shorter final segment, unless two of their texts collide |
| AuditCommitment.NumbersFromGenesis | internal/audit/verify.go:68-71 | In a segment opened by a genesis a record's number is its distance from it |
| AuditCommitment.HeadCommitsToGenesis | internal/audit/verify.go:50-60 | When both final segments have a genesis, the last hash fixes their length and the node and epoch of the genesis |
| AuditCommitment.ReplacementIsAccepted | internal/audit/verify.go:50-97 | Replacing any record by any other is accepted exactly when the new one is a sealed record, same covered fields and hash, that fits between the neighbours, or a self-consistent genesis that the successor accepts |
| AuditCommitment.EditIsNoticed | internal/audit/verify.go:50-97 | Any edit of a numbered record goes unnoticed exactly when covered fields and hash stay, or it becomes a self-consistent genesis whose successor is absent, a genesis, or follows it |
| AuditCommitment.GenesisEditIsNoticed | internal/audit/verify.go:50-60 | Any edit of a genesis goes unnoticed exactly when it remains a self-consistent genesis that its successor accepts |
| AuditCommitment.GenesisEditInPlace | internal/audit/verify.go:50-60 | An edit of a genesis that leaves number and hash goes unnoticed exactly when node and boot epoch stay, the two genesis texts not colliding |
| AuditCommitment.AnyoneCanEndTheJournal | internal/audit/verify.go:50-60 | Every accepted journal, cut anywhere and ended with a self-made genesis, is accepted; so is one whose last record is overwritten by it |
| AuditCommitment.RemovalIsAccepted | internal/audit/verify.go:50-97 | Removing any records in a row is accepted exactly when nothing is left before or after them, or what follows is a genesis or goes on from what precedes |
| AuditCommitment.RemovalInsideIsNoticed | internal/audit/verify.go:68-76 | Records taken out of the middle of a segment are always missed |
| AuditCommitment.InsertionIsAccepted | internal/audit/verify.go:50-97 | Inserting a record is accepted exactly when it is a self-consistent genesis or a sealed record that goes on from its predecessor, and its successor accepts it |
| AuditCommitment.InsertionInsideSegment | internal/audit/verify.go:68-76 | Inside a segment only a copy of its genesis, right after it, can be inserted |
| Limiter.TenantBucket.PruneRequests | internal/inbound/limiter.go:129-137 | The in-place compaction keeps exactly the times not before the cutoff, in order |
| Limiter.TenantBucket.PruneTokens | internal/inbound/limiter.go:139-149 | The in-place compaction keeps exactly the records not before the cutoff and returns their wrapped token sum |
| Limiter.TenantBucket.Check | internal/inbound/limiter.go:112-174 | The check answers and updates the bucket as the serving function says |
| Limiter.RateLimiter.Execute | internal/inbound/limiter.go:96-174 | A request creates its tenant's bucket if needed, and changes that bucket only |
| Limiter.RateLimiter.SetTenantLimit | internal/inbound/limiter.go:61-79 | Setting limits keeps the tenant's recorded history and touches no other tenant |
| Limiter.TenantsAreIsolated | internal/inbound/limiter.go:96-174 | Over any run a tenant's bucket and answers are those of its own calls alone |
| Limiter.PruneTimes | internal/inbound/limiter.go:129-149 | The two pruned lists stay in lock-step |
| Limiter.CallAgrees | internal/inbound/limiter.go:112-174 | One call on the pruned bucket answers as one that counts the whole history, and stays in step with it |
| Limiter.PruningIsInvisible | internal/inbound/limiter.go:127-174 | With a clock that never goes back every answer of every run equals the one found by counting all recorded admissions of the last minute |
| Limiter.ServesExactly | internal/inbound/limiter.go:112-174 | A request is admitted if and only if, counting the tenant's recorded admissions of the last 60 seconds, there is no positive request limit or fewer than it, and no positive token limit or the estimate still fits it |
| Limiter.DecisionsAreExact | internal/inbound/limiter.go:61-174 | Every answer of every run of requests and limit changes of any tenants is the one that the tenant's own history decides in this way, under the limits set for it last or else the defaults, if the clock does not go back and the token sum fits 64 bits |
| Limiter.RejectionConsumesNothing | internal/inbound/limiter.go:151-164 | After a refused request all later answers are as if it had not been made |
| Limiter.RequestBound | internal/inbound/limiter.go:127-171 | With fixed limits a tenant is admitted at most rpm times in any closed minute and at most k * rpm times in any half-open span of k minutes, whatever other tenants do |
| Limiter.TokenBound | internal/inbound/limiter.go:139-171 | With fixed limits and estimates that cannot overflow the check, any closed minute holds at most tpm estimated tokens |
| Limiter.TokenBoundIsExact | internal/inbound/limiter.go:127-171 | Next to estimates between 0 and the largest integer less tpm, the token quota holds in every closed minute of every run if and only if a further 64-bit estimate lies in that range too, or the request limit is 1 |
| Limiter.UnrestrictedTokenBound | internal/inbound/limiter.go:127-171 | For arbitrary 64-bit estimates the token quota holds over all runs if and only if the request limit is 1 |
| Limiter.TokenCheckIsExact | internal/inbound/limiter.go:160 | For all 64-bit operands: the wrapped comparison decides the true one unless the sum overflows, or underflows so far that it wraps above tpm |
| Limiter.NegativeEstimateIsAdmitted | internal/inbound/limiter.go:158-191 | After any negative estimate a request of tpm + 1 tokens is admitted, which exceeds tpm within the minute |
| Limiter.OversizedEstimateIsAdmitted | internal/inbound/limiter.go:158-171 | Every estimate beyond the largest integer less tpm is admitted on top of a full quota, exceeding tpm within the minute |
| CircuitBreaker.CircuitBreaker.constructor | internal/resilience/circuit_breaker.go:64-81 | A new breaker is closed and uses the configured values, defaults standing in for zero counts and for a cooldown that is not positive |
| CircuitBreaker.CircuitBreaker.Allow | internal/resilience/circuit_breaker.go:97-131 | Permits and moves as the transition function says, keeping the counters consistent |
| CircuitBreaker.CircuitBreaker.RecordSuccess | internal/resilience/circuit_breaker.go:136-163 | Moves as the transition function says; no counter under- or overflows |
| CircuitBreaker.CircuitBreaker.RecordFailure | internal/resilience/circuit_breaker.go:168-200 | Moves as the transition function says, from every state, late failures included |
| CircuitBreaker.CircuitBreaker.GetState | internal/resilience/circuit_breaker.go:203-211 | Reports the state an Allow at the same time would leave the breaker in: open means the request would be refused, closed that it would pass, half-open already when the cooldown is over |
| CircuitBreaker.ApplyKeepsConsistent | internal/resilience/circuit_breaker.go:97-246 | Every call keeps failures, successes and probes in flight within the bounds of the state |
| CircuitBreaker.CountersAreHistory | internal/resilience/circuit_breaker.go:97-246 | After any calls the counters are what happened: while open the stored time is that of the last failure, late ones included, or of a trip by hand; while closed the failure counter is the streak since the last success or the closing; while half-open the probe counter holds the requests of the episode still out and the success counter its successes |
| CircuitBreaker.AllowFromHistory | internal/resilience/circuit_breaker.go:97-131 | After any calls a request passes if and only if the circuit is closed, or open with a full cooldown gone by since the last failure, late ones included, or half-open with fewer requests out than there are probes |
| CircuitBreaker.StateFromHistory | internal/resilience/circuit_breaker.go:97-246 | Every move of the breaker is decided by the calls before it: the failure streak, the time since the last failure, and the successes of the episode |
| CircuitBreaker.EpisodeIsAccounted | internal/resilience/circuit_breaker.go:107-163 | The requests of a half-open episode are in flight or answered by a success |
| CircuitBreaker.EpisodeBound | internal/resilience/circuit_breaker.go:107-163 | One half-open episode lets at most 2 * HalfOpenProbes - 1 requests through, whatever the interleaving |
| CircuitBreaker.EpisodeBoundIsReached | internal/resilience/circuit_breaker.go:107-163 | For every configuration some episode lets exactly that many through |
| CircuitBreaker.EpisodesWithinProbes | internal/resilience/circuit_breaker.go:93-131 | Every half-open episode lets through at most HalfOpenProbes requests, as documented, if and only if HalfOpenProbes is 1 |
| CircuitBreaker.ClosesOnSuccesses | internal/resilience/circuit_breaker.go:140-156 | A half-open circuit closes exactly on a reset, or on the success that makes as many in the episode as there are probes |
| CircuitBreaker.SuccessesAreCounted | internal/resilience/circuit_breaker.go:140-156 | The breaker's counter holds the successes of the episode in progress, which are fewer than the probes |
| CircuitRequests.ClosingIsCounted | internal/resilience/circuit_breaker.go:140-156 | Every closing rests on exactly HalfOpenProbes successes in the episode, of its own and of earlier requests together |
| CircuitRequests.EarnedMeansNoneLate | internal/resilience/circuit_breaker.go:140-156 | A closing rests on HalfOpenProbes successes of the episode's own requests if and only if no success of an earlier request fell in the episode |
| CircuitRequests.ClosingsAreEarned | internal/dispatcher/dispatcher.go:160-277 | From any half-open state every way of closing rests on the episode's own requests if and only if no earlier request has won in it and none is in flight |
| CircuitRequests.ClosesWithoutProbes | internal/dispatcher/dispatcher.go:160-277 | From any half-open state the circuit can close without a success of the episode's own requests if and only if there has been none and as many earlier requests are in flight as successes are missing |
| CircuitRequests.LateSuccessesClose | internal/resilience/circuit_breaker.go:97-163 | For every configuration traffic leads to an episode that earlier requests close by their successes alone, its only probe in flight to the end |
| CircuitBreaker.AccountStep | internal/resilience/circuit_breaker.go:107-229 | Each call keeps the account of a tripped run: requests let through against episodes, episodes against cooldowns |
| CircuitBreaker.TripBound | internal/resilience/circuit_breaker.go:107-229 | From a trip until the circuit closes, a span T lets through at most (2 * HalfOpenProbes - 1) * floor(T / Cooldown) requests |
| CircuitBreaker.OpensAtThreshold | internal/resilience/circuit_breaker.go:168-184 | A breaker nobody trips by hand leaves the closed state exactly when the failures since the last success reach the threshold |
| Vault.StoreKeepsInverse | internal/inbound/dlp.go:76-93 | Storing keeps the two maps inverse, changes no pseudonym given before, and answers with one that resolves to the secret |
| Vault.StoresKeepInverse | internal/inbound/dlp.go:76-93 | Under any sequence of stores the maps stay inverse and pseudonyms stable |
| Vault.PseudonymOf | internal/inbound/dlp.go:76-93 | A known secret keeps its pseudonym and changes nothing; a new one gets `[REDACTED_SECRET_n]` with n one more than the number of secrets so far |
| Vault.PseudonymIsInjective | internal/inbound/dlp.go:86-87 | Different numbers give different pseudonyms |
| Vault.NoSecretRemains | internal/inbound/dlp.go:196-239 | After a pass no validated match that overlaps no pseudonym remains in the payload, whatever brackets it holds |
| Vault.RedactionRoundTrip | internal/inbound/dlp.go:196-239 | Substituting the reported pseudonyms back, last first, through the vault restores the payload if it held none of them |
| Vault.PassIsExact | internal/inbound/dlp.go:196-239 | A pass reports the valid matches, each once, in the order first met, under the session's pseudonyms after storing them in that order; the text is the payload with these substitutions made one after the other, and matches that are not valid change nothing |
| Vault.FreshPseudonym | internal/inbound/dlp.go:208-223 | A match new to the pass gets a pseudonym the pass has not used |
| Vault.SurvivesInPseudonym | internal/inbound/dlp.go:226 | A bracket-free match is still there after its replacement exactly when it was there and its pseudonym contains it |
| Vault.MatchCanRemain | internal/inbound/dlp.go:196-239 | In any session a validated match can remain after the pass over it, in some payload that holds it, if and only if it overlaps its pseudonym so that replacing can form it anew |
| Vault.PlainWithoutBrackets | internal/inbound/dlp.go:86 | A match without brackets overlaps no pseudonym exactly when none contains it |
| Vault.UriIsPlain | internal/inbound/dlp.go:28 | A database URI, brackets around an IPv6 host included, overlaps no pseudonym unless an 'R' follows an opening bracket in it |
| DlpScanner.NoSecretOfAnyPassRemains | internal/inbound/dlp.go:162-194 | No validated match of any pass that overlaps no pseudonym remains in the payload when all passes are over |
| DlpScanner.ScanRoundTrip | internal/inbound/dlp.go:162-194 | Undoing all passes, last one first, through the vault restores the payload, if it held none of the reported pseudonyms and no two passes reported the same |
| DlpScanner.PlainScanRoundTrip | internal/inbound/dlp.go:162-194 | When the finders return what stands in the text and the validated matches overlap no pseudonym, undoing all passes restores every payload without pseudonym text |
| DlpScanner.NotFoundAgain | internal/inbound/dlp.go:162-194 | Such a secret, reported by one pass, is not there for a later pass to find |
| DlpScanner.IsolationIsExact | internal/inbound/dlp.go:167-170 | A tenant shares no session key with tenants whose names hold no ':' if and only if its own name holds none |
| DlpScanner.RedactCreatesNone | internal/inbound/dlp.go:196-239 | A pass brings no text into the payload that was not there and overlaps no pseudonym |
| DlpScanner.AllTraced | internal/inbound/dlp.go:162-194 | The only bracketed texts that all passes add are pseudonyms they report, and the vault resolves each to its secret |
| Replacement.ReplaceIsJoin | internal/inbound/dlp.go:226 | Replacing is splitting at the old text and joining with the new |
| Replacement.ReturnsExactly | internal/inbound/dlp.go:226 | There is a text in which `y` is found after all its occurrences were replaced by `p` if and only if one contains the other, `y` starts like `p` ends, or `y` ends like `p` starts and its first part can be left standing before it |
| Replacement.ReplaceRemoves | internal/inbound/dlp.go:226 | A text replaced by one that it does not overlap is gone |
| Replacement.ReplaceCreatesNone | internal/inbound/dlp.go:226 | Replacing brings no text into being that does not overlap the substitute |
| Replacement.ReplaceUndone | internal/inbound/dlp.go:226 | Replacing back restores the text, if it did not contain the substitute |
| SessionVault.SessionVault.Store | internal/inbound/dlp.go:76-93 | Stores in one session and leaves every other session as it was |
| SessionVault.SessionVault.Resolve | internal/inbound/dlp.go:95-109 | Finds exactly the secret the session's reverse map holds |
| SessionVault.SessionVault.Destroy | internal/inbound/dlp.go:112-133 | Removes the session, overwrites every raw secret it held with zeroes, and leaves the other sessions alone |
| SessionVault.RedactMatches | internal/inbound/dlp.go:196-239 | The scanner's loop computes the pass: text, reported substitutions and the session's maps |
| SessionVault.Execute | internal/inbound/dlp.go:162-194 | The scanner's passes over the vault object compute the passes of the rules in order in the session of tenant and session name; other sessions are untouched, so between tenants without ':' in their names nothing is shared; an empty payload is passed on |
| Luhn.VerifyLuhn | internal/inbound/dlp.go:265-304 | Accepts exactly the texts of digits and separators with 13 to 19 digits and a checksum divisible by ten |
| Luhn.SeparatorsAreIgnored | internal/inbound/dlp.go:269-282 | Removing all separators never changes the verdict |
| Luhn.SeparatorAnywhere | internal/inbound/dlp.go:269-282 | A dash or a blank may be put in or left out anywhere without changing the verdict |
| Luhn.ForeignCharacterRejected | internal/inbound/dlp.go:269-282 | Any other character that is no digit rejects the text |
| Luhn.ZeroesAccepted | internal/inbound/dlp.go:284-303 | Zeroes are accepted exactly when there are 13 to 19 of them |
| Luhn.CheckDigitIsUnique | internal/inbound/dlp.go:284-303 | Every text with 12 to 18 digits has exactly one digit that completes it to an accepted number |
| Luhn.LastTwoDigits | internal/inbound/dlp.go:288-303 | After zeroes, two digits are accepted exactly when the digits of twice the first and the second add up to a multiple of ten |
| Luhn.SingleDigitErrorDetected | internal/inbound/dlp.go:288-303 | Changing any one digit of an accepted number is detected |
| Luhn.TranspositionDetected | internal/inbound/dlp.go:288-303 | Swapping two neighbouring digits of an accepted number goes undetected exactly when they are equal or are 0 and 9 |
| YamlText.StripComment | internal/config/yaml.go:81-95 | The loop returns the part of the line before the first '#' outside quotes, or the whole line when there is none |
| YamlText.CommentIsDropped | internal/config/yaml.go:81-95 | A '#' outside quotes and what follows it are dropped from a line, whatever they are |
| YamlText.LineEnds | internal/config/yaml.go:35-37 | Line feeds and carriage return line feeds end lines alike |
| YamlText.CountIndent | internal/config/yaml.go:67-79 | The loop counts leading blanks, a tab for two |
| YamlText.IndentationOfBlanks | internal/config/yaml.go:67-79 | The indentation of a line is its leading blanks and twice its leading tabs, in any order |
| YamlText.UncommentedWhole | internal/config/yaml.go:81-95 | A line in which no comment starts is left whole |
| YamlText.IntScalar | internal/config/yaml.go:256-288 | Every 64-bit integer, printed, is read back as that integer |
| YamlText.QuotedScalar | internal/config/yaml.go:256-297 | Every text, put in double quotes, is read back as that text |
| YamlText.ScalarDenotes | internal/config/yaml.go:256-297 | A scalar is read as a value if and only if it denotes it: text in either kind of quotes, true, yes or on and false, no or off in any letter case, null or ~, a 64-bit decimal with or without sign, and otherwise itself |
| YamlParser.Block | internal/config/yaml.go:97-109 | A successful block parse stays inside the input and eats no line shallower than its block; a failed one reports a line of the block with the reported fault |
| YamlParser.MapFrom | internal/config/yaml.go:111-156 | A map block ends exactly at the end or at the first shallower line |
| YamlParser.ListFrom | internal/config/yaml.go:158-254 | A list block ends exactly at the end, at a shallower line or at a line of its depth that is no item |
| YamlParser.MapsAreWellFormed | internal/config/yaml.go:111-156 | A map block is parsed only if each of its lines has a colon and nothing deeper follows a line with text after its colon: no line is skipped |
| YamlParser.ListsAreWellFormed | internal/config/yaml.go:158-254 | A list block is parsed only if each of its lines starts with a dash and nothing deeper follows a scalar item |
| YamlParser.MapRejectsExactly | internal/config/yaml.go:114-126 | A line of a map is refused as unexpectedly deep exactly when it is deeper than the map, and as lacking a colon exactly when it is at its depth and has none |
| YamlParser.BlockKind | internal/config/yaml.go:97-109 | A block is a list if its first line starts with a dash and a map if not |
| YamlParser.ItemKind | internal/config/yaml.go:176-252 | An item with text after its dash is a map if there is a colon in the text, and the scalar otherwise |
| YamlParser.KeysStopExactly | internal/config/yaml.go:211-223 | The further keys of an item stop exactly at the end, at a line not deeper than its dash, at another item or at a line without colon |
| YamlParser.ParseMap | internal/config/yaml.go:111-156 | The loop over a map's lines computes the map block and resumes after nested blocks |
| YamlParser.ParseList | internal/config/yaml.go:158-254 | The loop over a list's lines computes the list block, for all three kinds of items |
| YamlParser.ParseItemMap | internal/config/yaml.go:190-246 | The loop over the further keys of a `- key:` item computes the item's map |
| YamlParser.ParseYAML | internal/config/yaml.go:30-65 | The scan over raw lines and the top-level dispatch compute the document |
| YamlParser.LineIsRead | internal/config/yaml.go:35-52 | Blanks around a text and a comment after it change nothing but the indentation |
| YamlParser.BlankLineIsSkipped | internal/config/yaml.go:41-45 | A line of blanks, or of blanks and a comment, is no line |
| YamlRoundTrip.HeadIsReadBack | internal/config/yaml.go:124-132 | A printed entry line is taken apart into its key and its scalar |
| YamlRoundTrip.NodeIsReadBack | internal/config/yaml.go:140-152 | A printed nested block is read back and parsing resumes exactly after its lines |
| YamlRoundTrip.EntriesAreReadBack | internal/config/yaml.go:111-156 | Printed map entries are read back, in any map and at any depth |
| YamlRoundTrip.CompactItemIsReadBack | internal/config/yaml.go:190-246 | A printed `- key: ...` item with further keys below is read back |
| YamlRoundTrip.ItemsAreReadBack | internal/config/yaml.go:158-254 | Printed list items of every form are read back in order |
| YamlRoundTrip.LinesAreReadBack | internal/config/yaml.go:35-52 | Rendered lines are scanned back with their indentation and content |
| YamlRoundTrip.ParsingUndoesPrinting | internal/config/yaml.go:30-254 | The text of every well-formed document, printed at any indentation, parses to its meaning with no line left over |
| YamlRoundTrip.TreeRoundTrip | internal/config/yaml.go:30-254 | Every tree of nulls, truth values, 64-bit integers, texts quotable in either way, unquoted texts and non-empty maps and lists, colon-free where the format needs it, can be printed, and every printed form, in any spelling of its keywords, is read back as the tree itself |
| YamlRoundTrip.MapMeansItsEntries | internal/config/yaml.go:112-152 | With distinct keys the parsed map holds exactly the printed entries |
| YamlRoundTrip.IntLeaf | internal/config/yaml.go:256-288 | Integers may stand in maps and lists of the round trip |
| YamlRoundTrip.NullLeaf | internal/config/yaml.go:256-288 | Nulls may stand in maps and lists of the round trip |
| YamlRoundTrip.QuotedLeaf | internal/config/yaml.go:256-297 | Texts without double quotes may stand quoted as values and, without colons, as keys and list items |
| YamlRoundTrip.SingleQuotedLeaf | internal/config/yaml.go:256-297 | Texts without single quotes may stand in single quotes likewise |
| YamlRoundTrip.WordLeaf | internal/config/yaml.go:267-275 | The keywords for truth values and null may stand in maps and lists, in any letter case, and mean what they say |
| YamlRoundTrip.LeafDenotes | internal/config/yaml.go:256-297 | The meaning of a printed leaf is the value its text denotes |

## Left out

- HTTP serving, dispatch, authentication, metrics, configuration defaulting and the command line: plumbing around these components.
- File system, fsync, JSON encoding and scanner line limits: the journal is an append-only list of lines, a line being blank, a record or neither.
- The internals of SHA-256 and HMAC, and that their output is hexadecimal.
- The regular expressions of the DLP scanners: inbound matches are an arbitrary list of non-empty texts; the stream theorems are about inspectors that look for byte strings.
- Entropy analysis, delimiter and schema checks, canary generation and injection, `IsValidSSN`.
- Token estimation: the estimate is an input integer.
- Text is modelled as characters, bytes as numbers below 256; no UTF-8 decoding. Keyword comparison in the YAML scalars folds ASCII letters only.
- YAML floats and unquoted strings: both are read as `Plain`. Line numbers in error messages: an error carries the index of the line it is about.
- Counter exhaustion at 2^64 in the ring buffer and node numbers beyond 2^32 in the matcher: head, tail and node numbers are unbounded; the constructor of the matcher bounds node numbers by the total pattern length.
- Scheduling: tickers, notifications and sleeps appear only as steps the writer may take; `Flush` is not modelled. `Close` sets the closed flag and signals the writer in one step, and a push checks the flag and enters the buffer in one step.
- The breaker's state-change callback, and locks: each call is one step.
- Lookahead.TransformStream: the flusher, the cancellation of the upstream request and the closing of the socket are not modelled; a nil inspector is one that never flags.
- Ledger.SessionsAreAccepted: assumes fewer than 2^64 records, beyond which numbers wrap to 0 and are read as a genesis.
- Vault.NoSecretRemains: says nothing about matches that overlap a pseudonym, which can remain as said under results above.
- DlpScanner.ScanRoundTrip: says nothing about a secret that two passes report; matches that overlap no pseudonym are never reported twice.
- Limiter.TokenBoundIsExact: with a request limit above 1 it assumes a quota below half the largest 64-bit integer; beyond that the answer depends on how many requests fit a minute.
- Limiter.TokenBound: assumes estimates between 0 and the largest integer less tpm, outside of which it is false, as said under results above.
